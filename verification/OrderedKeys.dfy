/** Lists of distinct keys, and what is left of them when keys are removed. */
module OrderedKeys {

  /** s lists the keys of a map, each exactly once. */
  ghost predicate Lists(s: seq<string>, keys: set<string>) {
    multiset(s) == multiset(keys)
  }

  /** The keys of s that are in keep, in the order of s. */
  function Only(s: seq<string>, keep: set<string>): seq<string> {
    if s == [] then []
    else if s[0] in keep then [s[0]] + Only(s[1..], keep)
    else Only(s[1..], keep)
  }

  lemma {:induction false} OnlyConcat(a: seq<string>, b: seq<string>, keep: set<string>)
    ensures Only(a + b, keep) == Only(a, keep) + Only(b, keep)
  {
    if a == [] {
      assert a + b == b;
    } else {
      assert (a + b)[1..] == a[1..] + b;
      OnlyConcat(a[1..], b, keep);
    }
  }

  lemma {:induction false} OnlyAll(s: seq<string>, keep: set<string>)
    requires forall k :: k in s ==> k in keep
    ensures Only(s, keep) == s
  {
    if s != [] {
      OnlyAll(s[1..], keep);
    }
  }

  lemma {:induction false} OnlyTwice(s: seq<string>, a: set<string>, b: set<string>)
    requires b <= a
    ensures Only(Only(s, a), b) == Only(s, b)
  {
    if s != [] {
      OnlyTwice(s[1..], a, b);
      if s[0] in a {
        assert ([s[0]] + Only(s[1..], a))[1..] == Only(s[1..], a);
      }
    }
  }

  lemma {:induction false} OnlyCount(s: seq<string>, keep: set<string>, k: string)
    ensures multiset(Only(s, keep))[k] == if k in keep then multiset(s)[k] else 0
  {
    if s != [] {
      assert s == [s[0]] + s[1..];
      OnlyCount(s[1..], keep, k);
    }
  }

  lemma OnlyLists(s: seq<string>, keys: set<string>, keep: set<string>)
    requires Lists(s, keys) && keep <= keys
    ensures Lists(Only(s, keep), keep)
  {
    forall k ensures multiset(Only(s, keep))[k] == multiset(keep)[k] {
      OnlyCount(s, keep, k);
    }
  }

  lemma OnlyListed(s: seq<string>, keys: set<string>)
    requires Lists(s, keys)
    ensures Only(s, keys) == s
  {
    forall k | k in s ensures k in keys { ListsMember(s, keys, k); }
    OnlyAll(s, keys);
  }

  /** Removing one key from a list of distinct keys cuts out its one occurrence. */
  lemma OnlyWithout(s: seq<string>, i: nat, keys: set<string>)
    requires i < |s| && Lists(s, keys)
    ensures Only(s, keys - {s[i]}) == s[..i] + s[i + 1..]
    ensures Lists(s[..i] + s[i + 1..], keys - {s[i]})
  {
    var a, x, b := s[..i], s[i], s[i + 1..];
    var keep := keys - {x};
    assert s == a + ([x] + b);
    assert multiset(s) == multiset(a) + multiset{x} + multiset(b);
    assert x in multiset(s);
    forall k | k in a || k in b ensures k in keep {
      assert multiset(s)[k] >= multiset(a)[k] + multiset(b)[k];
      assert k in multiset(a) || k in multiset(b);
    }
    OnlyConcat(a, [x] + b, keep);
    OnlyConcat([x], b, keep);
    OnlyAll(a, keep);
    OnlyAll(b, keep);
    OnlyLists(s, keys, keep);
  }

  lemma ListsMember(s: seq<string>, keys: set<string>, k: string)
    requires Lists(s, keys)
    ensures k in s <==> k in keys
  {
    assert k in multiset(s) <==> k in multiset(keys);
  }

  /** The position of a listed key. */
  function Position(s: seq<string>, k: string): (i: nat)
    requires k in s
    ensures i < |s| && s[i] == k
  {
    if s[0] == k then 0 else 1 + Position(s[1..], k)
  }
}
