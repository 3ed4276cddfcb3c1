/** A library sort: all its callers know is that the result is ordered and holds the same elements. */
module Sorting {
  /** A comparator's "at most" is total and transitive. */
  ghost predicate Preorder<T(!new)>(order: (T, T) -> int) {
    && (forall a, b :: order(a, b) <= 0 || order(b, a) <= 0)
    && forall a, b, c :: order(a, b) <= 0 && order(b, c) <= 0 ==> order(a, c) <= 0
  }

  ghost predicate Ordered<T>(order: (T, T) -> int, s: seq<T>) {
    forall i, j :: 0 <= i < j < |s| ==> order(s[i], s[j]) <= 0
  }

  function Insert<T>(order: (T, T) -> int, x: T, s: seq<T>): seq<T> {
    if s == [] || order(x, s[0]) <= 0 then [x] + s else [s[0]] + Insert(order, x, s[1..])
  }

  function Arranged<T>(order: (T, T) -> int, s: seq<T>): seq<T> {
    if s == [] then [] else Insert(order, s[0], Arranged(order, s[1..]))
  }

  lemma OrderedBefore<T(!new)>(order: (T, T) -> int, x: T, s: seq<T>)
    requires Ordered(order, s) && forall y <- s :: order(x, y) <= 0
    ensures Ordered(order, [x] + s)
  {
    var r := [x] + s;
    forall i, j | 0 <= i < j < |r| ensures order(r[i], r[j]) <= 0 {
      assert r[j] == s[j - 1];
    }
  }

  lemma Precedes<T(!new)>(order: (T, T) -> int, x: T, s: seq<T>)
    requires Preorder(order) && Ordered(order, s) && (s != [] ==> order(x, s[0]) <= 0)
    ensures forall y <- s :: order(x, y) <= 0
  {
    forall y | y in s ensures order(x, y) <= 0 {
      var k :| 0 <= k < |s| && s[k] == y;
      if k > 0 {
        assert order(s[0], s[k]) <= 0;
      }
    }
  }

  /** The head of an ordered sequence precedes its rest, and anything it was found to precede. */
  lemma HeadStays<T(!new)>(order: (T, T) -> int, x: T, s: seq<T>, rest: seq<T>)
    requires Preorder(order) && Ordered(order, s) && s != [] && order(x, s[0]) > 0
    requires Ordered(order, rest) && multiset(rest) == multiset(s[1..]) + multiset{x}
    ensures Ordered(order, [s[0]] + rest)
  {
    forall y | y in rest ensures order(s[0], y) <= 0 {
      assert y in multiset(rest);
      if y != x {
        assert y in s[1..];
        var k :| 0 <= k < |s| - 1 && s[1..][k] == y;
        assert s[k + 1] == y;
      }
    }
    OrderedBefore(order, s[0], rest);
  }

  lemma OrderedTail<T(!new)>(order: (T, T) -> int, s: seq<T>)
    requires Ordered(order, s) && s != []
    ensures Ordered(order, s[1..])
  {
  }

  lemma {:induction false} InsertHolds<T(!new)>(order: (T, T) -> int, x: T, s: seq<T>)
    ensures multiset(Insert(order, x, s)) == multiset(s) + multiset{x}
  {
    if s != [] && order(x, s[0]) > 0 {
      InsertHolds(order, x, s[1..]);
      assert s == [s[0]] + s[1..];
    }
  }

  lemma {:induction false} InsertOrdered<T(!new)>(order: (T, T) -> int, x: T, s: seq<T>)
    requires Preorder(order) && Ordered(order, s)
    ensures Ordered(order, Insert(order, x, s))
  {
    if s != [] && order(x, s[0]) > 0 {
      OrderedTail(order, s);
      InsertOrdered(order, x, s[1..]);
      InsertHolds(order, x, s[1..]);
      HeadStays(order, x, s, Insert(order, x, s[1..]));
    } else {
      Precedes(order, x, s);
      OrderedBefore(order, x, s);
    }
  }

  lemma {:induction false} ArrangedHolds<T(!new)>(order: (T, T) -> int, s: seq<T>)
    ensures multiset(Arranged(order, s)) == multiset(s)
  {
    if s != [] {
      ArrangedHolds(order, s[1..]);
      InsertHolds(order, s[0], Arranged(order, s[1..]));
      assert s == [s[0]] + s[1..];
    }
  }

  lemma {:induction false} ArrangedOrdered<T(!new)>(order: (T, T) -> int, s: seq<T>)
    requires Preorder(order)
    ensures Ordered(order, Arranged(order, s))
  {
    if s != [] {
      ArrangedOrdered(order, s[1..]);
      InsertOrdered(order, s[0], Arranged(order, s[1..]));
    }
  }

  ghost predicate NoDuplicates<T>(s: seq<T>) {
    forall i, j :: 0 <= i < j < |s| ==> s[i] != s[j]
  }

  lemma Twice<T>(r: seq<T>, i: nat, j: nat)
    requires i < j < |r| && r[i] == r[j]
    ensures multiset(r)[r[i]] >= 2
  {
    assert r == r[..i] + [r[i]] + r[i + 1..j] + [r[j]] + r[j + 1..];
  }

  lemma Once<T>(s: seq<T>, k: nat)
    requires NoDuplicates(s) && k < |s|
    ensures multiset(s)[s[k]] == 1
  {
    assert s == s[..k] + [s[k]] + s[k + 1..];
  }

  /** Rearranging keeps length, members, and the absence of duplicates. */
  lemma Rearranged<T(!new)>(s: seq<T>, r: seq<T>)
    requires multiset(r) == multiset(s)
    ensures |r| == |s| && forall x :: x in r <==> x in s
    ensures NoDuplicates(s) ==> NoDuplicates(r)
  {
    assert |r| == |multiset(r)| == |multiset(s)| == |s|;
    forall x ensures x in r <==> x in s {
      assert x in r <==> x in multiset(r);
    }
    forall i, j | NoDuplicates(s) && 0 <= i < j < |r| ensures r[i] != r[j] {
      assert r[i] in r;
      var k :| 0 <= k < |s| && s[k] == r[i];
      Once(s, k);
      if r[i] == r[j] {
        Twice(r, i, j);
      }
    }
  }

  method SortFunc<T(!new)>(order: (T, T) -> int, s: seq<T>) returns (r: seq<T>)
    requires Preorder(order)
    ensures Ordered(order, r) && multiset(r) == multiset(s)
  {
    r := Arranged(order, s);
    ArrangedOrdered(order, s);
    ArrangedHolds(order, s);
  }
}
