/**
 * The bounded cache as one sequence of items in insertion order: the reference
 * that the map and key list of the implementation must agree with.
 */
module CacheSequence {
  import opened Options

  datatype Item = Item(value: int, expiresAt: int)

  datatype Pair = Pair(key: string, item: Item)

  type Items = seq<Pair>

  ghost predicate DistinctKeys(s: Items) {
    forall i, j :: 0 <= i < j < |s| ==> s[i].key != s[j].key
  }

  predicate Has(s: Items, key: string) {
    exists i :: 0 <= i < |s| && s[i].key == key
  }

  function Find(s: Items, key: string): Option<Item> {
    if s == [] then None
    else if s[0].key == key then Some(s[0].item)
    else Find(s[1..], key)
  }

  /** An existing key keeps its position. */
  function Replace(s: Items, key: string, item: Item): (r: Items)
    ensures |r| == |s|
    ensures forall i :: 0 <= i < |s| ==> r[i] == if s[i].key == key then Pair(key, item) else s[i]
  {
    if s == [] then []
    else [if s[0].key == key then Pair(key, item) else s[0]] + Replace(s[1..], key, item)
  }

  /** The oldest item that has expired, or else the oldest item. */
  function Victim(s: Items, now: int): (v: nat)
    requires s != []
    ensures v < |s|
    ensures forall i :: 0 <= i < v ==> now <= s[i].item.expiresAt
    ensures now > s[v].item.expiresAt || (v == 0 && forall i :: 0 <= i < |s| ==> now <= s[i].item.expiresAt)
  {
    FirstExpired(s, 0, now)
  }

  function FirstExpired(s: Items, from: nat, now: int): (v: nat)
    requires from <= |s| && s != []
    requires forall i :: 0 <= i < from ==> now <= s[i].item.expiresAt
    ensures v < |s|
    ensures forall i :: 0 <= i < v ==> now <= s[i].item.expiresAt
    ensures now > s[v].item.expiresAt || (v == 0 && forall i :: 0 <= i < |s| ==> now <= s[i].item.expiresAt)
    decreases |s| - from
  {
    if from == |s| then 0
    else if now > s[from].item.expiresAt then from
    else FirstExpired(s, from + 1, now)
  }

  function RemoveAt(s: Items, i: nat): Items
    requires i < |s|
  {
    s[..i] + s[i + 1..]
  }

  function Set(max: nat, s: Items, key: string, item: Item, now: int): Items {
    if Has(s, key) then Replace(s, key, item)
    else if |s| >= max && s != [] then RemoveAt(s, Victim(s, now)) + [Pair(key, item)]
    else s + [Pair(key, item)]
  }

  /** The items whose keys are not dropped, in order. */
  function Without(s: Items, drop: set<string>): Items {
    if s == [] then []
    else if s[0].key in drop then Without(s[1..], drop)
    else [s[0]] + Without(s[1..], drop)
  }

  lemma {:induction false} WithoutNone(s: Items, drop: set<string>)
    requires forall i :: 0 <= i < |s| ==> s[i].key !in drop
    ensures Without(s, drop) == s
  {
    if s != [] {
      WithoutNone(s[1..], drop);
    }
  }

  /** Dropping one key cuts out its one item. */
  lemma {:induction false} WithoutOne(s: Items, i: nat)
    requires i < |s| && DistinctKeys(s)
    ensures Without(s, {s[i].key}) == RemoveAt(s, i)
  {
    if i == 0 {
      WithoutNone(s[1..], {s[0].key});
    } else {
      assert s[0].key != s[i].key;
      WithoutOne(s[1..], i - 1);
      assert RemoveAt(s, i) == [s[0]] + RemoveAt(s[1..], i - 1);
    }
  }

  lemma {:induction false} WithoutBoth(s: Items, a: set<string>, b: set<string>)
    ensures Without(Without(s, a), b) == Without(s, a + b)
  {
    if s != [] {
      WithoutBoth(s[1..], a, b);
      if s[0].key !in a {
        assert ([s[0]] + Without(s[1..], a))[1..] == Without(s[1..], a);
      }
    }
  }

  /** What is dropped is not found, everything else is found as before. */
  lemma {:induction false} FindWithout(s: Items, drop: set<string>, key: string)
    ensures Find(Without(s, drop), key) == if key in drop then None else Find(s, key)
  {
    if s != [] {
      FindWithout(s[1..], drop, key);
      if s[0].key !in drop {
        assert ([s[0]] + Without(s[1..], drop))[1..] == Without(s[1..], drop);
      }
    }
  }

  lemma {:induction false} FindAt(s: Items, i: nat)
    requires i < |s| && DistinctKeys(s)
    ensures Find(s, s[i].key) == Some(s[i].item)
  {
    if i > 0 {
      assert s[0].key != s[i].key;
      FindAt(s[1..], i - 1);
    }
  }

  /** A set is read back, distinct keys stay distinct and the bound is kept. */
  lemma SetIsRead(max: nat, s: Items, key: string, item: Item, now: int)
    requires max > 0 && DistinctKeys(s) && |s| <= max
    ensures var s' := Set(max, s, key, item, now);
            DistinctKeys(s') && |s'| <= max && Find(s', key) == Some(item)
  {
    var s' := Set(max, s, key, item, now);
    if Has(s, key) {
      var i :| 0 <= i < |s| && s[i].key == key;
      FindAt(s', i);
    } else {
      FindAt(s', |s'| - 1);
    }
  }

  lemma {:induction false} FindReplaced(s: Items, key: string, item: Item, k: string)
    requires k != key
    ensures Find(Replace(s, key, item), k) == Find(s, k)
  {
    if s != [] {
      FindReplaced(s[1..], key, item, k);
      assert Replace(s, key, item)[1..] == Replace(s[1..], key, item);
    }
  }

  lemma {:induction false} FindAppended(s: Items, p: Pair, k: string)
    requires k != p.key
    ensures Find(s + [p], k) == Find(s, k)
  {
    if s == [] {
      assert s + [p] == [p] && [p][1..] == [];
    } else {
      FindAppended(s[1..], p, k);
      assert (s + [p])[1..] == s[1..] + [p];
    }
  }

  /** A set loses nothing but the victim, and that only for a new key in a full cache. */
  lemma SetKeepsOthers(max: nat, s: Items, key: string, item: Item, now: int, k: string)
    requires DistinctKeys(s) && s != [] && k != key
    ensures Find(Set(max, s, key, item, now), k) ==
              if !Has(s, key) && |s| >= max && k == s[Victim(s, now)].key then None else Find(s, k)
  {
    if Has(s, key) {
      FindReplaced(s, key, item, k);
    } else if |s| >= max {
      var v := Victim(s, now);
      WithoutOne(s, v);
      FindWithout(s, {s[v].key}, k);
      FindAppended(RemoveAt(s, v), Pair(key, item), k);
    } else {
      FindAppended(s, Pair(key, item), k);
    }
  }

  datatype Write = Write(key: string, item: Item, now: int)

  function SetAll(max: nat, s: Items, writes: seq<Write>): Items
    decreases |writes|
  {
    if writes == [] then s
    else SetAll(max, Set(max, s, writes[0].key, writes[0].item, writes[0].now), writes[1..])
  }

  /**
   * An item with i items before it outlives any i writes to other keys that
   * happen before it expires: nothing newer is ever evicted before it is.
   */
  lemma {:induction false} OutlivesOlder(max: nat, s: Items, i: nat, writes: seq<Write>)
    requires max > 0 && DistinctKeys(s) && |s| <= max && i < |s| && |writes| <= i
    requires forall w :: w in writes ==> w.key != s[i].key && w.now <= s[i].item.expiresAt
    ensures Find(SetAll(max, s, writes), s[i].key) == Some(s[i].item)
    decreases |writes|
  {
    if writes == [] {
      FindAt(s, i);
    } else {
      var w := writes[0];
      var s' := Set(max, s, w.key, w.item, w.now);
      SetIsRead(max, s, w.key, w.item, w.now);
      assert w in writes;
      var i' := if s'[i] == s[i] then i else i - 1;
      assert s'[i'] == s[i] by {
        if !Has(s, w.key) && |s| >= max {
          var v := Victim(s, w.now);
          assert v != i;
        }
      }
      OutlivesOlder(max, s', i', writes[1..]);
    }
  }
}
