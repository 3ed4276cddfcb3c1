/** The bounded in-memory cache: a map of entries and a list of keys, changed by every write. */
module BoundedCache {
  import opened Options
  import opened OrderedKeys
  import opened CacheSequence

  /** Map and list hold the same keys, each once. */
  ghost predicate Twins(order: seq<string>, entries: map<string, Item>) {
    && Lists(order, entries.Keys)
    && (forall i :: 0 <= i < |order| ==> order[i] in entries)
  }

  function Zip(order: seq<string>, entries: map<string, Item>): (s: Items)
    requires forall i :: 0 <= i < |order| ==> order[i] in entries
    ensures |s| == |order| && forall i :: 0 <= i < |s| ==> s[i] == Pair(order[i], entries[order[i]])
  {
    seq(|order|, i requires 0 <= i < |order| => Pair(order[i], entries[order[i]]))
  }

  lemma TwinFacts(order: seq<string>, entries: map<string, Item>)
    requires Twins(order, entries)
    ensures |order| == |entries| && DistinctKeys(Zip(order, entries))
  {
    assert |multiset(order)| == |multiset(entries.Keys)|;
    forall i, j | 0 <= i < j < |order| ensures order[i] != order[j] {
      OnlyWithout(order, i, entries.Keys);
      assert order[j] == (order[..i] + order[i + 1..])[j - 1];
      ListsMember(order[..i] + order[i + 1..], entries.Keys - {order[i]}, order[j]);
    }
  }

  lemma HasKey(order: seq<string>, entries: map<string, Item>, key: string)
    requires Twins(order, entries)
    ensures Has(Zip(order, entries), key) <==> key in entries
    ensures key in order <==> key in entries
    ensures Find(Zip(order, entries), key) == if key in entries then Some(entries[key]) else None
  {
    var s := Zip(order, entries);
    ListsMember(order, entries.Keys, key);
    TwinFacts(order, entries);
    if key in entries {
      var i := Position(order, key);
      assert s[i].key == key;
      FindAt(s, i);
    } else {
      NotFound(s, key);
    }
  }

  lemma {:induction false} NotFound(s: Items, key: string)
    requires !Has(s, key)
    ensures Find(s, key) == None
  {
    if s != [] {
      assert s[0].key != key;
      assert forall i :: 0 <= i < |s| - 1 ==> s[1..][i] == s[i + 1];
      NotFound(s[1..], key);
    }
  }

  lemma ZipReplace(order: seq<string>, entries: map<string, Item>, key: string, item: Item)
    requires Twins(order, entries) && key in entries
    ensures Twins(order, entries[key := item])
    ensures Zip(order, entries[key := item]) == Replace(Zip(order, entries), key, item)
  {
    assert entries[key := item].Keys == entries.Keys;
  }

  lemma ZipAppend(order: seq<string>, entries: map<string, Item>, key: string, item: Item)
    requires Twins(order, entries) && key !in entries
    ensures Twins(order + [key], entries[key := item])
    ensures Zip(order + [key], entries[key := item]) == Zip(order, entries) + [Pair(key, item)]
  {
    assert entries[key := item].Keys == entries.Keys + {key};
  }

  lemma ZipRemove(order: seq<string>, entries: map<string, Item>, i: nat)
    requires Twins(order, entries) && i < |order|
    ensures Twins(order[..i] + order[i + 1..], entries - {order[i]})
    ensures Zip(order[..i] + order[i + 1..], entries - {order[i]}) == RemoveAt(Zip(order, entries), i)
  {
    TwinFacts(order, entries);
    OnlyWithout(order, i, entries.Keys);
    assert (entries - {order[i]}).Keys == entries.Keys - {order[i]};
    var rest := order[..i] + order[i + 1..];
    forall j | 0 <= j < |rest| ensures rest[j] in entries - {order[i]} {
      ListsMember(rest, entries.Keys - {order[i]}, rest[j]);
    }
  }

  class Cache {
    var store: map<string, Item>
    var keysOrder: seq<string>
    const maxEntries: nat

    ghost predicate Valid()
      reads this
    {
      Twins(keysOrder, store) && |store| <= maxEntries && maxEntries > 0
    }

    ghost function View(): Items
      requires Valid()
      reads this
    {
      Zip(keysOrder, store)
    }

    constructor (maxEntries: int)
      ensures Valid() && View() == []
      ensures this.maxEntries == if maxEntries <= 0 then 10000 else maxEntries
    {
      store, keysOrder := map[], [];
      this.maxEntries := if maxEntries <= 0 then 10000 else maxEntries;
    }

    /** Eviction reads the clock at evictNow; the item expires at deadline. */
    method Set(key: string, value: int, deadline: int, evictNow: int)
      requires Valid()
      modifies this
      ensures Valid() && View() == CacheSequence.Set(maxEntries, old(View()), key, Item(value, deadline), evictNow)
    {
      HasKey(keysOrder, store, key);
      TwinFacts(keysOrder, store);
      if key in store {
        ZipReplace(keysOrder, store, key, Item(value, deadline));
        store := store[key := Item(value, deadline)];
        assert store.Keys == old(store.Keys);
        return;
      }
      if |store| >= maxEntries {
        EvictOneLocked(evictNow);
      }
      ZipAppend(keysOrder, store, key, Item(value, deadline));
      keysOrder := keysOrder + [key];
      store := store[key := Item(value, deadline)];
    }

    method Get(key: string, now: int) returns (value: int, found: bool)
      requires Valid()
      ensures found <==> Find(View(), key).Some? && now < Find(View(), key).value.expiresAt
      ensures found ==> value == Find(View(), key).value.value
    {
      HasKey(keysOrder, store, key);
      if key !in store {
        return 0, false;
      }
      var remaining := store[key].expiresAt - now;
      if remaining <= 0 {
        return 0, false;
      }
      return store[key].value, true;
    }

    method Delete(key: string)
      requires Valid()
      modifies this
      ensures Valid() && View() == Without(old(View()), {key})
    {
      DeleteLocked(key);
    }

    /** Deletes every key that begins with prefix, in any order. */
    method InvalidatePrefix(prefix: string)
      requires Valid()
      modifies this
      ensures Valid() && View() == Without(old(View()), set k | k in old(store) && prefix <= k)
    {
      var todo := store.Keys;
      ghost var dropped: set<string> := {};
      WithoutNone(View(), {});
      while todo != {}
        invariant Valid() && todo <= old(store).Keys
        invariant View() == Without(old(View()), dropped)
        invariant dropped == set k | k in old(store) && prefix <= k && k !in todo
        decreases |todo|
      {
        var k :| k in todo;
        if prefix <= k {
          WithoutBoth(old(View()), dropped, {k});
          DeleteLocked(k);
          dropped := dropped + {k};
        }
        todo := todo - {k};
      }
      assert dropped == set k | k in old(store) && prefix <= k;
    }

    method EvictOneLocked(now: int)
      requires Valid() && store != map[]
      modifies this
      ensures Valid() && View() == RemoveAt(old(View()), Victim(old(View()), now))
      ensures |store| == old(|store|) - 1 && store.Keys <= old(store.Keys)
    {
      TwinFacts(keysOrder, store);
      var i := 0;
      while i < |keysOrder|
        invariant i <= |keysOrder| && keysOrder == old(keysOrder) && store == old(store)
        invariant forall j :: 0 <= j < i ==> now <= View()[j].item.expiresAt
      {
        var key := keysOrder[i];
        if now > store[key].expiresAt {
          assert View()[i].item == store[key];
          DeleteAt(i);
          return;
        }
        i := i + 1;
      }
      DeleteAt(0);
    }

    method DeleteLocked(key: string)
      requires Valid()
      modifies this
      ensures Valid() && View() == Without(old(View()), {key})
    {
      HasKey(keysOrder, store, key);
      TwinFacts(keysOrder, store);
      if key !in store {
        assert forall i :: 0 <= i < |View()| ==> View()[i].key != key;
        WithoutNone(View(), {key});
        return;
      }
      var i := Position(keysOrder, key);
      WithoutOne(View(), i);
      DeleteAt(i);
    }

    /** Removes the list element an entry points to, and its map entry. */
    method DeleteAt(i: nat)
      requires Valid() && i < |keysOrder|
      modifies this
      ensures Valid() && View() == RemoveAt(old(View()), i)
      ensures store == old(store) - {old(keysOrder)[i]} && |store| == old(|store|) - 1
    {
      ZipRemove(keysOrder, store, i);
      var key := keysOrder[i];
      assert (store - {key}).Keys == store.Keys - {key};
      keysOrder := keysOrder[..i] + keysOrder[i + 1..];
      store := store - {key};
    }
  }
}
