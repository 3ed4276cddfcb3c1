/** The in-memory store itself: a map and a list updated in place under one lock. */
module MemoryIdempotencyStore {
  import opened Options
  import opened OrderedKeys
  import opened MemoryIdempotency
  import Records = IdempotencyRecords

  class MemoryStore {
    var entries: map<string, Entry>
    var order: seq<string>
    const maxEntries: nat

    ghost function Contents(): Store
      reads this
    {
      Store(entries, order)
    }

    ghost predicate Ok()
      reads this
    {
      Valid(maxEntries, Contents())
    }

    constructor (maxEntries: int)
      ensures Ok() && Contents() == Store(map[], [])
      ensures this.maxEntries == if maxEntries <= 0 then 10000 else maxEntries
    {
      entries, order := map[], [];
      this.maxEntries := if maxEntries <= 0 then 10000 else maxEntries;
    }

    method Claim(key: string, fingerprint: string, owner: string, ttl: int, now: int) returns (reply: Reply)
      requires Ok()
      modifies this
      ensures Ok()
      ensures (Contents(), reply) == Apply(maxEntries, old(Contents()), Op.Claim(key, fingerprint, owner, ttl, now))
      ensures reply == InvalidInput <==> key == "" || fingerprint == "" || owner == "" || ttl <= 0
      ensures reply == ClaimReply(Records.Claim(true, true, fingerprint, None)) ==>
                key in entries && entries[key] == Entry(fingerprint, owner, true, None, now + ttl)
    {
      if !ValidInput(key, fingerprint, owner, ttl) {
        return InvalidInput;
      }
      RemoveExpired(now);
      reply := ClaimLocked(key, Entry(fingerprint, owner, true, None, now + ttl));
    }

    method ClaimLocked(key: string, entry: Entry) returns (reply: Reply)
      requires Ok() && entry.pending && entry.response.None?
      modifies this
      ensures Ok()
      ensures (Contents(), reply) == ClaimLive(maxEntries, old(Contents()), key, entry) && reply != InvalidInput
      ensures reply == ClaimReply(Records.Claim(true, true, entry.fingerprint, None)) ==>
                key in entries && entries[key] == entry
    {
      ClaimLiveValid(maxEntries, Contents(), key, entry);
      if key in entries {
        return ClaimReply(ClaimAnswer(entries[key]));
      }
      if |entries| >= maxEntries {
        var evicted := EvictCompleted();
        if !evicted {
          return CapacityReached;
        }
      }
      order := order + [key];
      entries := entries[key := entry];
      return ClaimReply(Records.Claim(true, true, entry.fingerprint, None));
    }

    method Complete(key: string, fingerprint: string, owner: string, response: Records.Response, ttl: int, now: int)
      returns (reply: Reply)
      requires Ok()
      modifies this
      ensures Ok()
      ensures (Contents(), reply)
          == Apply(maxEntries, old(Contents()), Op.Complete(key, fingerprint, owner, response, ttl, now))
      ensures reply == InvalidInput <==> key == "" || fingerprint == "" || owner == "" || ttl <= 0
      ensures reply == OutcomeReply(Records.Done) ==>
                key in entries && entries[key] == Entry(fingerprint, owner, false, Some(response), now + ttl)
    {
      ApplyValid(maxEntries, Contents(), Op.Complete(key, fingerprint, owner, response, ttl, now));
      if !ValidInput(key, fingerprint, owner, ttl) {
        return InvalidInput;
      }
      if key !in entries || !entries[key].pending || entries[key].owner != owner
        || entries[key].fingerprint != fingerprint {
        return OutcomeReply(Records.OwnershipLost);
      }
      entries := entries[key := entries[key].(pending := false, response := Some(response), expiresAt := now + ttl)];
      return OutcomeReply(Records.Done);
    }

    method Release(key: string, owner: string) returns (reply: Reply)
      requires Ok()
      modifies this
      ensures Ok()
      ensures (Contents(), reply) == Apply(maxEntries, old(Contents()), Op.Release(key, owner))
    {
      if key == "" || owner == "" {
        return InvalidInput;
      }
      if key !in entries {
        return OutcomeReply(Records.Done);
      }
      if !entries[key].pending || entries[key].owner != owner {
        return OutcomeReply(Records.OwnershipLost);
      }
      DeleteLocked(key);
      return OutcomeReply(Records.Done);
    }

    method RemoveExpired(now: int)
      requires Ok()
      modifies this
      ensures Ok() && Contents() == Live(old(Contents()), now)
    {
      ghost var was := Contents();
      ghost var done: set<string>, j := {}, 0;
      var i := 0;
      SweepEnds(maxEntries, was, {}, now);
      while i < |order|
        invariant Ok() && i <= |order| && j <= |was.order| && order[i..] == was.order[j..]
        invariant forall k :: k in was.order[..j] ==> k in done
        invariant Contents() == Sweep(was, done, now)
        decreases |was.order| - j
      {
        var key := order[i];
        SameNext(order, i, was.order, j);
        ListsMember(order, entries.Keys, key);
        SweepStep(was, done, now, key);
        done, j := done + {key}, j + 1;
        if now >= entries[key].expiresAt {
          ghost var before := order;
          DeleteAt(key, i);
          assert order[i..] == before[i + 1..];
        } else {
          i := i + 1;
        }
      }
      assert was.order[..j] == was.order;
      forall k | k in was.entries ensures k in done {
        ListsMember(was.order, was.entries.Keys, k);
      }
      SweepEnds(maxEntries, was, done, now);
    }

    method EvictCompleted() returns (evicted: bool)
      requires Ok()
      modifies this
      ensures Ok() && evicted == FirstComplete(old(Contents())).Some?
      ensures Contents() == if evicted then Drop(old(Contents()), FirstComplete(old(Contents())).value)
          else old(Contents())
    {
      var i := 0;
      assert order[0..] == order;
      while i < |order|
        invariant i <= |order| && Contents() == old(Contents())
        invariant FirstComplete(Contents()) == FirstComplete(Store(entries, order[i..]))
      {
        var key := order[i];
        assert order[i..][0] == key && order[i..][1..] == order[i + 1..];
        ListsMember(order, entries.Keys, key);
        if !entries[key].pending {
          DeleteAt(key, i);
          return true;
        }
        i := i + 1;
      }
      return false;
    }

    method DeleteLocked(key: string)
      requires Ok()
      modifies this
      ensures Ok() && Contents() == if key in old(entries) then Drop(old(Contents()), key) else old(Contents())
    {
      if key !in entries {
        return;
      }
      ListsMember(order, entries.Keys, key);
      DeleteAt(key, Position(order, key));
    }

    /** list.Remove of the element an entry points to, and the map deletion beside it. */
    method DeleteAt(key: string, i: nat)
      requires Ok() && i < |order| && order[i] == key
      modifies this
      ensures Ok() && Contents() == Drop(old(Contents()), key)
      ensures order == old(order)[..i] + old(order)[i + 1..]
    {
      OnlyWithout(order, i, entries.Keys);
      ListsMember(order, entries.Keys, key);
      DropValid(maxEntries, Contents(), key);
      order := order[..i] + order[i + 1..];
      entries := entries - {key};
    }
  }

  /** Two lists that agree from i and j on agree one further on. */
  lemma SameNext(a: seq<string>, i: nat, b: seq<string>, j: nat)
    requires i < |a| && j <= |b| && a[i..] == b[j..]
    ensures j < |b| && a[i] == b[j] && a[i + 1..] == b[j + 1..] && b[..j + 1] == b[..j] + [b[j]]
  {
    assert a[i..][0] == a[i] && b[j..][0] == b[j];
    assert a[i + 1..] == a[i..][1..] && b[j + 1..] == b[j..][1..];
  }
}
