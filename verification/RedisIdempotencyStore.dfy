/**
 * The Redis store: each call is a retry loop over single Redis commands, and
 * other clients (and key expiry) may act between any two of them. Every result
 * is shown to be one the atomic record gives at some moment inside the call.
 */
module RedisIdempotencyStore {
  import opened Options
  import opened IdempotencyRecords

  datatype Reply<T> = Ok(value: T) | Invalid | RetriesExceeded

  ghost predicate Untouched(log: seq<Change>, from: nat, owner: string) {
    forall k :: from <= k < |log| ==> !By(log[k], owner)
  }

  /** owner's only change since from is the one at k. */
  ghost predicate OnlyChange(log: seq<Change>, from: nat, k: nat, owner: string) {
    forall i :: from <= i < |log| && i != k ==> !By(log[i], owner)
  }

  /** One Redis key. The version a WATCH remembers is the number of changes so far. */
  class Key {
    const name: string
    var record: Option<Record>
    var version: nat
    ghost var log: seq<Change>

    ghost predicate Valid()
      reads this
    {
      LegalLog(log) && version == |log| && record == StateAt(log, |log|)
    }

    constructor (name: string)
      ensures Valid() && log == [] && this.name == name
    {
      this.name := name;
      record, version, log := None, 0, [];
    }

    /** Anything other clients and expiry may do before this client's next command. */
    method Others(ghost owner: string)
      requires Valid()
      modifies this
      ensures Valid() && old(log) <= log && Untouched(log, |old(log)|, owner)
    {
    }

    /** SET key value NX. */
    method SetNX(fingerprint: string, owner: string) returns (acquired: bool)
      requires Valid()
      modifies this
      ensures Valid() && acquired == old(record).None?
      ensures log == if acquired
          then old(log) + [Change(Claimed(fingerprint, owner), None, Some(Pending(fingerprint, owner)))] else old(log)
    {
      acquired := record.None?;
      if acquired {
        Write(Some(Pending(fingerprint, owner)), Claimed(fingerprint, owner));
      }
    }

    /** EXEC of one queued command: takes effect only if the key is unchanged since the WATCH. */
    method Exec(watched: nat, after: Option<Record>, ghost cause: Cause) returns (ok: bool)
      requires Valid()
      requires watched == version ==> Legal(Change(cause, record, after))
      modifies this
      ensures Valid() && ok == (watched == old(version))
      ensures log == if ok then old(log) + [Change(cause, old(record), after)] else old(log)
    {
      ok := watched == version;
      if ok {
        Write(after, cause);
      }
    }

    method Write(after: Option<Record>, ghost cause: Cause)
      requires Valid() && Legal(Change(cause, record, after))
      modifies this
      ensures Valid() && log == old(log) + [Change(cause, old(record), after)] && record == after
    {
      LogGrows(log, Change(cause, record, after));
      log := log + [Change(cause, record, after)];
      record := after;
      version := version + 1;
    }
  }

  class Store {
    const retries: nat

    constructor (retries: int)
      ensures this.retries == if retries <= 0 then 8 else retries
    {
      this.retries := if retries <= 0 then 8 else retries;
    }

    method Claim(key: Key, fingerprint: string, owner: string, ttl: int)
        returns (reply: Reply<IdempotencyRecords.Claim>)
      requires key.Valid()
      modifies key
      ensures key.Valid() && old(key.log) <= key.log
      ensures reply.Invalid? <==> key.name == "" || fingerprint == "" || owner == "" || ttl <= 0
      ensures match reply
              case Invalid => key.log == old(key.log)
              case RetriesExceeded => Untouched(key.log, |old(key.log)|, owner)
              case Ok(claim) =>
                exists k :: |old(key.log)| <= k <= |key.log|
                  && ClaimOn(StateAt(key.log, k), fingerprint, owner).1 == claim
                  && (claim.acquired ==> k < |key.log| && key.log[k].cause == Claimed(fingerprint, owner))
                  && OnlyChange(key.log, |old(key.log)|, if claim.acquired then k else |key.log|, owner)
    {
      if key.name == "" || fingerprint == "" || owner == "" || ttl <= 0 {
        return Invalid;
      }
      ghost var start := |key.log|;
      var attempt := 0;
      while attempt < retries
        invariant key.Valid() && old(key.log) <= key.log && Untouched(key.log, start, owner)
      {
        key.Others(owner);
        ghost var before := key.log;
        var acquired := key.SetNX(fingerprint, owner);
        if acquired {
          assert StateAt(key.log, |before|) == None;
          assert key.log[|before|].cause == Claimed(fingerprint, owner);
          return Ok(IdempotencyRecords.Claim(true, true, fingerprint, None));
        }
        key.Others(owner);
        var existing := key.record;
        if existing.Some? {
          assert StateAt(key.log, |key.log|) == existing;
          return Ok(Existing(existing.value));
        }
        attempt := attempt + 1;
      }
      reply := RetriesExceeded;
    }

    method Complete(key: Key, fingerprint: string, owner: string, response: Response, ttl: int)
        returns (reply: Reply<Outcome>)
      requires key.Valid()
      modifies key
      ensures key.Valid() && old(key.log) <= key.log
      ensures reply.Invalid? <==> key.name == "" || fingerprint == "" || owner == "" || ttl <= 0
      ensures match reply
              case Invalid => key.log == old(key.log)
              case RetriesExceeded => Untouched(key.log, |old(key.log)|, owner)
              case Ok(outcome) =>
                exists k :: |old(key.log)| <= k <= |key.log|
                  && CompleteOn(StateAt(key.log, k), fingerprint, owner, response).1 == outcome
                  && (outcome == Done ==> k < |key.log| && key.log[k].cause == Completed(fingerprint, owner, response))
                  && OnlyChange(key.log, |old(key.log)|, if outcome == Done then k else |key.log|, owner)
    {
      if key.name == "" || fingerprint == "" || owner == "" || ttl <= 0 {
        return Invalid;
      }
      ghost var start := |key.log|;
      var attempt := 0;
      while attempt < retries
        invariant key.Valid() && old(key.log) <= key.log && Untouched(key.log, start, owner)
      {
        key.Others(owner);
        var watched := key.version;
        key.Others(owner);
        ghost var seen := |key.log|;
        var record := key.record;
        assert StateAt(key.log, seen) == record;
        key.Others(owner);
        assert StateAt(key.log, seen) == record;
        if record.None? || !record.value.Pending? || record.value.owner != owner
          || record.value.fingerprint != fingerprint {
          return Ok(OwnershipLost);
        }
        ghost var before := |key.log|;
        var ok := key.Exec(watched, Some(IdempotencyRecords.Complete(fingerprint, response)),
          Completed(fingerprint, owner, response));
        if ok {
          assert key.log[before].cause == Completed(fingerprint, owner, response);
          assert StateAt(key.log, before) == record;
          return Ok(Done);
        }
        attempt := attempt + 1;
      }
      reply := RetriesExceeded;
    }

    method Release(key: Key, owner: string) returns (reply: Reply<Outcome>)
      requires key.Valid()
      modifies key
      ensures key.Valid() && old(key.log) <= key.log
      ensures reply.Invalid? <==> key.name == "" || owner == ""
      ensures match reply
              case Invalid => key.log == old(key.log)
              case RetriesExceeded => Untouched(key.log, |old(key.log)|, owner)
              case Ok(outcome) =>
                exists k :: |old(key.log)| <= k <= |key.log|
                  && ReleaseOn(StateAt(key.log, k), owner).1 == outcome
                  && (outcome == Done && StateAt(key.log, k).Some? ==>
                        k < |key.log| && key.log[k].cause == Released(owner))
                  && OnlyChange(key.log, |old(key.log)|,
                                if outcome == Done && StateAt(key.log, k).Some? then k else |key.log|, owner)
    {
      if key.name == "" || owner == "" {
        return Invalid;
      }
      ghost var start := |key.log|;
      var attempt := 0;
      while attempt < retries
        invariant key.Valid() && old(key.log) <= key.log && Untouched(key.log, start, owner)
      {
        key.Others(owner);
        var watched := key.version;
        key.Others(owner);
        ghost var seen := |key.log|;
        var record := key.record;
        assert StateAt(key.log, seen) == record;
        key.Others(owner);
        assert StateAt(key.log, seen) == record;
        if record.None? {
          return Ok(Done);
        }
        if !record.value.Pending? || record.value.owner != owner {
          return Ok(OwnershipLost);
        }
        ghost var before := |key.log|;
        var ok := key.Exec(watched, None, Released(owner));
        if ok {
          assert key.log[before].cause == Released(owner);
          assert StateAt(key.log, before) == record;
          return Ok(Done);
        }
        attempt := attempt + 1;
      }
      reply := RetriesExceeded;
    }
  }
}
