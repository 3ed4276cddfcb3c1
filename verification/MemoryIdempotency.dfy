/**
 * The bounded in-memory idempotency store as a value: entries by key, and the
 * keys in claim order. Each operation is a function on this value.
 */
module MemoryIdempotency {
  import opened Numbers
  import opened Options
  import opened OrderedKeys
  import Records = IdempotencyRecords

  datatype Entry = Entry(fingerprint: string, owner: string, pending: bool, response: Option<Records.Response>,
    expiresAt: int)

  datatype Store = Store(entries: map<string, Entry>, order: seq<string>)

  datatype Reply =
    | ClaimReply(claim: Records.Claim)
    | OutcomeReply(outcome: Records.Outcome)
    | CapacityReached
    | InvalidInput

  datatype Op =
    | Claim(key: string, fingerprint: string, owner: string, ttl: int, now: int)
    | Complete(key: string, fingerprint: string, owner: string, response: Records.Response, ttl: int, now: int)
    | Release(key: string, owner: string)

  ghost predicate Valid(max: nat, s: Store) {
    && max > 0 && |s.entries| <= max
    && Lists(s.order, s.entries.Keys)
    && forall k :: k in s.entries ==> (s.entries[k].pending <==> s.entries[k].response.None?)
  }

  predicate Expired(e: Entry, now: int) {
    now >= e.expiresAt
  }

  function Live(s: Store, now: int): Store {
    var entries := map k | k in s.entries && !Expired(s.entries[k], now) :: s.entries[k];
    Store(entries, Only(s.order, entries.Keys))
  }

  function Drop(s: Store, key: string): Store {
    Store(s.entries - {key}, Only(s.order, s.entries.Keys - {key}))
  }

  predicate IsComplete(s: Store, key: string) {
    key in s.entries && !s.entries[key].pending
  }

  /** The first completed key in claim order. */
  function FirstComplete(s: Store): (k: Option<string>)
    ensures k.Some? ==> IsComplete(s, k.value) && k.value in s.order
    decreases |s.order|
  {
    if s.order == [] then None
    else if IsComplete(s, s.order[0]) then Some(s.order[0])
    else FirstComplete(s.(order := s.order[1..]))
  }

  lemma {:induction false} NoneComplete(s: Store, key: string)
    requires FirstComplete(s).None? && key in s.order
    ensures !IsComplete(s, key)
    decreases |s.order|
  {
    if key != s.order[0] {
      NoneComplete(s.(order := s.order[1..]), key);
    }
  }

  /** The record a stored entry stands for. */
  function RecordOf(e: Entry): Records.Record {
    match e.response
    case None => Records.Pending(e.fingerprint, e.owner)
    case Some(r) => Records.Complete(e.fingerprint, r)
  }

  function Abs(s: Store, key: string): Option<Records.Record> {
    if key in s.entries then Some(RecordOf(s.entries[key])) else None
  }

  function ClaimAnswer(e: Entry): Records.Claim {
    Records.Claim(false, e.pending, e.fingerprint, e.response)
  }

  function Insert(s: Store, key: string, e: Entry): Store {
    Store(s.entries[key := e], s.order + [key])
  }

  predicate ValidInput(key: string, fingerprint: string, owner: string, ttl: int) {
    key != "" && fingerprint != "" && owner != "" && ttl > 0
  }

  /** A claim on a store without expired entries. */
  function ClaimLive(max: nat, live: Store, key: string, entry: Entry): (Store, Reply)
  {
    var acquired := ClaimReply(Records.Claim(true, true, entry.fingerprint, None));
    if key in live.entries then (live, ClaimReply(ClaimAnswer(live.entries[key])))
    else if |live.entries| < max then (Insert(live, key, entry), acquired)
    else
      match FirstComplete(live)
      case None => (live, CapacityReached)
      case Some(victim) => (Insert(Drop(live, victim), key, entry), acquired)
  }

  function CompleteStep(s: Store, key: string, fingerprint: string, owner: string, response: Records.Response,
                        deadline: int): (Store, Records.Outcome)
  {
    if key in s.entries && s.entries[key].pending && s.entries[key].owner == owner
      && s.entries[key].fingerprint == fingerprint then
      (Store(s.entries[key := Entry(fingerprint, owner, false, Some(response), deadline)], s.order), Records.Done)
    else (s, Records.OwnershipLost)
  }

  function ReleaseStep(s: Store, key: string, owner: string): (Store, Records.Outcome) {
    if key !in s.entries then (s, Records.Done)
    else if !s.entries[key].pending || s.entries[key].owner != owner then (s, Records.OwnershipLost)
    else (Drop(s, key), Records.Done)
  }

  function Apply(max: nat, s: Store, op: Op): (Store, Reply)
  {
    match op
    case Claim(key, fingerprint, owner, ttl, now) =>
      if !ValidInput(key, fingerprint, owner, ttl) then (s, InvalidInput)
      else ClaimLive(max, Live(s, now), key, Entry(fingerprint, owner, true, None, now + ttl))
    case Complete(key, fingerprint, owner, response, ttl, now) =>
      if !ValidInput(key, fingerprint, owner, ttl) then (s, InvalidInput)
      else
        var (s', outcome) := CompleteStep(s, key, fingerprint, owner, response, now + ttl);
        (s', OutcomeReply(outcome))
    case Release(key, owner) =>
      if key == "" || owner == "" then (s, InvalidInput)
      else
        var (s', outcome) := ReleaseStep(s, key, owner);
        (s', OutcomeReply(outcome))
  }

  /** The store when the expired among some keys are gone. */
  function Sweep(s: Store, done: set<string>, now: int): Store {
    var entries := map k | k in s.entries && !(k in done && Expired(s.entries[k], now)) :: s.entries[k];
    Store(entries, Only(s.order, entries.Keys))
  }

  lemma SweepEnds(max: nat, s: Store, done: set<string>, now: int)
    requires Valid(max, s)
    ensures Sweep(s, {}, now) == s
    ensures s.entries.Keys <= done ==> Sweep(s, done, now) == Live(s, now)
  {
    assert Sweep(s, {}, now).entries == s.entries;
    OnlyListed(s.order, s.entries.Keys);
    if s.entries.Keys <= done {
      assert Sweep(s, done, now).entries == Live(s, now).entries;
    }
  }

  lemma SweepStep(s: Store, done: set<string>, now: int, key: string)
    requires key in s.entries && key in Sweep(s, done, now).entries
    ensures Sweep(s, done + {key}, now) ==
              if Expired(s.entries[key], now) then Drop(Sweep(s, done, now), key) else Sweep(s, done, now)
  {
    var a, b := Sweep(s, done, now), Sweep(s, done + {key}, now);
    if Expired(s.entries[key], now) {
      assert b.entries == a.entries - {key};
      OnlyTwice(s.order, a.entries.Keys, b.entries.Keys);
      assert b.entries.Keys == a.entries.Keys - {key};
    } else {
      assert b.entries == a.entries;
    }
  }

  // ---- what every operation keeps ----------------------------------------------

  lemma LiveValid(max: nat, s: Store, now: int)
    requires Valid(max, s)
    ensures Valid(max, Live(s, now))
  {
    var live := Live(s, now);
    SubsetSize(live.entries.Keys, s.entries.Keys);
    OnlyLists(s.order, s.entries.Keys, live.entries.Keys);
  }

  lemma DropValid(max: nat, s: Store, key: string)
    requires Valid(max, s) && key in s.entries
    ensures Valid(max, Drop(s, key)) && |Drop(s, key).entries| == |s.entries| - 1
  {
    assert Drop(s, key).entries.Keys == s.entries.Keys - {key};
    OnlyLists(s.order, s.entries.Keys, s.entries.Keys - {key});
  }

  lemma InsertValid(max: nat, s: Store, key: string, e: Entry)
    requires Valid(max, s) && key !in s.entries && |s.entries| < max && (e.pending <==> e.response.None?)
    ensures Valid(max, Insert(s, key, e))
  {
    var s' := Insert(s, key, e);
    assert s'.entries.Keys == s.entries.Keys + {key};
  }

  lemma ClaimLiveValid(max: nat, live: Store, key: string, entry: Entry)
    requires Valid(max, live) && entry.pending && entry.response.None?
    ensures Valid(max, ClaimLive(max, live, key, entry).0)
  {
    if key !in live.entries {
      if |live.entries| < max {
        InsertValid(max, live, key, entry);
      } else if FirstComplete(live).Some? {
        var victim := FirstComplete(live).value;
        DropValid(max, live, victim);
        InsertValid(max, Drop(live, victim), key, entry);
      }
    }
  }

  lemma CompleteValid(max: nat, s: Store, key: string, fingerprint: string, owner: string,
      response: Records.Response, deadline: int)
    requires Valid(max, s)
    ensures Valid(max, CompleteStep(s, key, fingerprint, owner, response, deadline).0)
  {
    var s' := CompleteStep(s, key, fingerprint, owner, response, deadline).0;
    assert s'.entries.Keys == s.entries.Keys;
  }

  lemma ClaimValid(max: nat, s: Store, key: string, entry: Entry, now: int)
    requires Valid(max, s) && entry.pending && entry.response.None?
    ensures Valid(max, ClaimLive(max, Live(s, now), key, entry).0)
  {
    LiveValid(max, s, now);
    ClaimLiveValid(max, Live(s, now), key, entry);
  }

  lemma ReleaseValid(max: nat, s: Store, key: string, owner: string)
    requires Valid(max, s)
    ensures Valid(max, ReleaseStep(s, key, owner).0)
  {
    if key in s.entries {
      DropValid(max, s, key);
    }
  }

  /** Map and list stay in bijection and within capacity, whatever is called. */
  lemma ApplyValid(max: nat, s: Store, op: Op)
    requires Valid(max, s)
    ensures Valid(max, Apply(max, s, op).0)
  {
    if op.Claim? {
      ClaimValid(max, s, op.key, Entry(op.fingerprint, op.owner, true, None, op.now + op.ttl), op.now);
    } else if op.Complete? {
      CompleteValid(max, s, op.key, op.fingerprint, op.owner, op.response, op.now + op.ttl);
    } else {
      ReleaseValid(max, s, op.key, op.owner);
    }
  }

  // ---- refinement of the atomic record -----------------------------------------

  /** Every reply is the atomic record's, on a record that may have vanished at its deadline. */
  lemma RefinesRecord(max: nat, s: Store, op: Op)
    requires Valid(max, s)
    ensures var (s', reply) := Apply(max, s, op);
            match op
            case Claim(key, f, o, ttl, now) =>
              reply.ClaimReply? ==> (Abs(s', key), reply.claim) == Records.ClaimOn(Abs(Live(s, now), key), f, o)
            case Complete(key, f, o, response, ttl, now) =>
              reply.OutcomeReply? ==> (Abs(s', key), reply.outcome) == Records.CompleteOn(Abs(s, key), f, o, response)
            case Release(key, o) =>
              reply.OutcomeReply? ==> (Abs(s', key), reply.outcome) == Records.ReleaseOn(Abs(s, key), o)
  {
    if op.Claim? {
      LiveValid(max, s, op.now);
      ClaimLiveRefines(max, Live(s, op.now), op.key, Entry(op.fingerprint, op.owner, true, None, op.now + op.ttl));
    }
  }

  lemma ClaimLiveRefines(max: nat, live: Store, key: string, entry: Entry)
    requires Valid(max, live) && entry.pending && entry.response.None?
    ensures var (s', reply) := ClaimLive(max, live, key, entry);
            reply.ClaimReply? ==>
              (Abs(s', key), reply.claim) == Records.ClaimOn(Abs(live, key), entry.fingerprint, entry.owner)
  {
  }

  /** Other keys are left alone, except that a claim drops what has expired and may evict one completed entry. */
  lemma OtherKeysStay(max: nat, s: Store, op: Op, k: string)
    requires Valid(max, s) && k in s.entries && k != op.key
    ensures var s' := Apply(max, s, op).0;
            if k in s'.entries then s'.entries[k] == s.entries[k]
            else op.Claim? && (Expired(s.entries[k], op.now) || FirstComplete(Live(s, op.now)) == Some(k))
  {
    if op.Claim? {
      LiveValid(max, s, op.now);
      if k in Live(s, op.now).entries {
        ClaimLiveKeeps(max, Live(s, op.now), op.key, Entry(op.fingerprint, op.owner, true, None, op.now + op.ttl), k);
      }
    }
  }

  /** A claim is refused for lack of room only when every one of max live entries is pending. */
  lemma RefusedOnlyWhenFull(max: nat, s: Store, op: Op)
    requires Valid(max, s)
    ensures Apply(max, s, op).1 == CapacityReached <==>
              && op.Claim? && ValidInput(op.key, op.fingerprint, op.owner, op.ttl)
              && op.key !in Live(s, op.now).entries && |Live(s, op.now).entries| == max
              && forall k :: k in Live(s, op.now).entries ==> Live(s, op.now).entries[k].pending
  {
    if op.Claim? {
      var live := Live(s, op.now);
      LiveValid(max, s, op.now);
      if FirstComplete(live).None? {
        forall k | k in live.entries ensures live.entries[k].pending {
          ListsMember(live.order, live.entries.Keys, k);
          NoneComplete(live, k);
        }
      }
    }
  }

  /** op could only end the pending claim at key if it is the owner's, or comes at or after the deadline. */
  ghost predicate Spares(op: Op, key: string, e: Entry) {
    match op
    case Claim(_, _, _, _, now) => !Expired(e, now)
    case Complete(k, _, o, _, _, _) => k != key || o != e.owner
    case Release(k, o) => k != key || o != e.owner
  }

  lemma ClaimLiveKeeps(max: nat, live: Store, key: string, entry: Entry, k: string)
    requires Valid(max, live) && k in live.entries
    ensures var s' := ClaimLive(max, live, key, entry).0;
            if k in s'.entries then s'.entries[k] == live.entries[k]
            else |live.entries| == max && FirstComplete(live) == Some(k)
  {
  }

  lemma PendingSurvivesOne(max: nat, s: Store, op: Op, key: string)
    requires Valid(max, s) && key in s.entries && s.entries[key].pending && Spares(op, key, s.entries[key])
    ensures key in Apply(max, s, op).0.entries && Apply(max, s, op).0.entries[key] == s.entries[key]
  {
    if op.Claim? {
      LiveValid(max, s, op.now);
      ClaimLiveKeeps(max, Live(s, op.now), op.key, Entry(op.fingerprint, op.owner, true, None, op.now + op.ttl), key);
    }
  }

  function Run(max: nat, s: Store, ops: seq<Op>): Store
    requires Valid(max, s)
    decreases |ops|
  {
    if ops == [] then s
    else
      ApplyValid(max, s, ops[0]);
      Run(max, Apply(max, s, ops[0]).0, ops[1..])
  }

  /** Over any run, a pending claim stays exactly as it is until its owner acts or its deadline comes. */
  lemma {:induction false} PendingSurvives(max: nat, s: Store, ops: seq<Op>, key: string)
    requires Valid(max, s) && key in s.entries && s.entries[key].pending
    requires forall i :: 0 <= i < |ops| ==> Spares(ops[i], key, s.entries[key])
    ensures key in Run(max, s, ops).entries && Run(max, s, ops).entries[key] == s.entries[key]
    ensures Valid(max, Run(max, s, ops))
    decreases |ops|
  {
    if ops != [] {
      PendingSurvivesOne(max, s, ops[0], key);
      ApplyValid(max, s, ops[0]);
      assert forall i :: 0 <= i < |ops| - 1 ==> ops[1..][i] == ops[i + 1];
      PendingSurvives(max, Apply(max, s, ops[0]).0, ops[1..], key);
    }
  }

  /** A completed entry changes only by expiring, or by eviction to make room in a full store, the oldest first. */
  lemma CompletedChange(max: nat, s: Store, op: Op, key: string)
    requires Valid(max, s) && key in s.entries && !s.entries[key].pending
    ensures var s' := Apply(max, s, op).0;
            key !in s'.entries || s'.entries[key] != s.entries[key] ==>
              && op.Claim?
              && (Expired(s.entries[key], op.now)
                  || (|Live(s, op.now).entries| == max && FirstComplete(Live(s, op.now)) == Some(key)))
  {
    if op.Claim? {
      LiveValid(max, s, op.now);
      if !Expired(s.entries[key], op.now) {
        ClaimLiveKeeps(max, Live(s, op.now), op.key, Entry(op.fingerprint, op.owner, true, None, op.now + op.ttl), key);
      }
    }
  }
}
