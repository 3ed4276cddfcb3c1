/**
 * How long the in-memory store remembers. An entry is known by its owner, who
 * claims a key once; it stays until a claim comes at or after its deadline, or,
 * once completed, until it is the oldest completed entry of a full store.
 */
module IdempotencyDeadlines {
  import opened Options
  import opened OrderedKeys
  import opened MemoryIdempotency
  import Records = IdempotencyRecords

  ghost predicate HeldBy(s: Store, key: string, owner: string) {
    key in s.entries && s.entries[key].owner == owner
  }

  /** A claim at t would find the owner's entry. */
  ghost predicate FoundAt(s: Store, key: string, owner: string, t: int) {
    HeldBy(s, key, owner) && t < s.entries[key].expiresAt
  }

  predicate Accepted(op: Op) {
    op.Claim? && ValidInput(op.key, op.fingerprint, op.owner, op.ttl)
  }

  /** The owner claims the key again, which unique owners never do. */
  predicate Reclaims(op: Op, key: string, owner: string) {
    op.Claim? && op.key == key && op.owner == owner
  }

  /** The owner completes or releases. */
  predicate Acts(op: Op, key: string, owner: string) {
    !op.Claim? && op.key == key && op.owner == owner
  }

  /** No claim has come at or after the deadline. */
  predicate AllBefore(ops: seq<Op>, deadline: int) {
    forall i :: 0 <= i < |ops| && Accepted(ops[i]) ==> ops[i].now < deadline
  }

  /** The claim makes room by dropping this key. */
  ghost predicate Evicts(max: nat, s: Store, op: Op, key: string) {
    && Accepted(op) && op.key !in Live(s, op.now).entries && |Live(s, op.now).entries| >= max
    && FirstComplete(Live(s, op.now)) == Some(key)
  }

  ghost predicate EvictedIn(max: nat, s: Store, ops: seq<Op>, key: string)
    decreases |ops|
  {
    ops != [] && (Evicts(max, s, ops[0], key) || EvictedIn(max, Apply(max, s, ops[0]).0, ops[1..], key))
  }

  lemma StaysOne(max: nat, s: Store, op: Op, key: string, e: Entry)
    requires Valid(max, s) && key in s.entries && s.entries[key] == e
    requires !Reclaims(op, key, e.owner) && (e.pending ==> !Acts(op, key, e.owner))
    ensures var s' := Apply(max, s, op).0;
            if (Accepted(op) && op.now >= e.expiresAt) || Evicts(max, s, op, key) then !HeldBy(s', key, e.owner)
            else key in s'.entries && s'.entries[key] == e
  {
    if Accepted(op) {
      LiveValid(max, s, op.now);
      ClaimStays(max, Live(s, op.now), op.key, Entry(op.fingerprint, op.owner, true, None, op.now + op.ttl), key, e);
    }
  }

  lemma ClaimStays(max: nat, live: Store, claimed: string, entry: Entry, key: string, e: Entry)
    requires Valid(max, live) && (key in live.entries ==> live.entries[key] == e)
    requires claimed != key || entry.owner != e.owner
    ensures var s' := ClaimLive(max, live, claimed, entry).0;
            if key !in live.entries || (claimed !in live.entries && |live.entries| >= max
                                        && FirstComplete(live) == Some(key))
            then !HeldBy(s', key, e.owner)
            else key in s'.entries && s'.entries[key] == e
  {
  }

  lemma GoneOne(max: nat, s: Store, op: Op, key: string, owner: string)
    requires Valid(max, s) && !HeldBy(s, key, owner) && !Reclaims(op, key, owner)
    ensures !HeldBy(Apply(max, s, op).0, key, owner)
  {
    if op.Claim? {
      LiveValid(max, s, op.now);
      ClaimGone(max, Live(s, op.now), op.key, Entry(op.fingerprint, op.owner, true, None, op.now + op.ttl), key, owner);
    }
  }

  lemma ClaimGone(max: nat, live: Store, claimed: string, entry: Entry, key: string, owner: string)
    requires Valid(max, live) && !HeldBy(live, key, owner) && (claimed != key || entry.owner != owner)
    ensures !HeldBy(ClaimLive(max, live, claimed, entry).0, key, owner)
  {
  }

  lemma {:induction false} Gone(max: nat, s: Store, ops: seq<Op>, key: string, owner: string)
    requires Valid(max, s) && !HeldBy(s, key, owner)
    requires forall i :: 0 <= i < |ops| ==> !Reclaims(ops[i], key, owner)
    ensures !HeldBy(Run(max, s, ops), key, owner)
    decreases |ops|
  {
    if ops != [] {
      GoneOne(max, s, ops[0], key, owner);
      ApplyValid(max, s, ops[0]);
      Gone(max, Apply(max, s, ops[0]).0, ops[1..], key, owner);
    }
  }

  /** Over any run the entry stays as it is, exactly as long as no claim comes too late for it and none evicts it. */
  lemma {:induction false} StaysExactly(max: nat, s: Store, ops: seq<Op>, key: string, e: Entry)
    requires Valid(max, s) && key in s.entries && s.entries[key] == e
    requires forall i :: 0 <= i < |ops| ==> !Reclaims(ops[i], key, e.owner)
    requires forall i :: 0 <= i < |ops| ==> e.pending ==> !Acts(ops[i], key, e.owner)
    ensures HeldBy(Run(max, s, ops), key, e.owner) <==>
              AllBefore(ops, e.expiresAt) && !EvictedIn(max, s, ops, key)
    ensures HeldBy(Run(max, s, ops), key, e.owner) ==> Run(max, s, ops).entries[key] == e
    ensures Valid(max, Run(max, s, ops))
    decreases |ops|
  {
    if ops != [] {
      StaysOne(max, s, ops[0], key, e);
      ApplyValid(max, s, ops[0]);
      var s' := Apply(max, s, ops[0]).0;
      AllBeforeSplit(ops, e.expiresAt);
      if HeldBy(s', key, e.owner) {
        StaysExactly(max, s', ops[1..], key, e);
      } else {
        Gone(max, s', ops[1..], key, e.owner);
        RunValid(max, s', ops[1..]);
      }
    }
  }

  lemma AllBeforeSplit(ops: seq<Op>, deadline: int)
    requires ops != []
    ensures AllBefore(ops, deadline) <==> (Accepted(ops[0]) ==> ops[0].now < deadline) && AllBefore(ops[1..], deadline)
  {
    assert forall i :: 0 <= i < |ops| - 1 ==> ops[1..][i] == ops[i + 1];
    assert forall i :: 0 < i < |ops| ==> ops[i] == ops[1..][i - 1];
  }

  lemma {:induction false} RunValid(max: nat, s: Store, ops: seq<Op>)
    requires Valid(max, s)
    ensures Valid(max, Run(max, s, ops))
    decreases |ops|
  {
    if ops != [] {
      ApplyValid(max, s, ops[0]);
      RunValid(max, Apply(max, s, ops[0]).0, ops[1..]);
    }
  }

  /** Pending entries are never evicted. */
  lemma {:induction false} PendingStays(max: nat, s: Store, ops: seq<Op>, key: string, e: Entry)
    requires Valid(max, s) && key in s.entries && s.entries[key] == e && e.pending
    requires forall i :: 0 <= i < |ops| ==> !Reclaims(ops[i], key, e.owner) && !Acts(ops[i], key, e.owner)
    requires AllBefore(ops, e.expiresAt)
    ensures !EvictedIn(max, s, ops, key)
    decreases |ops|
  {
    if ops != [] {
      StaysOne(max, s, ops[0], key, e);
      ApplyValid(max, s, ops[0]);
      AllBeforeSplit(ops, e.expiresAt);
      PendingStays(max, Apply(max, s, ops[0]).0, ops[1..], key, e);
    }
  }

  lemma ClaimFinds(max: nat, s: Store, key: string, e: Entry, f: string, o: string, ttl: int, t: int)
    requires Valid(max, s) && key in s.entries && s.entries[key] == e && t < e.expiresAt && ValidInput(key, f, o, ttl)
    ensures Apply(max, s, Claim(key, f, o, ttl, t)).1 == ClaimReply(ClaimAnswer(e))
  {
  }

  // ---- the two deadlines ------------------------------------------------------------------

  predicate Acquires(max: nat, s: Store, claim: Op) {
    claim.Claim? && Apply(max, s, claim).1.ClaimReply? && Apply(max, s, claim).1.claim.acquired
  }

  lemma AcquiredEntry(max: nat, s: Store, claim: Op)
    requires Valid(max, s) && Acquires(max, s, claim)
    ensures var s' := Apply(max, s, claim).0;
            && claim.key in s'.entries
            && s'.entries[claim.key]
               == Entry(claim.fingerprint, claim.owner, true, None, claim.now + claim.ttl)
  {
  }

  /**
   * A claim acquired at `now` is found by a claim at t, whatever happens in between without its owner,
   * exactly when t and all claims before it are less than ttl after now. In time order, exactly when t is.
   */
  lemma ClaimLasts(max: nat, s: Store, claim: Op, ops: seq<Op>, t: int)
    requires Valid(max, s) && Acquires(max, s, claim)
    requires forall i :: 0 <= i < |ops| ==>
      !Reclaims(ops[i], claim.key, claim.owner) && !Acts(ops[i], claim.key, claim.owner)
    ensures Valid(max, Apply(max, s, claim).0)
    ensures var after, deadline := Run(max, Apply(max, s, claim).0, ops), claim.now + claim.ttl;
            && (FoundAt(after, claim.key, claim.owner, t) <==> t < deadline && AllBefore(ops, deadline))
            && (AllBefore(ops, t + 1) ==> (FoundAt(after, claim.key, claim.owner, t) <==> t < deadline))
            && (FoundAt(after, claim.key, claim.owner, t) ==>
                  forall f, o, ttl :: ValidInput(claim.key, f, o, ttl) ==>
                    Apply(max, after, Claim(claim.key, f, o, ttl, t)).1
                      == ClaimReply(Records.Claim(false, true, claim.fingerprint, None)))
  {
    ApplyValid(max, s, claim);
    AcquiredEntry(max, s, claim);
    var s' := Apply(max, s, claim).0;
    var e := s'.entries[claim.key];
    StaysExactly(max, s', ops, claim.key, e);
    if AllBefore(ops, e.expiresAt) {
      PendingStays(max, s', ops, claim.key, e);
    }
    var after := Run(max, s', ops);
    forall f, o, ttl | FoundAt(after, claim.key, claim.owner, t) && ValidInput(claim.key, f, o, ttl)
      ensures Apply(max, after, Claim(claim.key, f, o, ttl, t)).1
                == ClaimReply(Records.Claim(false, true, claim.fingerprint, None))
    {
      ClaimFinds(max, after, claim.key, e, f, o, ttl, t);
    }
  }

  /** From the deadline on the key is free, unless it was claimed since: a claim gets it or finds no room. */
  lemma FreeAfterwards(max: nat, s: Store, key: string, f: string, o: string, ttl: int, t: int)
    requires Valid(max, s) && ValidInput(key, f, o, ttl)
    requires key in s.entries ==> t >= s.entries[key].expiresAt
    ensures var reply := Apply(max, s, Claim(key, f, o, ttl, t)).1;
            reply == CapacityReached || Acquires(max, s, Claim(key, f, o, ttl, t))
  {
  }

  predicate Completes(max: nat, s: Store, op: Op) {
    op.Complete? && Apply(max, s, op).1 == OutcomeReply(Records.Done)
  }

  /**
   * A response stored at `now` answers a claim at t, whatever happens in between, exactly when t and
   * all claims before it are less than ttl after now and none of them has evicted it.
   */
  lemma ResponseLasts(max: nat, s: Store, op: Op, ops: seq<Op>, t: int)
    requires Valid(max, s) && Completes(max, s, op)
    requires forall i :: 0 <= i < |ops| ==> !Reclaims(ops[i], op.key, op.owner)
    ensures Valid(max, Apply(max, s, op).0)
    ensures var s', deadline := Apply(max, s, op).0, op.now + op.ttl;
            var after := Run(max, s', ops);
            && (FoundAt(after, op.key, op.owner, t) <==>
                  t < deadline && AllBefore(ops, deadline) && !EvictedIn(max, s', ops, op.key))
            && (FoundAt(after, op.key, op.owner, t) ==>
                  forall f, o, ttl :: ValidInput(op.key, f, o, ttl) ==>
                    Apply(max, after, Claim(op.key, f, o, ttl, t)).1
                      == ClaimReply(Records.Claim(false, false, op.fingerprint, Some(op.response))))
  {
    ApplyValid(max, s, op);
    var s' := Apply(max, s, op).0;
    var e := s'.entries[op.key];
    assert e == Entry(op.fingerprint, op.owner, false, Some(op.response), op.now + op.ttl);
    StaysExactly(max, s', ops, op.key, e);
    var after := Run(max, s', ops);
    forall f, o, ttl | FoundAt(after, op.key, op.owner, t) && ValidInput(op.key, f, o, ttl)
      ensures Apply(max, after, Claim(op.key, f, o, ttl, t)).1
                == ClaimReply(Records.Claim(false, false, op.fingerprint, Some(op.response)))
    {
      ClaimFinds(max, after, op.key, e, f, o, ttl, t);
    }
  }

  // ---- who is evicted ---------------------------------------------------------------------

  ghost predicate Before(order: seq<string>, a: string, b: string) {
    exists i: nat :: StandsBefore(order, a, b, i)
  }

  ghost predicate StandsBefore(order: seq<string>, a: string, b: string, i: nat) {
    i < |order| && order[i] == a && b in order[i + 1..]
  }

  lemma {:induction false} OnlyMembers(s: seq<string>, keep: set<string>, k: string)
    ensures k in Only(s, keep) <==> k in s && k in keep
  {
    if s != [] {
      OnlyMembers(s[1..], keep, k);
      assert s == [s[0]] + s[1..];
    }
  }

  lemma OnlyBefore(s: seq<string>, keep: set<string>, a: string, b: string)
    requires Before(s, a, b) && a in keep && b in keep
    ensures Before(Only(s, keep), a, b)
  {
    var i: nat :| StandsBefore(s, a, b, i);
    var rest := s[i + 1..];
    assert s == s[..i] + ([a] + rest) && ([a] + rest)[1..] == rest;
    OnlyConcat(s[..i], [a] + rest, keep);
    OnlyMembers(rest, keep, b);
    var all, k := Only(s, keep), |Only(s[..i], keep)|;
    assert all == Only(s[..i], keep) + ([a] + Only(rest, keep));
    assert all[k + 1..] == Only(rest, keep);
    assert StandsBefore(all, a, b, k);
  }

  lemma AppendBefore(s: seq<string>, a: string, b: string, key: string)
    ensures Before(s, a, b) ==> Before(s + [key], a, b)
    ensures a in s ==> Before(s + [key], a, key)
  {
    if i: nat :| StandsBefore(s, a, b, i) {
      assert (s + [key])[i + 1..] == s[i + 1..] + [key];
      assert StandsBefore(s + [key], a, b, i);
    }
    if a in s {
      var i: nat :| i < |s| && s[i] == a;
      assert (s + [key])[i + 1..] == s[i + 1..] + [key];
      assert StandsBefore(s + [key], a, key, i);
    }
  }

  /** Two entries that an operation leaves in the store keep their order. */
  lemma OrderKept(max: nat, s: Store, op: Op, a: string, oa: string, b: string, ob: string)
    requires Valid(max, s) && HeldBy(s, a, oa) && HeldBy(s, b, ob) && Before(s.order, a, b)
    requires !Reclaims(op, a, oa) && !Reclaims(op, b, ob)
    requires HeldBy(Apply(max, s, op).0, a, oa) && HeldBy(Apply(max, s, op).0, b, ob)
    ensures Before(Apply(max, s, op).0.order, a, b)
  {
    if Accepted(op) {
      var live := Live(s, op.now);
      LiveValid(max, s, op.now);
      OnlyBefore(s.order, live.entries.Keys, a, b);
      ClaimKeepsOrder(max, live, op.key, Entry(op.fingerprint, op.owner, true, None, op.now + op.ttl), a, b);
    } else if op.Release? && op.key != a && op.key != b {
      OnlyBefore(s.order, s.entries.Keys - {op.key}, a, b);
    }
  }

  lemma ClaimKeepsOrder(max: nat, live: Store, key: string, entry: Entry, a: string, b: string)
    requires Valid(max, live) && Before(live.order, a, b)
    requires var s' := ClaimLive(max, live, key, entry).0;
             a in s'.entries && b in s'.entries && (key in live.entries || (a != key && b != key))
    ensures Before(ClaimLive(max, live, key, entry).0.order, a, b)
  {
    if key !in live.entries {
      if |live.entries| < max {
        AppendBefore(live.order, a, b, key);
      } else if FirstComplete(live).Some? {
        var kept := live.entries.Keys - {FirstComplete(live).value};
        OnlyBefore(live.order, kept, a, b);
        AppendBefore(Only(live.order, kept), a, b, key);
      }
    }
  }

  /** A new entry stands behind all others. */
  lemma NewestLast(max: nat, s: Store, claim: Op, a: string)
    requires Valid(max, s) && Acquires(max, s, claim) && a != claim.key && a in Apply(max, s, claim).0.entries
    ensures Before(Apply(max, s, claim).0.order, a, claim.key)
  {
    var live, s' := Live(s, claim.now), Apply(max, s, claim).0;
    LiveValid(max, s, claim.now);
    ApplyValid(max, s, claim);
    ListsMember(s'.order, s'.entries.Keys, a);
    var n := |s'.order| - 1;
    assert s'.order[n] == claim.key;
    assert s'.order == s'.order[..n] + [claim.key];
    AppendBefore(s'.order[..n], a, a, claim.key);
  }

  /** Nothing completed stands before the first completed entry. */
  lemma {:induction false} FirstIsFirst(s: Store, a: string, b: string, i: nat)
    requires StandsBefore(s.order, a, b, i) && FirstComplete(s) == Some(b)
    requires forall j, k :: 0 <= j < k < |s.order| ==> s.order[j] != s.order[k]
    ensures !IsComplete(s, a)
    decreases i
  {
    var k :| i < k < |s.order| && s.order[k] == b;
    if i > 0 && !IsComplete(s, s.order[0]) {
      assert s.order[1..][i..] == s.order[i + 1..];
      FirstIsFirst(s.(order := s.order[1..]), a, b, i - 1);
    }
  }

  lemma ListedOnce(s: seq<string>, keys: set<string>)
    requires Lists(s, keys)
    ensures forall j, k :: 0 <= j < k < |s| ==> s[j] != s[k]
  {
    forall j, k | 0 <= j < k < |s| ensures s[j] != s[k] {
      assert s == s[..j] + [s[j]] + s[j + 1..k] + [s[k]] + s[k + 1..];
      assert s[j] == s[k] ==> multiset(s)[s[j]] >= 2;
    }
  }

  lemma {:induction false} OrderKeptInRun(max: nat, s: Store, ops: seq<Op>, a: string, oa: string,
                                          b: string, ob: string)
    requires Valid(max, s) && HeldBy(s, a, oa) && HeldBy(s, b, ob) && Before(s.order, a, b)
    requires forall i :: 0 <= i < |ops| ==> !Reclaims(ops[i], a, oa) && !Reclaims(ops[i], b, ob)
    requires HeldBy(Run(max, s, ops), a, oa) && HeldBy(Run(max, s, ops), b, ob)
    ensures Before(Run(max, s, ops).order, a, b)
    decreases |ops|
  {
    if ops != [] {
      ApplyValid(max, s, ops[0]);
      var s' := Apply(max, s, ops[0]).0;
      if !HeldBy(s', a, oa) {
        Gone(max, s', ops[1..], a, oa);
      } else if !HeldBy(s', b, ob) {
        Gone(max, s', ops[1..], b, ob);
      } else {
        OrderKept(max, s, ops[0], a, oa, b, ob);
        OrderKeptInRun(max, s', ops[1..], a, oa, b, ob);
      }
    }
  }

  /** An entry is evicted only when every older entry is pending still, or out of time. */
  lemma EvictedInClaimOrder(max: nat, s: Store, claim: Op, ops: seq<Op>, op: Op, a: string, oa: string)
    requires Valid(max, s) && Acquires(max, s, claim) && a != claim.key && HeldBy(Apply(max, s, claim).0, a, oa)
    requires forall i :: 0 <= i < |ops| ==>
      !Reclaims(ops[i], a, oa) && !Reclaims(ops[i], claim.key, claim.owner)
    requires Valid(max, Apply(max, s, claim).0)
    requires var s' := Run(max, Apply(max, s, claim).0, ops);
             HeldBy(s', a, oa) && HeldBy(s', claim.key, claim.owner) && Evicts(max, s', op, claim.key)
    ensures var s' := Run(max, Apply(max, s, claim).0, ops);
            s'.entries[a].pending || Expired(s'.entries[a], op.now)
  {
    var s1, b := Apply(max, s, claim).0, claim.key;
    AcquiredEntry(max, s, claim);
    NewestLast(max, s, claim, a);
    OrderKeptInRun(max, s1, ops, a, oa, b, claim.owner);
    RunValid(max, s1, ops);
    var s' := Run(max, s1, ops);
    var live := Live(s', op.now);
    LiveValid(max, s', op.now);
    if a in live.entries {
      OnlyBefore(s'.order, live.entries.Keys, a, b);
      var i: nat :| StandsBefore(live.order, a, b, i);
      ListedOnce(live.order, live.entries.Keys);
      FirstIsFirst(live, a, b, i);
    }
  }
}
