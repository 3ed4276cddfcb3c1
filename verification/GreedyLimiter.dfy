/**
 * The other half of the limiter's promise: in time order, a request is refused
 * only if admitting it would break the promise for some window that ends with it.
 */
module GreedyLimiter {
  import opened Options
  import opened TokenBucket
  import opened RateLimiterRuns

  /** With one request more, more than a full bucket and what refills would be admitted from s to t. */
  ghost predicate Overdraws(cfg: Config, past: seq<Event>, ds: seq<bool>, client: string, s: real, t: real)
    requires |ds| == |past|
  {
    s <= t && Admitted(past, ds, client, s, t) as real + 1.0 > cfg.capacity + Gain(cfg, t - s)
  }

  /** The decision on request i is the greedy one: admitted exactly when no window that ends with it is overdrawn. */
  ghost predicate GreedyAt(cfg: Config, events: seq<Event>, ds: seq<bool>, i: nat)
    requires i < |events| == |ds|
  {
    ds[i] <==> forall s: real :: !Overdraws(cfg, events[..i], ds[..i], events[i].client, s, events[i].at)
  }

  ghost predicate Greedy(cfg: Config, events: seq<Event>, ds: seq<bool>) {
    |ds| == |events| && forall i :: 0 <= i < |events| ==> GreedyAt(cfg, events, ds, i)
  }

  /** There is one way to decide greedily. */
  lemma {:induction false} GreedyIsUnique(cfg: Config, events: seq<Event>, a: seq<bool>, b: seq<bool>, i: nat)
    requires Greedy(cfg, events, a) && Greedy(cfg, events, b) && i <= |events|
    ensures a[..i] == b[..i]
  {
    if i > 0 {
      GreedyIsUnique(cfg, events, a, b, i - 1);
      assert GreedyAt(cfg, events, a, i - 1) && GreedyAt(cfg, events, b, i - 1);
      assert a[..i] == a[..i - 1] + [a[i - 1]] && b[..i] == b[..i - 1] + [b[i - 1]];
    }
  }

  // ---- a bucket accounts for the past ------------------------------------------------------

  /** Since s, when it was full, the bucket has gained what refills and lost what was admitted. */
  ghost predicate Accounts(cfg: Config, b: Bucket, past: seq<Event>, ds: seq<bool>, client: string, s: real)
    requires |ds| == |past|
  {
    && s <= b.lastUpdate
    && b.tokens == cfg.capacity + Gain(cfg, b.lastUpdate - s) - Admitted(past, ds, client, s, b.lastUpdate) as real
  }

  ghost predicate Accounted(cfg: Config, b: Bucket, past: seq<Event>, ds: seq<bool>, client: string)
    requires |ds| == |past|
  {
    b.tokens <= cfg.capacity && exists s: real :: Accounts(cfg, b, past, ds, client, s)
  }

  /** No request of the client is later. */
  ghost predicate Until(past: seq<Event>, client: string, at: real) {
    forall k :: 0 <= k < |past| && past[k].client == client ==> past[k].at <= at
  }

  ghost predicate AllAccounted(cfg: Config, m: map<string, Bucket>, past: seq<Event>, ds: seq<bool>, newest: real) {
    && |ds| == |past|
    && (forall c :: c in m ==>
          m[c].lastUpdate <= newest && Until(past, c, m[c].lastUpdate) && Accounted(cfg, m[c], past, ds, c))
    && forall k :: 0 <= k < |past| ==> past[k].client in m
  }

  lemma {:induction false} AdmittedMore(past: seq<Event>, ds: seq<bool>, e: Event, d: bool, client: string,
                                        s: real, t: real)
    requires |ds| == |past|
    ensures Admitted(past + [e], ds + [d], client, s, t)
         == Admitted(past, ds, client, s, t) + if d && e.client == client && s <= e.at <= t then 1 else 0
  {
    CountedInParts(past, ds, [e], [d], client, s, t);
    assert [e][1..] == [] && [d][1..] == [];
    assert Admitted([e][1..], [d][1..], client, s, t) == 0;
  }

  /** A window may end later than the client's last request, without counting more. */
  lemma {:induction false} SameCount(past: seq<Event>, ds: seq<bool>, client: string, s: real, t: real, later: real)
    requires |ds| == |past| && Until(past, client, t) && t <= later
    ensures Admitted(past, ds, client, s, t) == Admitted(past, ds, client, s, later)
  {
    if past != [] {
      forall k | 0 <= k < |past| - 1 && past[1..][k].client == client ensures past[1..][k].at <= t {
        assert past[k + 1].client == client;
      }
      SameCount(past[1..], ds[1..], client, s, t, later);
    }
  }

  lemma {:induction false} NoneSince(past: seq<Event>, ds: seq<bool>, client: string, s: real, t: real)
    requires |ds| == |past| && Until(past, client, t) && t < s
    ensures Admitted(past, ds, client, s, s) == 0
  {
    if past != [] {
      forall k | 0 <= k < |past| - 1 && past[1..][k].client == client ensures past[1..][k].at <= t {
        assert past[k + 1].client == client;
      }
      NoneSince(past[1..], ds[1..], client, s, t);
    }
  }

  /** After refilling: either it still accounts from the same instant, or it is full from now. */
  lemma RefillAccounts(cfg: Config, b: Bucket, past: seq<Event>, ds: seq<bool>, client: string, now: real)
    returns (s: real)
    requires cfg.rate > 0.0 && |ds| == |past| && Accounted(cfg, b, past, ds, client)
    requires Until(past, client, b.lastUpdate) && b.lastUpdate <= now
    ensures s <= now
    ensures Refilled(cfg, b, now) == cfg.capacity + Gain(cfg, now - s) - Admitted(past, ds, client, s, now) as real
  {
    s :| Accounts(cfg, b, past, ds, client, s);
    if b.tokens + Gain(cfg, now - b.lastUpdate) > cfg.capacity {
      GainOrder(cfg, now - b.lastUpdate, 0.0);
      NoneSince(past, ds, client, now, b.lastUpdate);
      s := now;
    } else {
      GainAdds(cfg, now - b.lastUpdate, b.lastUpdate - s);
      assert (now - b.lastUpdate) + (b.lastUpdate - s) == now - s;
      SameCount(past, ds, client, s, b.lastUpdate, now);
    }
  }

  /** What a request leaves behind accounts for it as well; a refusal overdraws some window. */
  lemma ServeAccounts(cfg: Config, b: Option<Bucket>, past: seq<Event>, ds: seq<bool>, e: Event)
    requires cfg.rate > 0.0 && cfg.capacity >= 1.0 && |ds| == |past|
    requires match b
             case None => forall k :: 0 <= k < |past| ==> past[k].client != e.client
             case Some(b) => && Accounted(cfg, b, past, ds, e.client) && Until(past, e.client, b.lastUpdate)
                             && b.lastUpdate <= e.at
    ensures var (b', d) := Serve(cfg, b, e.at);
            && b'.lastUpdate == e.at && Accounted(cfg, b', past + [e], ds + [d], e.client)
            && (!d ==> exists s: real :: Overdraws(cfg, past, ds, e.client, s, e.at))
  {
    var (b', d) := Serve(cfg, b, e.at);
    var s := e.at;
    match b {
      case None =>
        NoneSince(past, ds, e.client, e.at, e.at - 1.0);
      case Some(bucket) =>
        s := RefillAccounts(cfg, bucket, past, ds, e.client, e.at);
        assert !d ==> Overdraws(cfg, past, ds, e.client, s, e.at);
    }
    AdmittedMore(past, ds, e, d, e.client, s, e.at);
    assert Accounts(cfg, b', past + [e], ds + [d], e.client, s);
  }

  lemma OthersAccounted(cfg: Config, b: Bucket, past: seq<Event>, ds: seq<bool>, e: Event, d: bool, client: string)
    requires |ds| == |past| && Accounted(cfg, b, past, ds, client) && client != e.client
    ensures Accounted(cfg, b, past + [e], ds + [d], client)
  {
    var s: real :| Accounts(cfg, b, past, ds, client, s);
    AdmittedMore(past, ds, e, d, client, s, b.lastUpdate);
    assert Accounts(cfg, b, past + [e], ds + [d], client, s);
  }

  lemma AccountsOn(cfg: Config, m: map<string, Bucket>, past: seq<Event>, ds: seq<bool>, newest: real, e: Event)
    requires cfg.rate > 0.0 && cfg.capacity >= 1.0 && AllAccounted(cfg, m, past, ds, newest) && newest <= e.at
    ensures var (b, d) := Serve(cfg, Get(m, e.client), e.at);
            && AllAccounted(cfg, m[e.client := b], past + [e], ds + [d], e.at)
            && (!d ==> exists s: real :: Overdraws(cfg, past, ds, e.client, s, e.at))
  {
    var (b, d) := Serve(cfg, Get(m, e.client), e.at);
    var m' := m[e.client := b];
    ServeAccounts(cfg, Get(m, e.client), past, ds, e);
    forall c | c in m'
      ensures m'[c].lastUpdate <= e.at && Until(past + [e], c, m'[c].lastUpdate)
      ensures Accounted(cfg, m'[c], past + [e], ds + [d], c)
    {
      if c != e.client {
        OthersAccounted(cfg, m[c], past, ds, e, d, c);
      }
    }
  }

  // ---- whole runs -------------------------------------------------------------------------

  /** Every refusal of a run overdraws a window, the past before the run included. */
  lemma {:induction false} RefusalOverdraws(cfg: Config, m: map<string, Bucket>, past: seq<Event>, ds: seq<bool>,
                                            newest: real, events: seq<Event>, i: nat)
    requires cfg.rate > 0.0 && cfg.capacity >= 1.0 && AllAccounted(cfg, m, past, ds, newest)
    requires InOrder(newest, events) && i < |events| && !PlainDecisions(cfg, m, events)[i]
    ensures exists s: real :: Overdraws(cfg, past + events[..i], ds + PlainDecisions(cfg, m, events)[..i],
                                        events[i].client, s, events[i].at)
    decreases |events|
  {
    var e := events[0];
    var (b, d) := Serve(cfg, Get(m, e.client), e.at);
    var m' := m[e.client := b];
    AccountsOn(cfg, m, past, ds, newest, e);
    var rest := PlainDecisions(cfg, m', events[1..]);
    assert PlainDecisions(cfg, m, events) == [d] + rest;
    if i == 0 {
      assert past + events[..0] == past && ds + ([d] + rest)[..0] == ds;
    } else {
      RefusalOverdraws(cfg, m', past + [e], ds + [d], e.at, events[1..], i - 1);
      assert past + [e] + events[1..][..i - 1] == past + events[..i];
      assert ds + [d] + rest[..i - 1] == ds + ([d] + rest)[..i];
    }
  }

  lemma {:induction false} PrefixDecides(cfg: Config, m: map<string, Bucket>, events: seq<Event>, i: nat)
    requires i <= |events|
    ensures PlainDecisions(cfg, m, events[..i]) == PlainDecisions(cfg, m, events)[..i]
    decreases |events|
  {
    if i > 0 {
      var e := events[0];
      var m' := m[e.client := Serve(cfg, Get(m, e.client), e.at).0];
      PrefixDecides(cfg, m', events[1..], i - 1);
      assert events[..i][1..] == events[1..][..i - 1];
    }
  }

  /** An admitted request overdraws no window. */
  lemma AdmissionFits(cfg: Config, events: seq<Event>, i: nat, s: real)
    requires cfg.rate > 0.0 && cfg.capacity >= 1.0 && i < |events| && PlainDecisions(cfg, map[], events)[i]
    ensures !Overdraws(cfg, events[..i], PlainDecisions(cfg, map[], events)[..i], events[i].client, s, events[i].at)
  {
    var ds, e := PlainDecisions(cfg, map[], events), events[i];
    if s <= e.at {
      PrefixDecides(cfg, map[], events, i + 1);
      assert events[..i + 1] == events[..i] + [e] && ds[..i + 1] == ds[..i] + [ds[i]];
      AdmittedMore(events[..i], ds[..i], e, ds[i], e.client, s, e.at);
      PlainBound(cfg, map[], events[..i + 1], e.client, s, e.at);
    }
  }

  lemma PlainIsGreedy(cfg: Config, start: real, events: seq<Event>)
    requires cfg.rate > 0.0 && cfg.capacity >= 1.0 && InOrder(start, events)
    ensures Greedy(cfg, events, PlainDecisions(cfg, map[], events))
  {
    var ds := PlainDecisions(cfg, map[], events);
    forall i | 0 <= i < |events| ensures GreedyAt(cfg, events, ds, i) {
      if ds[i] {
        forall s: real ensures !Overdraws(cfg, events[..i], ds[..i], events[i].client, s, events[i].at) {
          AdmissionFits(cfg, events, i, s);
        }
      } else {
        RefusalOverdraws(cfg, map[], [], [], start, events, i);
        assert [] + events[..i] == events[..i] && [] + ds[..i] == ds[..i];
      }
    }
  }

  /** In time order, when an interval refills a bucket, the policy decides greedily. */
  lemma DecidesGreedily(cfg: Config, start: real, events: seq<Event>)
    requires cfg.rate > 0.0 && cfg.capacity >= 1.0 && Gain(cfg, cfg.interval) >= cfg.capacity
    requires InOrder(start, events)
    ensures Greedy(cfg, events, Decisions(cfg, State(map[], start), events))
  {
    InOrderIsTimely(start, start, 0.0, events);
    CleanupUnseen(cfg, State(map[], start), map[], start, start, 0.0, events);
    PlainIsGreedy(cfg, start, events);
  }

  ghost predicate Possible(cfg: Config, start: real, events: seq<Event>, ds: seq<bool>) {
    exists last :: Reaches(cfg, State(map[], start), events, ds, last)
  }

  /** While all clients fit, a run is possible exactly with the greedy decisions. */
  lemma RunIsGreedy(cfg: Config, start: real, events: seq<Event>, ds: seq<bool>)
    requires WellFormed(cfg) && cfg.capacity >= 1.0 && Gain(cfg, cfg.interval) >= cfg.capacity
    requires InOrder(start, events) && |Clients(events)| <= cfg.maxClients
    ensures Greedy(cfg, events, ds) <==> Possible(cfg, start, events, ds)
  {
    var s0 := State(map[], start);
    DecidesGreedily(cfg, start, events);
    RoomForFew(cfg, s0, events, Clients(events));
    var decided := Decisions(cfg, s0, events);
    RoomDecides(cfg, s0, events, decided, After(cfg, s0, events));
    if Greedy(cfg, events, ds) {
      GreedyIsUnique(cfg, events, ds, decided, |events|);
      assert ds[..|events|] == ds && decided[..|events|] == decided;
    }
    if last :| Reaches(cfg, s0, events, ds, last) {
      RoomDecides(cfg, s0, events, ds, last);
    }
  }

  // ---- exactly when ------------------------------------------------------------------------

  /** Greedy decisions keep the promise in every window. */
  lemma {:induction false} GreedyIsHeld(cfg: Config, start: real, events: seq<Event>, ds: seq<bool>, i: nat,
                                        client: string, s: real, t: real)
    requires cfg.rate > 0.0 && cfg.capacity >= 0.0 && InOrder(start, events) && Greedy(cfg, events, ds)
    requires i <= |events| && s <= t
    ensures Admitted(events[..i], ds[..i], client, s, t) as real <= cfg.capacity + Gain(cfg, t - s)
  {
    if i == 0 {
      GainOrder(cfg, 0.0, t - s);
    } else {
      var past, e := events[..i - 1], events[i - 1];
      GreedyIsHeld(cfg, start, events, ds, i - 1, client, s, t);
      assert events[..i] == past + [e] && ds[..i] == ds[..i - 1] + [ds[i - 1]];
      AdmittedMore(past, ds[..i - 1], e, ds[i - 1], client, s, t);
      if ds[i - 1] && e.client == client && s <= e.at <= t {
        assert GreedyAt(cfg, events, ds, i - 1);
        assert !Overdraws(cfg, past, ds[..i - 1], client, s, e.at);
        forall k | 0 <= k < |past| ensures past[k].at <= e.at {
          EarlierFirst(start, events, k, i - 1);
        }
        SameCount(past, ds[..i - 1], client, s, e.at, t);
        GainOrder(cfg, e.at - s, t - s);
      }
    }
  }

  lemma {:induction false} EarlierFirst(from: real, events: seq<Event>, k: nat, i: nat)
    requires InOrder(from, events) && k < i < |events|
    ensures events[k].at <= events[i].at
    decreases i
  {
    if k > 0 {
      EarlierFirst(events[0].at, events[1..], k - 1, i - 1);
    } else {
      NotBefore(events[0].at, events[1..], i - 1);
    }
  }

  lemma {:induction false} NotBefore(from: real, events: seq<Event>, i: nat)
    requires InOrder(from, events) && i < |events|
    ensures from <= events[i].at
    decreases i
  {
    if i > 0 {
      NotBefore(events[0].at, events[1..], i - 1);
    }
  }

  lemma {:induction false} PunctualIsInOrder(from: real, newest: real, events: seq<Event>)
    requires Timely(from, newest, 0.0, events)
    ensures InOrder(newest, events)
    decreases |events|
  {
    if events != [] {
      PunctualIsInOrder(from, events[0].at, events[1..]);
    }
  }

  /** Every possible run of at most n clients in time order is decided greedily. */
  ghost predicate AlwaysGreedy(cfg: Config, n: nat) {
    forall start: real, events, ds, last {:trigger Reaches(cfg, State(map[], start), events, ds, last)} ::
      InOrder(start, events) && |Clients(events)| <= n && Reaches(cfg, State(map[], start), events, ds, last)
      ==> Greedy(cfg, events, ds)
  }

  /** The limiter is greedy on all such runs exactly when it keeps its promise on all of them. */
  lemma GreedyExactly(cfg: Config, n: nat)
    requires WellFormed(cfg) && n >= 1
    ensures AlwaysGreedy(cfg, n) <==>
              cfg.capacity >= 1.0 && n <= cfg.maxClients && Gain(cfg, cfg.interval) >= cfg.capacity
  {
    BoundExactly(cfg, n, 0.0);
    if cfg.capacity >= 1.0 && n <= cfg.maxClients && Gain(cfg, cfg.interval) >= cfg.capacity {
      forall start: real, events, ds, last |
        InOrder(start, events) && |Clients(events)| <= n && Reaches(cfg, State(map[], start), events, ds, last)
        ensures Greedy(cfg, events, ds)
      {
        assert Possible(cfg, start, events, ds);
        RunIsGreedy(cfg, start, events, ds);
      }
    }
    if AlwaysGreedy(cfg, n) {
      forall start: real, events, ds, last, client, s: real, t: real |
        && Timely(start, start, 0.0, events) && |Clients(events)| <= n
        && Reaches(cfg, State(map[], start), events, ds, last)
        ensures Held(cfg, events, ds, client, s, t)
      {
        PunctualIsInOrder(start, start, events);
        if s <= t {
          GreedyIsHeld(cfg, start, events, ds, |events|, client, s, t);
          assert events[..|events|] == events && ds[..|events|] == ds;
        }
      }
    }
  }
}
