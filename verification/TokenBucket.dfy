/**
 * Token buckets as values: one bucket per client, refilled by elapsed time,
 * swept away when idle. Times are real seconds, token counts are reals.
 */
module TokenBucket {
  import opened Numbers
  import opened Options

  datatype Config = Config(rate: real, capacity: real, interval: real, maxClients: nat)

  datatype Bucket = Bucket(tokens: real, lastUpdate: real)

  datatype State = State(buckets: map<string, Bucket>, lastCleanup: real)

  /** One request: the client it comes from and the time it arrives. */
  datatype Event = Event(client: string, at: real)

  /** What the limiter guarantees of its own configuration after defaults are applied. */
  predicate WellFormed(cfg: Config) {
    cfg.rate > 0.0 && cfg.capacity > 0.0 && cfg.interval > 0.0 && cfg.maxClients > 0
  }

  /** Tokens gained in d seconds. */
  function Gain(cfg: Config, d: real): real {
    d * cfg.rate
  }

  function Refilled(cfg: Config, b: Bucket, now: real): real {
    var tokens := b.tokens + Gain(cfg, now - b.lastUpdate);
    if tokens > cfg.capacity then cfg.capacity else tokens
  }

  /** The bucket after a request at time now, and whether the request was admitted. */
  function Serve(cfg: Config, b: Option<Bucket>, now: real): (Bucket, bool) {
    match b
    case None => (Bucket(cfg.capacity - 1.0, now), true)
    case Some(b) =>
      var tokens := Refilled(cfg, b, now);
      if tokens >= 1.0 then (Bucket(tokens - 1.0, now), true) else (Bucket(tokens, now), false)
  }

  function Get(m: map<string, Bucket>, client: string): Option<Bucket> {
    if client in m then Some(m[client]) else None
  }

  function Swept(cfg: Config, m: map<string, Bucket>, now: real): map<string, Bucket> {
    map c | c in m && now - m[c].lastUpdate <= cfg.interval :: m[c]
  }

  function Cleaned(cfg: Config, s: State, now: real): State {
    if now - s.lastCleanup >= cfg.interval then State(Swept(cfg, s.buckets, now), now) else s
  }

  /** One request while there is room for every client. */
  function Next(cfg: Config, s: State, e: Event): State {
    var c := Cleaned(cfg, s, e.at);
    State(c.buckets[e.client := Serve(cfg, Get(c.buckets, e.client), e.at).0], c.lastCleanup)
  }

  function Admits(cfg: Config, s: State, e: Event): bool {
    Serve(cfg, Get(Cleaned(cfg, s, e.at).buckets, e.client), e.at).1
  }

  function Decisions(cfg: Config, s: State, events: seq<Event>): (ds: seq<bool>)
    ensures |ds| == |events|
    decreases |events|
  {
    if events == [] then []
    else [Admits(cfg, s, events[0])] + Decisions(cfg, Next(cfg, s, events[0]), events[1..])
  }

  function After(cfg: Config, s: State, events: seq<Event>): State
    decreases |events|
  {
    if events == [] then s else After(cfg, Next(cfg, s, events[0]), events[1..])
  }

  /** The same limiter without any cleanup: the definition of the bucket policy. */
  function PlainDecisions(cfg: Config, m: map<string, Bucket>, events: seq<Event>): (ds: seq<bool>)
    ensures |ds| == |events|
    decreases |events|
  {
    if events == [] then []
    else
      var e := events[0];
      var (b, admitted) := Serve(cfg, Get(m, e.client), e.at);
      [admitted] + PlainDecisions(cfg, m[e.client := b], events[1..])
  }

  predicate InOrder(from: real, events: seq<Event>)
    decreases |events|
  {
    events == [] || (from <= events[0].at && InOrder(events[0].at, events[1..]))
  }

  function Clients(events: seq<Event>): set<string> {
    set i | 0 <= i < |events| :: events[i].client
  }

  /** How many requests of one client were admitted in the window from s to t. */
  function Admitted(events: seq<Event>, ds: seq<bool>, client: string, s: real, t: real): nat
    requires |ds| == |events|
  {
    if events == [] then 0
    else
      var hit := ds[0] && events[0].client == client && s <= events[0].at <= t;
      (if hit then 1 else 0) + Admitted(events[1..], ds[1..], client, s, t)
  }

  // ---- stamps ------------------------------------------------------------------

  function Later(a: real, b: real): real {
    if a < b then b else a
  }

  /**
   * The order in which requests reach the buckets. A request reads the clock before
   * it waits for the lock, so its stamp may be behind the newest one before it, by
   * at most `late`; no stamp is older than the limiter, which began at `from`.
   */
  predicate Timely(from: real, newest: real, late: real, events: seq<Event>)
    decreases |events|
  {
    events == []
    || (from <= events[0].at && newest - late <= events[0].at
        && Timely(from, Later(newest, events[0].at), late, events[1..]))
  }

  lemma {:induction false} InOrderIsTimely(from: real, newest: real, late: real, events: seq<Event>)
    requires from <= newest && late >= 0.0 && InOrder(newest, events)
    ensures Timely(from, newest, late, events)
    decreases |events|
  {
    if events != [] {
      InOrderIsTimely(from, events[0].at, late, events[1..]);
    }
  }

  // ---- cleanup cannot be observed ------------------------------------------

  /** A swept bucket would have been full again by now. */
  ghost predicate Hidden(cfg: Config, m: map<string, Bucket>, plain: map<string, Bucket>, now: real) {
    forall c {:trigger Get(m, c)} {:trigger c in plain} ::
      if c in m then c in plain && m[c] == plain[c]
      else c in plain ==> Refilled(cfg, plain[c], now) == cfg.capacity
  }

  /** At the newest stamp a bucket has not been overdrawn; a late one may have turned it back below zero. */
  ghost predicate SaneBucket(cfg: Config, b: Bucket, newest: real, late: real) {
    && -Gain(cfg, late) <= b.tokens <= cfg.capacity && b.lastUpdate <= newest
    && b.tokens + Gain(cfg, newest - b.lastUpdate) >= 0.0
  }

  ghost predicate Sane(cfg: Config, m: map<string, Bucket>, newest: real, late: real) {
    forall c :: c in m ==> SaneBucket(cfg, m[c], newest, late)
  }

  /** Refilling is additive over time and never negative. */
  lemma GainAdds(cfg: Config, d: real, e: real)
    requires cfg.rate > 0.0
    ensures Gain(cfg, d + e) == Gain(cfg, d) + Gain(cfg, e)
    ensures e >= 0.0 ==> Gain(cfg, e) >= 0.0
    ensures Gain(cfg, 0.0) == 0.0
  {
  }

  lemma GainOrder(cfg: Config, d: real, e: real)
    requires cfg.rate > 0.0
    ensures d <= e ==> Gain(cfg, d) <= Gain(cfg, e)
    ensures d < e ==> Gain(cfg, d) < Gain(cfg, e)
  {
  }

  lemma RefillGrows(cfg: Config, b: Bucket, now: real, later: real)
    requires cfg.rate > 0.0 && now <= later
    ensures Refilled(cfg, b, now) <= Refilled(cfg, b, later)
  {
    GainOrder(cfg, now - b.lastUpdate, later - b.lastUpdate);
  }

  /** A bucket idle for longer than the interval has refilled completely, as a request up to `late` behind sees it. */
  lemma IdleIsFull(cfg: Config, b: Bucket, now: real, late: real, behind: real)
    requires cfg.rate > 0.0 && -Gain(cfg, late) <= b.tokens
    requires Gain(cfg, cfg.interval - late - behind) >= cfg.capacity
    requires now - behind - b.lastUpdate >= cfg.interval - behind
    ensures Refilled(cfg, b, now - behind) == cfg.capacity
  {
    GainAdds(cfg, now - behind - b.lastUpdate - late, late);
    assert (now - behind - b.lastUpdate - late) + late == now - behind - b.lastUpdate;
    GainOrder(cfg, cfg.interval - late - behind, now - behind - b.lastUpdate - late);
  }

  lemma ServeSane(cfg: Config, b: Option<Bucket>, at: real, newest: real, late: real)
    requires cfg.rate > 0.0 && cfg.capacity >= 1.0 && late >= 0.0 && newest - late <= at
    requires b.Some? ==> SaneBucket(cfg, b.value, newest, late)
    ensures SaneBucket(cfg, Serve(cfg, b, at).0, Later(newest, at), late)
  {
    var (b', admitted) := Serve(cfg, b, at);
    GainOrder(cfg, 0.0, late);
    GainOrder(cfg, 0.0, Later(newest, at) - at);
    if b.Some? && !admitted {
      assert b'.tokens == b.value.tokens + Gain(cfg, at - b.value.lastUpdate);
      GainAdds(cfg, at - b.value.lastUpdate, late);
      GainAdds(cfg, at - b.value.lastUpdate, Later(newest, at) - at);
      assert (at - b.value.lastUpdate) + (Later(newest, at) - at) == Later(newest, at) - b.value.lastUpdate;
      GainOrder(cfg, newest - b.value.lastUpdate, (at - b.value.lastUpdate) + late);
      GainOrder(cfg, newest - b.value.lastUpdate, Later(newest, at) - b.value.lastUpdate);
    }
  }

  lemma SaneLonger(cfg: Config, b: Bucket, newest: real, newer: real, late: real)
    requires cfg.rate > 0.0 && SaneBucket(cfg, b, newest, late) && newest <= newer
    ensures SaneBucket(cfg, b, newer, late)
  {
    GainOrder(cfg, newest - b.lastUpdate, newer - b.lastUpdate);
  }

  /** Cleaning changes nothing that a later request could notice, even one that is late. */
  lemma CleaningHides(cfg: Config, s: State, plain: map<string, Bucket>, newest: real, late: real, at: real)
    requires cfg.rate > 0.0 && cfg.capacity >= 1.0 && Gain(cfg, cfg.interval - late - late) >= cfg.capacity
    requires Hidden(cfg, s.buckets, plain, newest - late) && Sane(cfg, plain, newest, late)
    requires late >= 0.0 && newest - late <= at
    ensures Hidden(cfg, Cleaned(cfg, s, at).buckets, plain, Later(newest, at) - late)
  {
    var m, floor := Cleaned(cfg, s, at).buckets, Later(newest, at) - late;
    forall c | c in plain && c !in m
      ensures Refilled(cfg, plain[c], floor) == cfg.capacity
    {
      assert Get(s.buckets, c) == Get(s.buckets, c);
      if c in s.buckets {
        IdleIsFull(cfg, plain[c], at, late, late);
        RefillGrows(cfg, plain[c], at - late, floor);
      } else {
        RefillGrows(cfg, plain[c], newest - late, floor);
      }
    }
    forall c | c in m ensures c in plain && m[c] == plain[c] {
      assert Get(s.buckets, c) == Some(m[c]);
    }
  }

  lemma SaneOn(cfg: Config, m: map<string, Bucket>, newest: real, late: real, e: Event)
    requires cfg.rate > 0.0 && cfg.capacity >= 1.0 && late >= 0.0 && newest - late <= e.at && Sane(cfg, m, newest, late)
    ensures Sane(cfg, m[e.client := Serve(cfg, Get(m, e.client), e.at).0], Later(newest, e.at), late)
  {
    ServeSane(cfg, Get(m, e.client), e.at, newest, late);
    forall c | c in m ensures SaneBucket(cfg, m[c], Later(newest, e.at), late) {
      SaneLonger(cfg, m[c], newest, Later(newest, e.at), late);
    }
  }

  /** Over any run with stamps at most `late` behind, cleanup changes no decision. */
  lemma {:induction false} CleanupUnseen(cfg: Config, s: State, plain: map<string, Bucket>, from: real, newest: real,
                                         late: real, events: seq<Event>)
    requires cfg.rate > 0.0 && cfg.capacity >= 1.0 && Gain(cfg, cfg.interval - late - late) >= cfg.capacity
    requires Hidden(cfg, s.buckets, plain, newest - late) && Sane(cfg, plain, newest, late)
    requires late >= 0.0 && Timely(from, newest, late, events)
    ensures Decisions(cfg, s, events) == PlainDecisions(cfg, plain, events)
    decreases |events|
  {
    if events != [] {
      var e := events[0];
      var c, newer := Cleaned(cfg, s, e.at), Later(newest, e.at);
      CleaningHides(cfg, s, plain, newest, late, e.at);
      var mine, theirs := Get(c.buckets, e.client), Get(plain, e.client);
      if theirs.Some? && mine.None? {
        RefillGrows(cfg, theirs.value, newer - late, e.at);
      }
      assert Serve(cfg, mine, e.at) == Serve(cfg, theirs, e.at);
      SaneOn(cfg, plain, newest, late, e);
      var s' := Next(cfg, s, e);
      var plain' := plain[e.client := Serve(cfg, theirs, e.at).0];
      forall k
        ensures if k in s'.buckets then k in plain' && s'.buckets[k] == plain'[k]
                else k in plain' ==> Refilled(cfg, plain'[k], newer - late) == cfg.capacity
      {
        assert Get(c.buckets, k) == Get(c.buckets, k);
      }
      CleanupUnseen(cfg, s', plain', from, newer, late, events[1..]);
    }
  }

  /** A single client is cleaned up only by its own requests, so half the slack is enough. */
  lemma {:induction false} CleanupUnseenAlone(cfg: Config, s: State, from: real, newest: real, late: real,
                                              events: seq<Event>, client: string)
    requires cfg.rate > 0.0 && cfg.capacity >= 1.0 && Gain(cfg, cfg.interval - late) >= cfg.capacity
    requires s.buckets.Keys <= {client} && Sane(cfg, s.buckets, newest, late)
    requires late >= 0.0 && Timely(from, newest, late, events)
    requires forall i :: 0 <= i < |events| ==> events[i].client == client
    ensures Decisions(cfg, s, events) == PlainDecisions(cfg, s.buckets, events)
    decreases |events|
  {
    if events != [] {
      var e := events[0];
      assert e.client == client;
      var c := Cleaned(cfg, s, e.at);
      if client in s.buckets && client !in c.buckets {
        IdleIsFull(cfg, s.buckets[client], e.at, late, 0.0);
      }
      assert Serve(cfg, Get(c.buckets, client), e.at) == Serve(cfg, Get(s.buckets, client), e.at);
      SaneOn(cfg, s.buckets, newest, late, e);
      var s' := Next(cfg, s, e);
      assert s'.buckets == s.buckets[client := Serve(cfg, Get(s.buckets, client), e.at).0];
      assert forall i :: 0 <= i < |events| - 1 ==> events[1..][i] == events[i + 1];
      CleanupUnseenAlone(cfg, s', from, Later(newest, e.at), late, events[1..], client);
    }
  }

  // ---- the window bound -----------------------------------------------------

  /** What a bucket is worth at the end of the window: its line of refilling, under the cap of the window. */
  function Worth(cfg: Config, b: Option<Bucket>, s: real, t: real): real {
    var most := cfg.capacity + Gain(cfg, t - s);
    match b
    case None => most
    case Some(b) =>
      var line := b.tokens + Gain(cfg, t - b.lastUpdate);
      if line < 0.0 then 0.0 else if line < most then line else most
  }

  /** A request spends one token of it if it is admitted in the window, and never adds any, whatever its stamp. */
  lemma ServeSpends(cfg: Config, b: Option<Bucket>, at: real, s: real, t: real)
    requires cfg.rate > 0.0 && cfg.capacity >= 1.0 && s <= t
    ensures var (b', admitted) := Serve(cfg, b, at);
            Worth(cfg, Some(b'), s, t) + (if admitted && s <= at <= t then 1.0 else 0.0) <= Worth(cfg, b, s, t)
  {
    GainOrder(cfg, 0.0, t - s);
    GainOrder(cfg, 0.0, t - at);
    GainOrder(cfg, t - at, t - s);
    if b.Some? {
      GainAdds(cfg, at - b.value.lastUpdate, t - at);
      assert (at - b.value.lastUpdate) + (t - at) == t - b.value.lastUpdate;
    }
  }

  lemma {:induction false} PlainBound(cfg: Config, m: map<string, Bucket>, events: seq<Event>,
                                      client: string, s: real, t: real)
    requires cfg.rate > 0.0 && cfg.capacity >= 1.0 && s <= t
    ensures Admitted(events, PlainDecisions(cfg, m, events), client, s, t) as real <= Worth(cfg, Get(m, client), s, t)
    decreases |events|
  {
    if events == [] {
      GainOrder(cfg, 0.0, t - s);
    } else {
      var e := events[0];
      var (b, admitted) := Serve(cfg, Get(m, e.client), e.at);
      var m' := m[e.client := b];
      PlainBound(cfg, m', events[1..], client, s, t);
      var ds := PlainDecisions(cfg, m, events);
      assert ds[1..] == PlainDecisions(cfg, m', events[1..]);
      if e.client == client {
        ServeSpends(cfg, Get(m, client), e.at, s, t);
      }
    }
  }

  /** The limiter's promise: at most a full bucket plus what refills during the window. */
  ghost predicate Bounded(cfg: Config, start: real, events: seq<Event>, client: string, s: real, t: real) {
    s <= t ==>
      Admitted(events, Decisions(cfg, State(map[], start), events), client, s, t) as real
      <= cfg.capacity + Gain(cfg, t - s)
  }

  /**
   * The time that surely passes, as seen in stamps, from a client's emptying its
   * bucket until it can get a new one: one late request turns its bucket back, and
   * if others can trigger the cleanup, another can come back late afterwards.
   */
  function Respite(cfg: Config, n: nat, late: real): real {
    if n <= 1 then cfg.interval - late else cfg.interval - late - late
  }

  lemma WindowBound(cfg: Config, start: real, late: real, events: seq<Event>, client: string, s: real, t: real)
    requires cfg.rate > 0.0 && cfg.capacity >= 1.0 && late >= 0.0 && Timely(start, start, late, events)
    requires Gain(cfg, Respite(cfg, |Clients(events)|, late)) >= cfg.capacity
    ensures Bounded(cfg, start, events, client, s, t)
  {
    if s <= t {
      var s0 := State(map[], start);
      if |Clients(events)| <= 1 {
        var only := OnlyClient(events);
        CleanupUnseenAlone(cfg, s0, start, start, late, events, only);
      } else {
        CleanupUnseen(cfg, s0, map[], start, start, late, events);
      }
      PlainBound(cfg, map[], events, client, s, t);
    }
  }

  lemma OnlyClient(events: seq<Event>) returns (client: string)
    requires |Clients(events)| <= 1
    ensures forall i :: 0 <= i < |events| ==> events[i].client == client
  {
    if events == [] {
      client := "";
    } else {
      client := events[0].client;
      forall i | 0 <= i < |events| ensures events[i].client == client {
        var both := {client, events[i].client};
        assert both <= Clients(events);
        SubsetSize(both, Clients(events));
      }
    }
  }

  // ---- room for every client --------------------------------------------------

  predicate HasRoom(cfg: Config, s: State, e: Event) {
    var m := Cleaned(cfg, s, e.at).buckets;
    e.client in m || |m| < cfg.maxClients
  }

  predicate RoomThroughout(cfg: Config, s: State, events: seq<Event>)
    decreases |events|
  {
    events == [] || (HasRoom(cfg, s, events[0]) && RoomThroughout(cfg, Next(cfg, s, events[0]), events[1..]))
  }

  lemma FewerMembers<T>(a: set<T>, b: set<T>, x: T)
    requires a <= b && x in b && x !in a
    ensures |a| < |b|
  {
    SubsetSize(a, b - {x});
  }

  /** No bucket is ever evicted while the clients of the whole run fit. */
  lemma {:induction false} RoomForFew(cfg: Config, s: State, events: seq<Event>, all: set<string>)
    requires s.buckets.Keys <= all && Clients(events) <= all && |all| <= cfg.maxClients
    ensures RoomThroughout(cfg, s, events)
    decreases |events|
  {
    if events != [] {
      var e := events[0];
      var m := Cleaned(cfg, s, e.at).buckets;
      assert e.client in Clients(events);
      if e.client !in m {
        FewerMembers(m.Keys, all, e.client);
      }
      assert Clients(events[1..]) <= Clients(events) by {
        forall i | 0 <= i < |events| - 1 ensures events[1..][i].client in Clients(events) {
          assert events[1..][i] == events[i + 1];
        }
      }
      RoomForFew(cfg, Next(cfg, s, e), events[1..], all);
    }
  }

  // ---- runs that exceed the bound -------------------------------------------------

  /** Some run of at most n clients, with stamps at most `late` behind, exceeds what the limiter promises. */
  ghost predicate Exceeds(cfg: Config, n: nat, late: real) {
    exists start: real, events, client, s: real, t: real {:trigger Bounded(cfg, start, events, client, s, t)} ::
      && Timely(start, start, late, events) && |Clients(events)| <= n
      && !Bounded(cfg, start, events, client, s, t)
  }

  /** Some run of a single client, in time order, does. */
  ghost predicate OneClientExceeds(cfg: Config) {
    exists start: real, events, client, s: real, t: real {:trigger Bounded(cfg, start, events, client, s, t)} ::
      InOrder(start, events) && |Clients(events)| <= 1 && !Bounded(cfg, start, events, client, s, t)
  }

  function Repeat(e: Event, k: nat): (r: seq<Event>)
    ensures |r| == k && forall i :: 0 <= i < k ==> r[i] == e
  {
    if k == 0 then [] else [e] + Repeat(e, k - 1)
  }

  predicate AllAdmitted(cfg: Config, s: State, events: seq<Event>)
    decreases |events|
  {
    events == [] || (Admits(cfg, s, events[0]) && AllAdmitted(cfg, Next(cfg, s, events[0]), events[1..]))
  }

  lemma {:induction false} InTwoParts(cfg: Config, s: State, a: seq<Event>, b: seq<Event>)
    requires AllAdmitted(cfg, s, a) && AllAdmitted(cfg, After(cfg, s, a), b)
    ensures AllAdmitted(cfg, s, a + b) && After(cfg, s, a + b) == After(cfg, After(cfg, s, a), b)
    decreases |a|
  {
    if a == [] {
      assert a + b == b;
    } else {
      InTwoParts(cfg, Next(cfg, s, a[0]), a[1..], b);
      assert (a + b)[1..] == a[1..] + b && (a + b)[0] == a[0];
    }
  }

  lemma {:induction false} AllCounted(cfg: Config, state: State, events: seq<Event>, client: string, s: real, t: real)
    requires AllAdmitted(cfg, state, events)
    requires forall i :: 0 <= i < |events| ==> events[i].client == client && s <= events[i].at <= t
    ensures Admitted(events, Decisions(cfg, state, events), client, s, t) == |events|
    decreases |events|
  {
    if events != [] {
      var ds := Decisions(cfg, state, events);
      assert ds[0] && ds[1..] == Decisions(cfg, Next(cfg, state, events[0]), events[1..]);
      assert events[0].client == client && s <= events[0].at <= t;
      assert forall i :: 0 <= i < |events| - 1 ==> events[1..][i] == events[i + 1];
      AllCounted(cfg, Next(cfg, state, events[0]), events[1..], client, s, t);
    }
  }

  lemma {:induction false} CountedInParts(a: seq<Event>, da: seq<bool>, b: seq<Event>, db: seq<bool>,
                                          client: string, s: real, t: real)
    requires |da| == |a| && |db| == |b|
    ensures Admitted(a + b, da + db, client, s, t) == Admitted(a, da, client, s, t) + Admitted(b, db, client, s, t)
    decreases |a|
  {
    if a == [] {
      assert a + b == b && da + db == db;
    } else {
      assert (a + b)[1..] == a[1..] + b && (da + db)[1..] == da[1..] + db;
      CountedInParts(a[1..], da[1..], b, db, client, s, t);
    }
  }

  lemma {:induction false} DecidedInParts(cfg: Config, s: State, a: seq<Event>, b: seq<Event>)
    ensures Decisions(cfg, s, a + b) == Decisions(cfg, s, a) + Decisions(cfg, After(cfg, s, a), b)
    ensures After(cfg, s, a + b) == After(cfg, After(cfg, s, a), b)
    decreases |a|
  {
    if a == [] {
      assert a + b == b;
    } else {
      assert (a + b)[1..] == a[1..] + b && (a + b)[0] == a[0];
      DecidedInParts(cfg, Next(cfg, s, a[0]), a[1..], b);
    }
  }

  /** A bucket holding k tokens admits k requests at once. */
  lemma {:induction false} Burst(cfg: Config, s: State, e: Event, x: real, k: nat)
    requires e.client in s.buckets && s.buckets[e.client] == Bucket(x, e.at)
    requires k as real <= x <= cfg.capacity && e.at - s.lastCleanup < cfg.interval
    ensures AllAdmitted(cfg, s, Repeat(e, k))
    ensures var s' := After(cfg, s, Repeat(e, k));
            s'.lastCleanup == s.lastCleanup && e.client in s'.buckets
              && s'.buckets[e.client] == Bucket(x - k as real, e.at)
    decreases k
  {
    if k > 0 {
      assert Gain(cfg, e.at - e.at) == 0.0;
      Burst(cfg, Next(cfg, s, e), e, x - 1.0, k - 1);
    }
  }

  /** A client without a bucket can spend a whole capacity at once. */
  lemma FreshBurst(cfg: Config, s: State, e: Event, f: nat)
    requires WellFormed(cfg) && 1 <= f && f as real <= cfg.capacity
    requires e.client !in Cleaned(cfg, s, e.at).buckets
    ensures AllAdmitted(cfg, s, Repeat(e, f))
    ensures var s' := After(cfg, s, Repeat(e, f));
            && s'.lastCleanup == Cleaned(cfg, s, e.at).lastCleanup
            && e.client in s'.buckets && s'.buckets[e.client] == Bucket(cfg.capacity - f as real, e.at)
  {
    Burst(cfg, Next(cfg, s, e), e, cfg.capacity - 1.0, f - 1);
  }

  /** Waiting until exactly one token is there admits one more request. */
  lemma OneMore(cfg: Config, s: State, e: Event, x: real, d: real)
    requires WellFormed(cfg) && cfg.capacity >= 1.0 && 0.0 <= d <= cfg.interval && x + Gain(cfg, d) == 1.0
    requires e.client in s.buckets && s.buckets[e.client] == Bucket(x, e.at - d) && s.lastCleanup <= e.at
    ensures AllAdmitted(cfg, s, [e])
    ensures var s' := After(cfg, s, [e]);
            s'.lastCleanup <= e.at && e.client in s'.buckets && s'.buckets[e.client] == Bucket(0.0, e.at)
  {
    assert e.at - (e.at - d) == d;
    assert After(cfg, s, [e]) == Next(cfg, s, e) by {
      assert [e][1..] == [];
    }
  }

  lemma Wait(cfg: Config, g: real) returns (d: real)
    requires cfg.rate > 0.0 && g >= 0.0
    ensures Gain(cfg, d) == g && d >= 0.0 && (g > 0.0 ==> d > 0.0)
  {
    d := g / cfg.rate;
  }

  lemma OneClient(events: seq<Event>, client: string)
    requires forall i :: 0 <= i < |events| ==> events[i].client == client
    ensures |Clients(events)| <= 1
  {
    SubsetSize(Clients(events), {client});
  }

  lemma {:induction false} OrderedParts(from: real, a: seq<Event>, x: real, y: real, b: seq<Event>)
    requires from <= x <= y && InOrder(y, b) && forall i :: 0 <= i < |a| ==> a[i].at == x
    ensures InOrder(from, a + b)
    decreases |a|
  {
    if a == [] {
      assert a + b == b;
      if b != [] {
        assert from <= b[0].at;
      }
    } else {
      assert (a + b)[1..] == a[1..] + b && (a + b)[0] == a[0];
      OrderedParts(x, a[1..], x, y, b);
    }
  }

  /** Two bursts with an idle interval between them break the bound when a swept bucket could not have refilled. */
  lemma TwoBursts(cfg: Config, f: nat)
    requires WellFormed(cfg) && 1 <= f && f as real <= cfg.capacity < f as real + 1.0
    requires Gain(cfg, cfg.interval) < f as real - (cfg.capacity - f as real)
    ensures OneClientExceeds(cfg)
  {
    var slack := f as real - (cfg.capacity - f as real) - Gain(cfg, cfg.interval);
    var eps := Wait(cfg, slack / 2.0);
    var T := cfg.interval + eps;
    var e0, e1 := Event("c", 0.0), Event("c", T);
    var a, b := Repeat(e0, f), Repeat(e1, f);
    var s0 := State(map[], 0.0);
    FreshBurst(cfg, s0, e0, f);
    var s1 := After(cfg, s0, a);
    FreshBurst(cfg, s1, e1, f);
    InTwoParts(cfg, s0, a, b);
    var events := a + b;
    AllCounted(cfg, s0, events, "c", 0.0, T);
    GainAdds(cfg, cfg.interval, eps);
    OneClient(events, "c");
    assert b + [] == b;
    OrderedParts(T, b, T, T, []);
    OrderedParts(0.0, a, 0.0, T, b);
    assert !Bounded(cfg, 0.0, events, "c", 0.0, T);
  }

  /** Two bursts at 0 and T, each followed by one more request d later. */
  function ToppedBursts(f: nat, d: real, T: real): (events: seq<Event>)
    ensures |events| == 2 * f + 2
    ensures forall i :: 0 <= i < |events| ==> events[i].client == "c" && events[i].at in {0.0, d, T, T + d}
  {
    (Repeat(Event("c", 0.0), f) + [Event("c", d)]) + (Repeat(Event("c", T), f) + [Event("c", T + d)])
  }

  lemma ToppedOrder(f: nat, d: real, T: real)
    requires 0.0 <= d <= T
    ensures InOrder(0.0, ToppedBursts(f, d, T))
  {
    var a, b := Repeat(Event("c", 0.0), f), Repeat(Event("c", T), f);
    var e1, e3 := [Event("c", d)], [Event("c", T + d)];
    OrderedParts(T, b, T, T + d, e3);
    OrderedParts(d, e1, d, T, b + e3);
    OrderedParts(0.0, a, 0.0, d, e1 + (b + e3));
    assert ToppedBursts(f, d, T) == a + (e1 + (b + e3));
  }

  /** The same, with each burst topped up by one token that refills within the interval. */
  lemma TwoToppedBursts(cfg: Config, f: nat)
    requires WellFormed(cfg) && 1 <= f && f as real <= cfg.capacity < f as real + 1.0
    requires f as real - (cfg.capacity - f as real) <= Gain(cfg, cfg.interval) < cfg.capacity
    ensures OneClientExceeds(cfg)
  {
    var d := Wait(cfg, 1.0 - (cfg.capacity - f as real));
    var eps := Wait(cfg, (cfg.capacity - Gain(cfg, cfg.interval)) / 2.0);
    if d > cfg.interval {
      GainAdds(cfg, cfg.interval, d - cfg.interval);
    }
    var T := d + cfg.interval + eps;
    var events := ToppedBursts(f, d, T);
    var s0 := State(map[], 0.0);
    assert AllAdmitted(cfg, s0, events) by {
      var x := cfg.capacity - f as real;
      var e0, e1, e2, e3 := Event("c", 0.0), Event("c", d), Event("c", T), Event("c", T + d);
      var a, b := Repeat(e0, f), Repeat(e2, f);
      FreshBurst(cfg, s0, e0, f);
      OneMore(cfg, After(cfg, s0, a), e1, x, d);
      InTwoParts(cfg, s0, a, [e1]);
      var s2 := After(cfg, s0, a + [e1]);
      FreshBurst(cfg, s2, e2, f);
      OneMore(cfg, After(cfg, s2, b), e3, x, d);
      InTwoParts(cfg, s2, b, [e3]);
      InTwoParts(cfg, s0, a + [e1], b + [e3]);
    }
    AllCounted(cfg, s0, events, "c", 0.0, T + d);
    GainAdds(cfg, d, d);
    GainAdds(cfg, cfg.interval, eps);
    GainAdds(cfg, d + d, cfg.interval + eps);
    assert T + d == (d + d) + (cfg.interval + eps);
    OneClient(events, "c");
    ToppedOrder(f, d, T);
    assert !Bounded(cfg, 0.0, events, "c", 0.0, T + d);
  }

  /** The first request of a client is always admitted, so a capacity below one cannot bound it. */
  lemma TinyCapacity(cfg: Config)
    requires WellFormed(cfg) && cfg.capacity < 1.0
    ensures OneClientExceeds(cfg)
  {
    var e := Event("c", 0.0);
    var events := [e];
    var s0 := State(map[], 0.0);
    AllCounted(cfg, s0, events, "c", 0.0, 0.0);
    OneClient(events, "c");
    GainAdds(cfg, 0.0, 0.0);
    assert InOrder(0.0, events);
    assert !Bounded(cfg, 0.0, events, "c", 0.0, 0.0);
  }
}
