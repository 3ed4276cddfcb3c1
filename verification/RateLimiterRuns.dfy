/**
 * Whole runs of the rate limiter, evictions included: which decisions are
 * possible, and exactly when the limiter keeps its promise on all of them.
 */
module RateLimiterRuns {
  import opened Numbers
  import opened TokenBucket
  import opened LateRequests

  /**
   * The victim of an eviction: some client's bucket, and an oldest one unless
   * an empty client address is among the keys, which the scan treats as "none yet".
   */
  ghost predicate Evictable(m: map<string, Bucket>, victim: string) {
    victim in m && ("" !in m ==> forall c :: c in m ==> m[victim].lastUpdate <= m[c].lastUpdate)
  }

  function Without(s: State, victim: string): State {
    State(s.buckets - {victim}, s.lastCleanup)
  }

  /** What one request may leave behind: the bucket policy, after an eviction when there is no room. */
  ghost predicate StepsTo(cfg: Config, s: State, e: Event, s': State) {
    if HasRoom(cfg, s, e) then s' == Next(cfg, s, e)
    else
      var c := Cleaned(cfg, s, e.at);
      exists victim :: Evictable(c.buckets, victim) && s' == Next(cfg, Without(c, victim), e)
  }

  /** The requests can be decided as ds, leaving s'. */
  ghost predicate Reaches(cfg: Config, s: State, events: seq<Event>, ds: seq<bool>, s': State)
    decreases |events|
  {
    if events == [] then ds == [] && s' == s
    else
      && |ds| == |events| && ds[0] == Admits(cfg, s, events[0])
      && exists mid :: StepsTo(cfg, s, events[0], mid) && Reaches(cfg, mid, events[1..], ds[1..], s')
  }

  lemma {:induction false} ReachesLength(cfg: Config, s: State, events: seq<Event>, ds: seq<bool>, s': State)
    requires Reaches(cfg, s, events, ds, s')
    ensures |ds| == |events|
  {
  }

  lemma ReachesStep(cfg: Config, s: State, e: Event, mid: State, events: seq<Event>, ds: seq<bool>, s': State)
    requires StepsTo(cfg, s, e, mid) && Reaches(cfg, mid, events, ds, s')
    ensures Reaches(cfg, s, [e] + events, [Admits(cfg, s, e)] + ds, s')
  {
    ReachesLength(cfg, mid, events, ds, s');
    assert ([e] + events)[1..] == events && ([Admits(cfg, s, e)] + ds)[1..] == ds;
  }

  lemma {:induction false} ReachesThrough(cfg: Config, s: State, a: seq<Event>, da: seq<bool>, mid: State,
                                          b: seq<Event>, db: seq<bool>, s': State)
    requires Reaches(cfg, s, a, da, mid) && Reaches(cfg, mid, b, db, s')
    ensures Reaches(cfg, s, a + b, da + db, s')
    decreases |a|
  {
    if a == [] {
      assert a + b == b && da + db == db;
    } else {
      var next :| StepsTo(cfg, s, a[0], next) && Reaches(cfg, next, a[1..], da[1..], mid);
      ReachesThrough(cfg, next, a[1..], da[1..], mid, b, db, s');
      ReachesStep(cfg, s, a[0], next, a[1..] + b, da[1..] + db, s');
      Reassemble(a, b);
      Reassemble(da, db);
    }
  }

  lemma Reassemble<T>(a: seq<T>, b: seq<T>)
    requires a != []
    ensures [a[0]] + (a[1..] + b) == a + b
  {
  }

  lemma ReachesOne(cfg: Config, s: State, e: Event, s': State)
    requires StepsTo(cfg, s, e, s')
    ensures Reaches(cfg, s, [e], [Admits(cfg, s, e)], s')
  {
    ReachesStep(cfg, s, e, s', [], [], s');
    assert [e] + [] == [e] && [Admits(cfg, s, e)] + [] == [Admits(cfg, s, e)];
  }

  /** With room throughout there is one way to decide: the bucket policy. */
  lemma {:induction false} RoomDecides(cfg: Config, s: State, events: seq<Event>, ds: seq<bool>, s': State)
    requires RoomThroughout(cfg, s, events)
    ensures Reaches(cfg, s, events, ds, s') <==> ds == Decisions(cfg, s, events) && s' == After(cfg, s, events)
    decreases |events|
  {
    if events != [] {
      var next := Next(cfg, s, events[0]);
      assert StepsTo(cfg, s, events[0], next);
      if |ds| == |events| {
        RoomDecides(cfg, next, events[1..], ds[1..], s');
        assert ds == [ds[0]] + ds[1..];
      }
    }
  }

  // ---- the promise ----------------------------------------------------------------------

  /**
   * On every possible run of at most n clients, with stamps at most `late` behind,
   * each client is held to a full bucket plus what refills.
   */
  ghost predicate KeepsBound(cfg: Config, n: nat, late: real) {
    forall start: real, events, ds, last, client, s: real, t: real
      {:trigger Reaches(cfg, State(map[], start), events, ds, last), Held(cfg, events, ds, client, s, t)} ::
      && Timely(start, start, late, events) && |Clients(events)| <= n
      && Reaches(cfg, State(map[], start), events, ds, last)
      ==> Held(cfg, events, ds, client, s, t)
  }

  ghost predicate Held(cfg: Config, events: seq<Event>, ds: seq<bool>, client: string, s: real, t: real) {
    |ds| == |events| && s <= t ==>
      Admitted(events, ds, client, s, t) as real <= cfg.capacity + Gain(cfg, t - s)
  }

  /** A run of clients that fit is held to the bound. */
  lemma FittingRunHeld(cfg: Config, start: real, late: real, events: seq<Event>, ds: seq<bool>, last: State,
                       client: string, s: real, t: real)
    requires WellFormed(cfg) && cfg.capacity >= 1.0 && late >= 0.0
    requires Gain(cfg, Respite(cfg, |Clients(events)|, late)) >= cfg.capacity
    requires Timely(start, start, late, events) && |Clients(events)| <= cfg.maxClients
    requires Reaches(cfg, State(map[], start), events, ds, last)
    ensures Held(cfg, events, ds, client, s, t)
  {
    RoomForFew(cfg, State(map[], start), events, Clients(events));
    RoomDecides(cfg, State(map[], start), events, ds, last);
    WindowBound(cfg, start, late, events, client, s, t);
  }

  /** A run of clients that fit evicts none, so one that exceeds the bound is possible. */
  lemma ExceedingIsPossible(cfg: Config, few: nat, n: nat, late: real)
    requires WellFormed(cfg) && few <= n && few <= cfg.maxClients && Exceeds(cfg, few, late)
    ensures !KeepsBound(cfg, n, late)
  {
    var start: real, events, client, s: real, t: real :|
      && Timely(start, start, late, events) && |Clients(events)| <= few
      && !Bounded(cfg, start, events, client, s, t);
    var s0 := State(map[], start);
    RoomForFew(cfg, s0, events, Clients(events));
    var ds := Decisions(cfg, s0, events);
    RoomDecides(cfg, s0, events, ds, After(cfg, s0, events));
    assert !Held(cfg, events, ds, client, s, t);
  }

  lemma AloneInOrder(cfg: Config, late: real)
    requires late >= 0.0 && OneClientExceeds(cfg)
    ensures Exceeds(cfg, 1, late)
  {
    var start: real, events, client, s: real, t: real :|
      InOrder(start, events) && |Clients(events)| <= 1 && !Bounded(cfg, start, events, client, s, t);
    InOrderIsTimely(start, start, late, events);
  }

  // ---- one client too many -------------------------------------------------------------

  /** A name for each of the other clients. */
  function Name(k: nat): (r: string)
    ensures |r| == k && (k > 0 ==> r[0] == 'x')
  {
    if k == 0 then "" else "x" + Name(k - 1)
  }

  function Names(k: nat): (r: set<string>)
    ensures |r| == k && forall x <- r :: 1 <= |x| <= k && x[0] == 'x'
  {
    if k == 0 then {} else Names(k - 1) + {Name(k)}
  }

  /** The first k others, one request each, at time zero. */
  function Others(k: nat): (r: seq<Event>)
    ensures |r| == k
  {
    if k == 0 then [] else Others(k - 1) + [Event(Name(k), 0.0)]
  }

  /** Buckets of exactly these clients, all used last at time zero. */
  ghost predicate Holds(s: State, clients: set<string>) {
    s.lastCleanup == 0.0 && s.buckets.Keys == clients && forall c :: c in s.buckets ==> s.buckets[c].lastUpdate == 0.0
  }

  function AllTrue(k: nat): (r: seq<bool>)
    ensures |r| == k && forall i :: 0 <= i < k ==> r[i]
  {
    if k == 0 then [] else AllTrue(k - 1) + [true]
  }

  /** The first client and k others. */
  function Group(k: nat): (r: set<string>)
    ensures |r| == k + 1 && "c" in r
  {
    Names(k) + {"c"}
  }

  lemma NameIsNew(k: nat)
    ensures Name(k + 1) !in Group(k) && Group(k + 1) == Group(k) + {Name(k + 1)}
  {
  }

  /** A new client gets a bucket while there is room. */
  lemma Join(cfg: Config, s: State, client: string, clients: set<string>) returns (s': State)
    requires WellFormed(cfg) && Holds(s, clients) && client !in clients && |clients| < cfg.maxClients
    ensures StepsTo(cfg, s, Event(client, 0.0), s') && Admits(cfg, s, Event(client, 0.0))
    ensures Holds(s', clients + {client}) && s'.buckets[client] == Bucket(cfg.capacity - 1.0, 0.0)
  {
    s' := Next(cfg, s, Event(client, 0.0));
    assert |s.buckets| == |s.buckets.Keys|;
  }

  lemma OneMoreTrue(k: nat)
    ensures [true] + AllTrue(k) == AllTrue(k + 1)
  {
    assert forall i :: 0 <= i <= k ==> ([true] + AllTrue(k))[i] == AllTrue(k + 1)[i];
  }

  lemma OthersRemain(k: nat)
    ensures Group(k) - {"c"} + {Name(k + 1)} == Names(k + 1)
  {
    assert "c" !in Names(k);
  }

  /** One more of the others: its name is new to the group. */
  lemma Grows(k: nat)
    requires k > 0
    ensures Name(k) !in Group(k - 1) && |Group(k - 1)| == k && Group(k) == Group(k - 1) + {Name(k)}
    ensures Others(k) == Others(k - 1) + [Event(Name(k), 0.0)] && AllTrue(k) == AllTrue(k - 1) + [true]
  {
    NameIsNew(k - 1);
  }

  lemma Alone()
    ensures Group(0) == {"c"} && Others(0) == [] && AllTrue(0) == []
  {
  }

  /** While there is room each of the others gets its own bucket. */
  lemma {:induction false} Fill(cfg: Config, s: State, k: nat) returns (s': State)
    requires WellFormed(cfg) && k < cfg.maxClients && Holds(s, {"c"})
    ensures Reaches(cfg, s, Others(k), AllTrue(k), s') && Holds(s', Group(k))
  {
    if k == 0 {
      Alone();
      s' := s;
    } else {
      var before := Fill(cfg, s, k - 1);
      Grows(k);
      s' := FillOne(cfg, s, Others(k - 1), AllTrue(k - 1), before, Name(k), Group(k - 1));
    }
  }

  lemma FillOne(cfg: Config, s: State, events: seq<Event>, ds: seq<bool>, before: State, name: string,
                clients: set<string>) returns (s': State)
    requires WellFormed(cfg) && Reaches(cfg, s, events, ds, before)
    requires Holds(before, clients) && name !in clients && |clients| < cfg.maxClients
    ensures Reaches(cfg, s, events + [Event(name, 0.0)], ds + [true], s') && Holds(s', clients + {name})
  {
    s' := Join(cfg, before, name, clients);
    ReachesOne(cfg, before, Event(name, 0.0), s');
    ReachesThrough(cfg, s, events, ds, before, [Event(name, 0.0)], [true], s');
  }

  /** With no room left, the arrival of a client can cost any other its bucket. */
  lemma Evict(cfg: Config, s: State, client: string, victim: string, clients: set<string>) returns (s': State)
    requires WellFormed(cfg) && Holds(s, clients) && victim in clients && client !in clients
        && |clients| == cfg.maxClients
    ensures Reaches(cfg, s, [Event(client, 0.0)], [true], s') && Holds(s', clients - {victim} + {client})
    ensures s'.buckets[client] == Bucket(cfg.capacity - 1.0, 0.0)
  {
    var e := Event(client, 0.0);
    assert |s.buckets| == |s.buckets.Keys|;
    s' := Next(cfg, Without(s, victim), e);
    assert Evictable(s.buckets, victim);
    assert StepsTo(cfg, s, e, s');
    ReachesOne(cfg, s, e, s');
  }

  /** A bucket of k tokens is spent at once. */
  lemma {:induction false} Spend(cfg: Config, s: State, x: real, k: nat, clients: set<string>) returns (s': State)
    requires WellFormed(cfg) && Holds(s, clients) && "c" in clients
    requires s.buckets["c"].tokens == x && k as real <= x <= cfg.capacity
    ensures Reaches(cfg, s, Repeat(Event("c", 0.0), k), AllTrue(k), s') && Holds(s', clients)
    decreases k
  {
    if k == 0 {
      s' := s;
    } else {
      var e := Event("c", 0.0);
      var next := Next(cfg, s, e);
      assert StepsTo(cfg, s, e, next);
      s' := Spend(cfg, next, x - 1.0, k - 1, clients);
      OneMoreTrue(k - 1);
    }
  }

  lemma {:induction false} BurstCounted(k: nat)
    ensures Admitted(Repeat(Event("c", 0.0), k), AllTrue(k), "c", 0.0, 0.0) == k
  {
    if k > 0 {
      OneMoreTrue(k - 1);
      BurstCounted(k - 1);
    }
  }

  /** A burst, every other client once, and another burst: all at time zero. */
  function Crowd(f: nat, others: nat): seq<Event> {
    Repeat(Event("c", 0.0), f) + Others(others) + Repeat(Event("c", 0.0), f)
  }

  lemma {:induction false} OthersMembers(k: nat)
    ensures forall e <- Others(k) :: e.at == 0.0 && e.client in Names(k)
  {
    if k > 0 {
      OthersMembers(k - 1);
    }
  }

  lemma CrowdClients(f: nat, others: nat)
    ensures |Clients(Crowd(f, others))| <= others + 1
  {
    var events, all := Crowd(f, others), Names(others) + {"c"};
    OthersMembers(others);
    forall i | 0 <= i < |events| ensures events[i].client in all {
      assert events[i] in events;
    }
    SubsetSize(Clients(events), all);
  }

  lemma {:induction false} AllAtZero(events: seq<Event>)
    requires forall e <- events :: e.at == 0.0
    ensures InOrder(0.0, events)
    decreases |events|
  {
    if events != [] {
      assert events[0] in events;
      AllAtZero(events[1..]);
    }
  }

  /** A client without a bucket spends a whole capacity at once. */
  lemma BurstAdmitted(cfg: Config, s: State, s1: State, f: nat, clients: set<string>) returns (s2: State)
    requires WellFormed(cfg) && 1 <= f && f as real <= cfg.capacity
    requires Reaches(cfg, s, [Event("c", 0.0)], [true], s1) && Holds(s1, clients) && "c" in clients
    requires s1.buckets["c"] == Bucket(cfg.capacity - 1.0, 0.0)
    ensures Reaches(cfg, s, Repeat(Event("c", 0.0), f), AllTrue(f), s2) && Holds(s2, clients)
  {
    var e := Event("c", 0.0);
    s2 := Spend(cfg, s1, cfg.capacity - 1.0, f - 1, clients);
    ReachesThrough(cfg, s, [e], [true], s1, Repeat(e, f - 1), AllTrue(f - 1), s2);
    OneMoreTrue(f - 1);
  }

  /** The others arrive; the last of them can cost the first client its spent bucket. */
  lemma CrowdArrives(cfg: Config, s: State) returns (s': State)
    requires WellFormed(cfg) && Holds(s, {"c"})
    ensures Reaches(cfg, s, Others(cfg.maxClients), AllTrue(cfg.maxClients), s') && Holds(s', Names(cfg.maxClients))
  {
    var m := cfg.maxClients - 1;
    var last := Event(Name(m + 1), 0.0);
    var full := Fill(cfg, s, m);
    NameIsNew(m);
    s' := Evict(cfg, full, Name(m + 1), "c", Group(m));
    OthersRemain(m);
    ReachesThrough(cfg, s, Others(m), AllTrue(m), full, [last], [true], s');
  }

  lemma CrowdAdmitted(cfg: Config, f: nat) returns (last: State)
    requires WellFormed(cfg) && 1 <= f && f as real <= cfg.capacity
    ensures Reaches(cfg, State(map[], 0.0), Crowd(f, cfg.maxClients), AllTrue(f) + AllTrue(cfg.maxClients)
        + AllTrue(f), last)
  {
    var e, m := Event("c", 0.0), cfg.maxClients;
    var s0 := State(map[], 0.0);
    var s1 := Join(cfg, s0, "c", {});
    ReachesOne(cfg, s0, e, s1);
    var s2 := BurstAdmitted(cfg, s0, s1, f, {"c"});
    var s3 := CrowdArrives(cfg, s2);
    var s4 := Evict(cfg, s3, "c", Name(m), Names(m));
    last := BurstAdmitted(cfg, s3, s4, f, Names(m) - {Name(m)} + {"c"});
    ReachesThrough(cfg, s0, Repeat(e, f), AllTrue(f), s2, Others(m), AllTrue(m), s3);
    ReachesThrough(cfg, s0, Repeat(e, f) + Others(m), AllTrue(f) + AllTrue(m), s3, Repeat(e, f), AllTrue(f), last);
  }

  lemma CrowdCounted(f: nat, m: nat)
    ensures Admitted(Crowd(f, m), AllTrue(f) + AllTrue(m) + AllTrue(f), "c", 0.0, 0.0) >= 2 * f
  {
    var burst := Repeat(Event("c", 0.0), f);
    BurstCounted(f);
    CountedInParts(burst, AllTrue(f), Others(m), AllTrue(m), "c", 0.0, 0.0);
    CountedInParts(burst + Others(m), AllTrue(f) + AllTrue(m), burst, AllTrue(f), "c", 0.0, 0.0);
  }

  lemma CrowdInOrder(f: nat, m: nat)
    ensures InOrder(0.0, Crowd(f, m))
  {
    OthersMembers(m);
    AllAtZero(Crowd(f, m));
  }

  /** One client more than the limiter keeps: a client evicted in time spends its capacity twice at once. */
  lemma CrowdExceeds(cfg: Config, n: nat, late: real)
    requires WellFormed(cfg) && cfg.capacity >= 1.0 && n > cfg.maxClients && late >= 0.0
    ensures !KeepsBound(cfg, n, late)
  {
    var f, m := cfg.capacity.Floor, cfg.maxClients;
    var events, all := Crowd(f, m), AllTrue(f) + AllTrue(m) + AllTrue(f);
    var last := CrowdAdmitted(cfg, f);
    CrowdInOrder(f, m);
    InOrderIsTimely(0.0, 0.0, late, events);
    CrowdClients(f, m);
    CrowdCounted(f, m);
    assert Gain(cfg, 0.0 - 0.0) == 0.0;
    assert !Held(cfg, events, all, "c", 0.0, 0.0);
  }

  /**
   * The limiter keeps its promise on every run of at most n clients, with stamps at
   * most `late` behind the newest, exactly when the capacity is at least one
   * request, all n clients fit, and a whole bucket refills in the time that surely
   * passes from a client's emptying its bucket until it can get a new one.
   */
  lemma BoundExactly(cfg: Config, n: nat, late: real)
    requires WellFormed(cfg) && n >= 1 && late >= 0.0
    ensures KeepsBound(cfg, n, late) <==>
              cfg.capacity >= 1.0 && n <= cfg.maxClients && Gain(cfg, Respite(cfg, n, late)) >= cfg.capacity
  {
    if cfg.capacity < 1.0 {
      TinyCapacity(cfg);
      AloneInOrder(cfg, late);
      ExceedingIsPossible(cfg, 1, n, late);
    } else if n > cfg.maxClients {
      CrowdExceeds(cfg, n, late);
    } else if Gain(cfg, Respite(cfg, n, late)) < cfg.capacity {
      ShortRespite(cfg, n, late);
      ExceedingIsPossible(cfg, n, n, late);
    } else {
      forall start: real, events, ds, last, client, s: real, t: real |
        && Timely(start, start, late, events) && |Clients(events)| <= n
        && Reaches(cfg, State(map[], start), events, ds, last)
        ensures Held(cfg, events, ds, client, s, t)
      {
        GainOrder(cfg, Respite(cfg, n, late), Respite(cfg, |Clients(events)|, late));
        FittingRunHeld(cfg, start, late, events, ds, last, client, s, t);
      }
    }
  }

  /** A respite in which no whole bucket refills is exceeded: in time order if refill is slow, else by late requests. */
  lemma ShortRespite(cfg: Config, n: nat, late: real)
    requires WellFormed(cfg) && cfg.capacity >= 1.0 && n >= 1 && late >= 0.0
    requires Gain(cfg, Respite(cfg, n, late)) < cfg.capacity
    ensures Exceeds(cfg, n, late)
  {
    if Gain(cfg, cfg.interval) < cfg.capacity {
      var f := cfg.capacity.Floor;
      if Gain(cfg, cfg.interval) < f as real - (cfg.capacity - f as real) {
        TwoBursts(cfg, f);
      } else {
        TwoToppedBursts(cfg, f);
      }
      AloneInOrder(cfg, late);
    } else if n == 1 {
      LateAlone(cfg, late);
    } else {
      LateAmongOthers(cfg, n, late);
    }
  }

  /**
   * Such a run in numbers: one token a second, two at most, an interval of two
   * seconds, and stamps 10, 10, 8.5, 11, 11. The one that is late makes the client
   * look idle at 11, and four requests are admitted where three are promised.
   */
  lemma LateRun()
    ensures var cfg := Config(1.0, 2.0, 2.0, 1);
            var events := [Event("c", 10.0), Event("c", 10.0), Event("c", 8.5), Event("c", 11.0), Event("c", 11.0)];
            && Timely(8.5, 8.5, 1.5, events) && Gain(cfg, cfg.interval) >= cfg.capacity
            && Decisions(cfg, State(map[], 8.5), events) == [true, true, false, true, true]
            && !Bounded(cfg, 8.5, events, "c", 10.0, 11.0)
  {
  }
}
