/**
 * Requests whose stamps are behind. A late request turns its client's bucket back,
 * so that cleanup takes the client for idle too early; and a client that comes back
 * late to a new bucket can spend it earlier still.
 */
module LateRequests {
  import opened Numbers
  import opened TokenBucket

  /**
   * A client that empties a full bucket as soon as it can: f requests at once, and
   * one more d later unless the capacity is a whole number.
   */
  datatype Burn = Burn(f: nat, more: bool, d: real)

  function Requests(burn: Burn, client: string, at: real): (r: seq<Event>)
    ensures forall i :: 0 <= i < |r| ==> r[i].client == client && r[i].at in {at, at + burn.d}
  {
    Repeat(Event(client, at), burn.f) + if burn.more then [Event(client, at + burn.d)] else []
  }

  function Size(burn: Burn): nat {
    burn.f + if burn.more then 1 else 0
  }

  /** The burn takes a full bucket and all that refills during it. */
  ghost predicate Empties(cfg: Config, burn: Burn) {
    && burn.f >= 1 && burn.f as real <= cfg.capacity && 0.0 <= burn.d < cfg.interval
    && Size(burn) as real == cfg.capacity + Gain(cfg, burn.d)
    && (!burn.more ==> burn.d == 0.0)
  }

  lemma SomeBurn(cfg: Config) returns (burn: Burn)
    requires WellFormed(cfg) && cfg.capacity >= 1.0 && Gain(cfg, cfg.interval) >= cfg.capacity
    ensures Empties(cfg, burn)
  {
    var f := cfg.capacity.Floor;
    if f as real == cfg.capacity {
      burn := Burn(f, false, 0.0);
      GainAdds(cfg, 0.0, 0.0);
    } else {
      var d := Wait(cfg, f as real + 1.0 - cfg.capacity);
      GainOrder(cfg, cfg.interval, d);
      burn := Burn(f, true, d);
    }
  }

  /** Without a bucket, and with no cleanup due during the burn, every request of it is admitted. */
  lemma BurnAdmitted(cfg: Config, s: State, burn: Burn, client: string, at: real)
    requires WellFormed(cfg) && Empties(cfg, burn) && client !in Cleaned(cfg, s, at).buckets
    requires at + burn.d - Cleaned(cfg, s, at).lastCleanup < cfg.interval
    ensures AllAdmitted(cfg, s, Requests(burn, client, at))
    ensures var s' := After(cfg, s, Requests(burn, client, at));
            && s'.lastCleanup == Cleaned(cfg, s, at).lastCleanup
            && client in s'.buckets && s'.buckets[client] == Bucket(0.0, at + burn.d)
  {
    var e := Event(client, at);
    FreshBurst(cfg, s, e, burn.f);
    if burn.more {
      var s1, e1 := After(cfg, s, Repeat(e, burn.f)), Event(client, at + burn.d);
      assert at + burn.d - at == burn.d;
      LastToken(cfg, s1, e1, burn.d);
      InTwoParts(cfg, s, Repeat(e, burn.f), [e1]);
    } else {
      assert Repeat(e, burn.f) + [] == Repeat(e, burn.f);
    }
  }

  lemma LastToken(cfg: Config, s: State, e: Event, d: real)
    requires WellFormed(cfg) && cfg.capacity >= 1.0 && e.at - s.lastCleanup < cfg.interval
    requires e.client in s.buckets && s.buckets[e.client].lastUpdate == e.at - d
    requires s.buckets[e.client].tokens + Gain(cfg, d) == 1.0
    ensures AllAdmitted(cfg, s, [e])
    ensures var s' := After(cfg, s, [e]);
            s'.lastCleanup == s.lastCleanup && e.client in s'.buckets && s'.buckets[e.client] == Bucket(0.0, e.at)
  {
    assert e.at - (e.at - d) == d;
    assert [e][1..] == [];
    assert After(cfg, s, [e]) == Next(cfg, s, e);
  }

  lemma BurnCounted(cfg: Config, state: State, burn: Burn, client: string, at: real, s: real, t: real)
    requires AllAdmitted(cfg, state, Requests(burn, client, at)) && s <= at && 0.0 <= burn.d && at + burn.d <= t
    ensures var r := Requests(burn, client, at); Admitted(r, Decisions(cfg, state, r), client, s, t) == Size(burn)
  {
    AllCounted(cfg, state, Requests(burn, client, at), client, s, t);
  }

  /** A late request finds the bucket empty and turns it back. */
  lemma TurnsBack(cfg: Config, s: State, e: Event, late: real)
    requires WellFormed(cfg) && late >= 0.0 && e.at - s.lastCleanup < cfg.interval
    requires e.client in s.buckets && s.buckets[e.client] == Bucket(0.0, e.at + late)
    ensures var s' := After(cfg, s, [e]);
            s'.lastCleanup == s.lastCleanup && e.client in s'.buckets && s'.buckets[e.client].lastUpdate == e.at
  {
    assert e.at - (e.at + late) == -late;
    GainOrder(cfg, -late, 0.0);
    assert Gain(cfg, 0.0) == 0.0;
    assert [e][1..] == [];
    assert After(cfg, s, [e]) == Next(cfg, s, e);
  }

  // ---- the run ----------------------------------------------------------------------------

  /** A burn at 0, a late request turning the bucket back, perhaps another client's request, and a burn at `again`. */
  datatype Plan = Plan(burn: Burn, back: real, others: seq<Event>, again: real)

  function Opening(p: Plan): seq<Event> {
    Requests(p.burn, "c", 0.0) + [Event("c", p.burn.d - p.back)]
  }

  function Whole(p: Plan): seq<Event> {
    Opening(p) + p.others + Requests(p.burn, "c", p.again)
  }

  /** No older than any stamp of the run. */
  function Start(p: Plan): real {
    if p.burn.d - p.back < 0.0 then p.burn.d - p.back else 0.0
  }

  lemma OpeningLeaves(cfg: Config, p: Plan)
    requires WellFormed(cfg) && cfg.capacity >= 1.0 && Empties(cfg, p.burn) && 0.0 <= p.back < cfg.interval
    ensures var s0 := State(map[], Start(p));
            var s1 := After(cfg, s0, Opening(p));
            && s1.lastCleanup == Start(p) && "c" in s1.buckets && s1.buckets["c"].lastUpdate == p.burn.d - p.back
            && AllAdmitted(cfg, s0, Requests(p.burn, "c", 0.0))
  {
    var s0, r := State(map[], Start(p)), Requests(p.burn, "c", 0.0);
    BurnAdmitted(cfg, s0, p.burn, "c", 0.0);
    var e := Event("c", p.burn.d - p.back);
    TurnsBack(cfg, After(cfg, s0, r), e, p.back);
    DecidedInParts(cfg, s0, r, [e]);
  }

  /** Both burns are admitted in full. */
  lemma BothCounted(cfg: Config, p: Plan)
    requires WellFormed(cfg) && cfg.capacity >= 1.0 && Empties(cfg, p.burn) && 0.0 <= p.back < cfg.interval
    requires p.again >= 0.0
    requires var s2 := After(cfg, State(map[], Start(p)), Opening(p) + p.others);
             && "c" !in Cleaned(cfg, s2, p.again).buckets
             && p.again + p.burn.d - Cleaned(cfg, s2, p.again).lastCleanup < cfg.interval
    ensures Admitted(Whole(p), Decisions(cfg, State(map[], Start(p)), Whole(p)), "c", 0.0, p.again + p.burn.d)
         >= 2 * Size(p.burn)
  {
    var s0 := State(map[], Start(p));
    var t := p.again + p.burn.d;
    var a, late, z := Requests(p.burn, "c", 0.0), [Event("c", p.burn.d - p.back)], Requests(p.burn, "c", p.again);
    OpeningLeaves(cfg, p);
    BurnCounted(cfg, s0, p.burn, "c", 0.0, 0.0, t);
    var s2 := After(cfg, s0, Opening(p) + p.others);
    BurnAdmitted(cfg, s2, p.burn, "c", p.again);
    BurnCounted(cfg, s2, p.burn, "c", p.again, 0.0, t);
    CountParts(cfg, s0, Opening(p) + p.others, z, "c", 0.0, t);
    CountParts(cfg, s0, Opening(p), p.others, "c", 0.0, t);
    CountParts(cfg, s0, a, late, "c", 0.0, t);
  }

  lemma CountParts(cfg: Config, state: State, a: seq<Event>, b: seq<Event>, client: string, s: real, t: real)
    ensures Admitted(a + b, Decisions(cfg, state, a + b), client, s, t)
         == Admitted(a, Decisions(cfg, state, a), client, s, t)
          + Admitted(b, Decisions(cfg, After(cfg, state, a), b), client, s, t)
  {
    DecidedInParts(cfg, state, a, b);
    CountedInParts(a, Decisions(cfg, state, a), b, Decisions(cfg, After(cfg, state, a), b), client, s, t);
  }

  /** Two full burns are too many when less than a bucket refills between them. */
  lemma TooMany(cfg: Config, p: Plan)
    requires WellFormed(cfg) && Empties(cfg, p.burn) && p.again >= 0.0 && Gain(cfg, p.again - p.burn.d) < cfg.capacity
    requires Admitted(Whole(p), Decisions(cfg, State(map[], Start(p)), Whole(p)), "c", 0.0, p.again + p.burn.d)
          >= 2 * Size(p.burn)
    ensures !Bounded(cfg, Start(p), Whole(p), "c", 0.0, p.again + p.burn.d)
  {
    GainAdds(cfg, p.again - p.burn.d, p.burn.d);
    assert (p.again - p.burn.d) + p.burn.d == p.again;
    GainAdds(cfg, p.again, p.burn.d);
    assert p.again + p.burn.d - 0.0 == p.again + p.burn.d;
  }

  // ---- stamps and clients of the run ---------------------------------------------------------

  function Newest(newest: real, events: seq<Event>): real
    decreases |events|
  {
    if events == [] then newest else Newest(Later(newest, events[0].at), events[1..])
  }

  lemma {:induction false} TimelyInParts(from: real, newest: real, late: real, a: seq<Event>, b: seq<Event>)
    requires Timely(from, newest, late, a) && Timely(from, Newest(newest, a), late, b)
    ensures Timely(from, newest, late, a + b) && Newest(newest, a + b) == Newest(Newest(newest, a), b)
    decreases |a|
  {
    if a == [] {
      assert a + b == b;
    } else {
      assert (a + b)[1..] == a[1..] + b && (a + b)[0] == a[0];
      TimelyInParts(from, Later(newest, a[0].at), late, a[1..], b);
    }
  }

  lemma TimelyOne(from: real, newest: real, late: real, e: Event)
    requires from <= e.at && newest - late <= e.at
    ensures Timely(from, newest, late, [e]) && Newest(newest, [e]) == Later(newest, e.at)
  {
    assert [e][1..] == [];
  }

  lemma {:induction false} TimelyRepeat(from: real, newest: real, late: real, e: Event, k: nat)
    requires from <= e.at && newest - late <= e.at && late >= 0.0
    ensures Timely(from, newest, late, Repeat(e, k))
    ensures Newest(newest, Repeat(e, k)) == if k == 0 then newest else Later(newest, e.at)
    decreases k
  {
    if k > 0 {
      TimelyRepeat(from, Later(newest, e.at), late, e, k - 1);
    }
  }

  lemma TimelyBurn(from: real, newest: real, late: real, burn: Burn, client: string, at: real)
    requires burn.f >= 1 && 0.0 <= burn.d && (!burn.more ==> burn.d == 0.0)
    requires from <= at && newest - late <= at && late >= 0.0
    ensures Timely(from, newest, late, Requests(burn, client, at))
    ensures Newest(newest, Requests(burn, client, at)) == Later(newest, at + burn.d)
  {
    TimelyRepeat(from, newest, late, Event(client, at), burn.f);
    if burn.more {
      TimelyOne(from, Later(newest, at), late, Event(client, at + burn.d));
      TimelyInParts(from, newest, late, Repeat(Event(client, at), burn.f), [Event(client, at + burn.d)]);
    } else {
      assert Repeat(Event(client, at), burn.f) + [] == Repeat(Event(client, at), burn.f);
    }
  }

  lemma TimelyPlan(cfg: Config, p: Plan, late: real)
    requires Empties(cfg, p.burn) && 0.0 <= p.back <= late
    requires Timely(Start(p), p.burn.d, late, p.others)
    requires p.again >= 0.0 && Newest(p.burn.d, p.others) - late <= p.again
    ensures Timely(Start(p), Start(p), late, Whole(p))
  {
    var from := Start(p);
    var a, back, z := Requests(p.burn, "c", 0.0), [Event("c", p.burn.d - p.back)], Requests(p.burn, "c", p.again);
    TimelyBurn(from, from, late, p.burn, "c", 0.0);
    TimelyOne(from, p.burn.d, late, Event("c", p.burn.d - p.back));
    TimelyInParts(from, from, late, a, back);
    TimelyInParts(from, from, late, Opening(p), p.others);
    TimelyBurn(from, Newest(p.burn.d, p.others), late, p.burn, "c", p.again);
    TimelyInParts(from, from, late, Opening(p) + p.others, z);
  }

  lemma PlanClients(p: Plan, clients: set<string>)
    requires "c" in clients && forall i :: 0 <= i < |p.others| ==> p.others[i].client in clients
    ensures |Clients(Whole(p))| <= |clients|
  {
    var events := Whole(p);
    forall i | 0 <= i < |events| ensures events[i].client in clients {
      assert events[i] in Requests(p.burn, "c", 0.0) || events[i] in [Event("c", p.burn.d - p.back)]
          || events[i] in p.others || events[i] in Requests(p.burn, "c", p.again);
    }
    SubsetSize(Clients(events), clients);
  }

  // ---- too short a respite ----------------------------------------------------------------------

  /** A shorter lateness that still leaves a positive respite of less than a bucket. */
  lemma Shorten(cfg: Config, n: nat, late: real) returns (used: real, slack: real)
    requires WellFormed(cfg) && late >= 0.0 && n >= 1
    requires Gain(cfg, Respite(cfg, n, late)) < cfg.capacity <= Gain(cfg, cfg.interval)
    ensures 0.0 <= used <= late && used < cfg.interval && slack > 0.0
    ensures Respite(cfg, n, used) > 0.0 && Gain(cfg, Respite(cfg, n, used) + slack) < cfg.capacity
  {
    var respite := Respite(cfg, n, late);
    var target := respite;
    if respite <= 0.0 {
      target := Wait(cfg, cfg.capacity / 2.0);
      GainOrder(cfg, cfg.interval, target);
    } else {
      GainOrder(cfg, cfg.interval, target);
    }
    used := if n <= 1 then cfg.interval - target else (cfg.interval - target) / 2.0;
    assert Respite(cfg, n, used) == target;
    slack := Wait(cfg, (cfg.capacity - Gain(cfg, target)) / 2.0);
    GainAdds(cfg, target, slack);
  }

  /** One client: a late request turns its bucket back, and its next request is taken for the first after idleness. */
  lemma LateAlone(cfg: Config, late: real)
    requires WellFormed(cfg) && cfg.capacity >= 1.0 && late >= 0.0
    requires Gain(cfg, Respite(cfg, 1, late)) < cfg.capacity <= Gain(cfg, cfg.interval)
    ensures Exceeds(cfg, 1, late)
  {
    var burn := SomeBurn(cfg);
    var used, slack := Shorten(cfg, 1, late);
    var p := Plan(burn, used, [], burn.d - used + cfg.interval + slack);
    var s0 := State(map[], Start(p));
    OpeningLeaves(cfg, p);
    assert Opening(p) + [] == Opening(p);
    assert p.again - burn.d == Respite(cfg, 1, used) + slack;
    BothCounted(cfg, p);
    TooMany(cfg, p);
    TimelyPlan(cfg, p, late);
    PlanClients(p, {"c"});
  }

  /** Two clients: the other's request cleans up, and the first comes back late to a new bucket. */
  lemma LateAmongOthers(cfg: Config, n: nat, late: real)
    requires WellFormed(cfg) && cfg.capacity >= 1.0 && late >= 0.0 && n >= 2
    requires Gain(cfg, Respite(cfg, n, late)) < cfg.capacity <= Gain(cfg, cfg.interval)
    ensures Exceeds(cfg, n, late)
  {
    var burn := SomeBurn(cfg);
    var used, slack := Shorten(cfg, n, late);
    var q := burn.d - used + cfg.interval + slack;
    var other := Event("d", q);
    var p := Plan(burn, used, [other], q - used);
    var s0 := State(map[], Start(p));
    OpeningLeaves(cfg, p);
    var s1 := After(cfg, s0, Opening(p));
    DecidedInParts(cfg, s0, Opening(p), [other]);
    assert [other][1..] == [];
    assert After(cfg, s1, [other]) == Next(cfg, s1, other);
    assert p.again - burn.d == Respite(cfg, n, used) + slack;
    BothCounted(cfg, p);
    TooMany(cfg, p);
    TimelyOne(Start(p), burn.d, late, other);
    TimelyPlan(cfg, p, late);
    PlanClients(p, {"c", "d"});
  }
}
