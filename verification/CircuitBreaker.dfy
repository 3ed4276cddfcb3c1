/**
 * The circuit breaker. A call has a first half, which admits or rejects it, and a
 * second half, which records its result; halves of different calls interleave
 * freely, and a call may finish long after the breaker has changed state.
 */
module CircuitBreaker {
  datatype State = Closed | HalfOpen | Open

  datatype Breaker = Breaker(state: State, failures: nat, changed: int)

  datatype Config = Config(threshold: nat, resetTimeout: int)

  /** The first half, at an instant; the state change is stamped a moment later. */
  function Begin(cfg: Config, b: Breaker, now: int, later: int): (Breaker, bool) {
    if b.state.Open? then
      if now - b.changed > cfg.resetTimeout then (b.(state := HalfOpen, changed := later), true) else (b, false)
    else (b, true)
  }

  function End(cfg: Config, b: Breaker, now: int, failed: bool): Breaker {
    if failed then
      if b.failures + 1 >= cfg.threshold then Breaker(Open, b.failures + 1, now) else b.(failures := b.failures + 1)
    else if b.state.HalfOpen? then Breaker(Closed, 0, now)
    else b
  }

  /** A half of some call, at a time. */
  datatype Event = Begins(now: int, later: int) | Ends(now: int, failed: bool)

  /** The breaker, the time, and the instants at which it has opened or opened again. */
  datatype History = History(breaker: Breaker, clock: int, openings: seq<int>)

  predicate Timely(h: History, e: Event) {
    h.clock <= e.now && (e.Begins? ==> e.now <= e.later)
  }

  function Opens(cfg: Config, b: Breaker, e: Event): bool {
    e.Ends? && e.failed && b.failures + 1 >= cfg.threshold
  }

  function Step(cfg: Config, h: History, e: Event): History {
    match e
    case Begins(now, later) => h.(breaker := Begin(cfg, h.breaker, now, later).0, clock := later)
    case Ends(now, failed) =>
      History(End(cfg, h.breaker, now, failed), now, if Opens(cfg, h.breaker, e) then h.openings + [now]
        else h.openings)
  }

  ghost predicate Run(cfg: Config, states: seq<History>, events: seq<Event>) {
    && |states| == |events| + 1 && states[0].breaker == Breaker(Closed, 0, 0) && states[0].openings == []
    && forall i :: 0 <= i < |events| ==>
      Timely(states[i], events[i]) && states[i + 1] == Step(cfg, states[i], events[i])
  }

  ghost predicate Kept(cfg: Config, h: History) {
    && (h.breaker.state.Closed? <==> h.breaker.failures < cfg.threshold)
    && (h.breaker.state.Open? ==>
          h.openings != [] && h.openings[|h.openings| - 1] == h.breaker.changed <= h.clock
          && forall t <- h.openings :: t <= h.breaker.changed)
    && (!h.breaker.state.Open? ==> forall t <- h.openings :: h.clock > t + cfg.resetTimeout)
  }

  lemma StepKeeps(cfg: Config, h: History, e: Event)
    requires cfg.threshold > 0 && cfg.resetTimeout > 0 && Kept(cfg, h) && Timely(h, e)
    ensures Kept(cfg, Step(cfg, h, e))
  {
    var n := Step(cfg, h, e);
    forall t | t in n.openings && n.breaker.state.Open? ensures t <= n.breaker.changed {
      assert t in h.openings ==> t <= h.clock;
    }
  }

  lemma {:induction false} RunKeeps(cfg: Config, states: seq<History>, events: seq<Event>, i: nat)
    requires cfg.threshold > 0 && cfg.resetTimeout > 0 && Run(cfg, states, events) && i < |states|
    ensures Kept(cfg, states[i])
  {
    if i > 0 {
      RunKeeps(cfg, states, events, i - 1);
      StepKeeps(cfg, states[i - 1], events[i - 1]);
    }
  }

  /**
   * In every interleaving the breaker is closed exactly when its failures are
   * below the threshold, and a call is admitted exactly when strictly more than
   * the reset timeout has passed since every opening so far.
   */
  lemma AdmittedExactly(cfg: Config, states: seq<History>, events: seq<Event>, i: nat)
    requires cfg.threshold > 0 && cfg.resetTimeout > 0 && Run(cfg, states, events) && i < |events|
    ensures states[i].breaker.state.Closed? <==> states[i].breaker.failures < cfg.threshold
    ensures events[i].Begins? ==>
      (Begin(cfg, states[i].breaker, events[i].now, events[i].later).1
       <==> forall t <- states[i].openings :: events[i].now > t + cfg.resetTimeout)
  {
    RunKeeps(cfg, states, events, i);
    var h := states[i];
    if h.breaker.state.Open? {
      assert h.openings[|h.openings| - 1] in h.openings;
    }
  }

  /** A call that was let through to probe succeeds: the breaker closes again. */
  predicate Recovers(h: History, e: Event) {
    h.breaker.state.HalfOpen? && e.Ends? && !e.failed
  }

  /** How many calls have failed since the breaker was new or last closed again. */
  ghost function FailedSince(states: seq<History>, events: seq<Event>, i: nat): nat
    requires i <= |events| < |states|
  {
    if i == 0 || Recovers(states[i - 1], events[i - 1]) then 0
    else FailedSince(states, events, i - 1) + if events[i - 1].Ends? && events[i - 1].failed then 1 else 0
  }

  /** Successes of a closed breaker forgive nothing: it is closed exactly while all failures since are too few. */
  lemma {:induction false} ClosedExactly(cfg: Config, states: seq<History>, events: seq<Event>, i: nat)
    requires cfg.threshold > 0 && cfg.resetTimeout > 0 && Run(cfg, states, events) && i < |states|
    ensures states[i].breaker.failures == FailedSince(states, events, i)
    ensures states[i].breaker.state.Closed? <==> FailedSince(states, events, i) < cfg.threshold
  {
    RunKeeps(cfg, states, events, i);
    if i > 0 {
      ClosedExactly(cfg, states, events, i - 1);
      assert states[i] == Step(cfg, states[i - 1], events[i - 1]);
    }
  }

  /** The breaker opens, or opens again, exactly when a call fails and the failures since are enough. */
  lemma {:induction false} OpeningsExactly(cfg: Config, states: seq<History>, events: seq<Event>, i: nat, t: int)
    requires cfg.threshold > 0 && cfg.resetTimeout > 0 && Run(cfg, states, events) && i < |states|
    ensures t in states[i].openings <==>
              exists k :: 0 <= k < i && OpensAt(cfg, states, events, k, t)
  {
    if i > 0 {
      OpeningsExactly(cfg, states, events, i - 1, t);
      ClosedExactly(cfg, states, events, i - 1);
      assert states[i] == Step(cfg, states[i - 1], events[i - 1]);
      assert t in states[i].openings <==> t in states[i - 1].openings || OpensAt(cfg, states, events, i - 1, t);
    }
  }

  ghost predicate OpensAt(cfg: Config, states: seq<History>, events: seq<Event>, k: nat, t: int)
    requires k < |events| < |states|
  {
    events[k] == Ends(t, true) && FailedSince(states, events, k) + 1 >= cfg.threshold
  }

  /** The breaker as the source holds it; Execute's two locked sections are the methods. */
  class CircuitBreaker {
    const cfg: Config
    var state: State
    var failures: nat
    var lastStateChg: int

    function Value(): Breaker
      reads this
    {
      Breaker(state, failures, lastStateChg)
    }

    constructor (threshold: int, resetTimeout: int)
      ensures cfg.threshold == (if threshold <= 0 then 5 else threshold)
      ensures cfg.resetTimeout == (if resetTimeout <= 0 then 10_000_000_000 else resetTimeout)
      ensures Value() == Breaker(Closed, 0, 0)
    {
      var failuresAllowed: nat := if threshold <= 0 then 5 else threshold;
      cfg := Config(failuresAllowed, if resetTimeout <= 0 then 10_000_000_000 else resetTimeout);
      state, failures, lastStateChg := Closed, 0, 0;
    }

    method BeginCall(now: int, later: int) returns (admitted: bool)
      modifies this
      ensures (Value(), admitted) == Begin(cfg, old(Value()), now, later)
    {
      if state == Open {
        if now - lastStateChg > cfg.resetTimeout {
          state := HalfOpen;
          lastStateChg := later;
        } else {
          return false;
        }
      }
      admitted := true;
    }

    method EndCall(now: int, failed: bool)
      modifies this
      ensures Value() == End(cfg, old(Value()), now, failed)
    {
      if failed {
        failures := failures + 1;
        if failures >= cfg.threshold {
          state := Open;
          lastStateChg := now;
        }
        return;
      }
      if state == HalfOpen {
        state := Closed;
        failures := 0;
        lastStateChg := now;
      }
    }
  }
}
