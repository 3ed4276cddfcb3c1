/**
 * The handler chain of a request. Handlers may call Next any number of times,
 * abort, fail, or swallow the failures of the handlers they call; the chain's
 * position is an 8-bit signed counter shared by all nested calls.
 */
module HandlerChain {
  import opened Numbers

  /** What one handler does, as it unfolds with the results of its calls to Next. */
  datatype Behaviour =
    | Return(failed: bool)
    | CallNext(onSuccess: Behaviour, onFailure: Behaviour)
    | CallAbort(rest: Behaviour)

  /** Panicked is Go's index out of range: it unwinds every handler. */
  datatype Outcome = Fine | Error | Panicked

  const ABORT_INDEX := 63

  type int8 = n: int | -128 <= n <= 127

  /** index++ wraps around. */
  function Increment(n: int8): int8 {
    if n == 127 then -128 else n + 1
  }

  /** The handlers 0 to n - 1, each once, in chain order. */
  predicate InOrder(log: seq<nat>) {
    forall i :: 0 <= i < |log| ==> log[i] == i
  }

  /** The fewest calls to Next the behaviour makes, whatever its calls return. */
  function FewestCalls(b: Behaviour): nat {
    match b
    case Return(_) => 0
    case CallNext(onSuccess, onFailure) => 1 + Min(FewestCalls(onSuccess), FewestCalls(onFailure))
    case CallAbort(rest) => FewestCalls(rest)
  }

  predicate NeverAborts(b: Behaviour) {
    match b
    case Return(_) => true
    case CallNext(onSuccess, onFailure) => NeverAborts(onSuccess) && NeverAborts(onFailure)
    case CallAbort(_) => false
  }

  class Context {
    const handlers: seq<Behaviour>
    var index: int8
    var aborted: bool
    ghost var log: seq<nat>
    ghost var calls: nat
    ghost var done: nat
    ghost var startedAtAbort: nat

    /**
     * log records the handlers in the order they started, calls the number of
     * calls to Next, done the handlers that returned to the loop without an error,
     * startedAtAbort how many had started when the chain was aborted. Until an
     * abort the counter is one less than calls and done together.
     */
    ghost predicate Valid()
      reads this
    {
      && |handlers| <= 127 && InOrder(log) && |log| <= |handlers| && done <= |log|
      && (aborted ==> |log| == startedAtAbort)
      && (!aborted ==> -1 <= index == calls + done - 1 && |log| == Min(index + 1, |handlers|))
    }

    /** What running any part of a chain keeps. The counter overflows exactly when calls and done together pass 128. */
    twostate predicate Ran(out: Outcome)
      reads this
    {
      && InOrder(log) && old(log) <= log && |log| <= |handlers|
      && (old(aborted) ==> aborted && log == old(log))
      && (out == Panicked <==> !aborted && calls + done > 128)
      && (out == Panicked ==> calls + done == 129)
      && (out != Panicked ==> Valid())
      && calls >= old(calls) && done >= old(done) && |log| - done >= |old(log)| - old(done)
      && (out != Panicked && !aborted ==> index >= old(index))
    }

    constructor (handlers: seq<Behaviour>)
      requires |handlers| <= 127
      ensures Valid() && this.handlers == handlers && log == [] && calls == 0 && !aborted && index == -1
    {
      this.handlers := handlers;
      index, aborted, log, calls := -1, false, [], 0;
      done, startedAtAbort := 0, 0;
    }

    ghost predicate NoneAborts() {
      forall b <- handlers :: NeverAborts(b)
    }

    ghost function Measure(): nat
      reads this
    {
      if aborted || index < -1 then 0 else 200 - index
    }

    /**
     * Every handler starts at most once and in chain order; none starts once the
     * chain is aborted; a call that succeeds without an abort leaves no handler
     * unstarted, and the first handler it starts makes all its calls.
     */
    method Next() returns (out: Outcome)
      requires Valid()
      modifies this
      ensures Ran(out)
      ensures calls > old(calls) && (out == Fine && !aborted ==> |log| == |handlers|)
      ensures out != Panicked && !old(aborted) && |old(log)| < |handlers| ==>
                calls > old(calls) + FewestCalls(handlers[|old(log)|])
      ensures !old(aborted) && NoneAborts() ==> !aborted
      decreases Measure(), 0
    {
      index := Increment(index);
      calls := calls + 1;
      while index < |handlers|
        invariant Turning(index)
        invariant calls > old(calls) && old(log) <= log && done >= old(done) && |log| - done >= |old(log)| - old(done)
        invariant old(aborted) ==> aborted && log == old(log)
        invariant !aborted && index != -128 ==> old(index) < index
        invariant !old(aborted) && |old(log)| < |handlers| ==>
                    log == old(log) || calls > old(calls) + FewestCalls(handlers[|old(log)|])
        invariant !old(aborted) && log == old(log) ==> index == Increment(old(index)) && !aborted
        invariant !old(aborted) && NoneAborts() ==> !aborted
        decreases !aborted, index >= 0, |handlers| - index
      {
        if aborted {
          break;
        }
        if index < 0 {
          return Panicked;
        }
        var result := Turn();
        if result != Fine {
          return result;
        }
      }
      out := Fine;
    }

    /** One turn of the loop: the handler at the counter runs, and the counter moves on if it does not fail. */
    method Turn() returns (out: Outcome)
      requires Turning(index) && !aborted && 0 <= index < |handlers|
      modifies this
      ensures if out == Fine then Turning(index) && (!aborted && index != -128 ==> old(index) < index) else Ran(out)
      ensures old(log) + [old(index)] <= log && done >= old(done) && |log| - done >= |old(log)| - old(done)
      ensures calls >= old(calls) && (out != Panicked ==> calls >= old(calls) + FewestCalls(handlers[old(index)]))
      ensures NoneAborts() ==> !aborted
      decreases Measure(), 2
    {
      log := log + [index];
      out := Execute(handlers[index]);
      if out != Fine {
        return;
      }
      index := Increment(index);
      done := done + 1;
    }

    /** Between the loop's turns: the counter has moved on, and wraps around past 127. */
    ghost predicate Turning(index: int8)
      reads this
    {
      && |handlers| <= 127 && InOrder(log) && |log| <= |handlers| && done <= |log|
      && (aborted ==> |log| == startedAtAbort)
      && (!aborted ==>
            if index == -128 then calls + done == 129
            else 0 <= index == calls + done - 1 && |log| == Min(index, |handlers|))
    }

    method Execute(b: Behaviour) returns (out: Outcome)
      requires Valid()
      modifies this
      ensures Ran(out)
      ensures out != Panicked ==> calls >= old(calls) + FewestCalls(b)
      ensures !old(aborted) && NeverAborts(b) && NoneAborts() ==> !aborted
      decreases Measure(), 1, b
    {
      match b {
        case Return(failed) =>
          out := if failed then Error else Fine;
        case CallNext(onSuccess, onFailure) =>
          var result := Next();
          if result == Panicked {
            return Panicked;
          }
          out := Execute(if result == Fine then onSuccess else onFailure);
        case CallAbort(rest) =>
          Abort();
          out := Execute(rest);
      }
    }

    method Abort()
      requires Valid()
      modifies this
      ensures Valid() && aborted && log == old(log) && calls == old(calls) && done == old(done)
    {
      startedAtAbort := |log|;
      index := ABORT_INDEX;
      aborted := true;
    }
  }

  /** A handler that calls Next k times and returns. */
  function Calling(k: nat): (b: Behaviour)
    ensures FewestCalls(b) == k && NeverAborts(b)
  {
    if k == 0 then Return(false) else CallNext(Calling(k - 1), Calling(k - 1))
  }

  /** It happens: any chain that never aborts and whose first handler calls Next at least 128 times panics. */
  method Overflows(handlers: seq<Behaviour>) returns (out: Outcome)
    requires 1 <= |handlers| <= 127 && forall b <- handlers :: NeverAborts(b)
    requires FewestCalls(handlers[0]) >= 128
    ensures out == Panicked
  {
    var context := new Context(handlers);
    out := context.Next();
  }

  /** One handler that calls Next 128 times. */
  method OverflowExample() returns (out: Outcome)
    ensures out == Panicked
  {
    out := Overflows([Calling(128)]);
  }
}
