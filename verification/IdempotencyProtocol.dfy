/**
 * Any number of concurrent requests with one scoped idempotency key, each
 * driven by the middleware: claim, poll, run the handler, complete or release.
 * A step is one store operation, one handler return, an arrival, the passing of
 * time, or a record leaving the store: a pending claim not before its deadline,
 * a completed record at any time, by expiry or eviction.
 */
module IdempotencyProtocol {
  import opened Options
  import opened IdempotencyRecords

  /** What the caller finally gets. */
  datatype Outcome =
    | Answered(response: Response)  // the response of its own handler
    | Replayed(response: Response)  // the response stored under the key
    | Conflict                      // the key was used with another request
    | GaveUp                        // canceled while polling, or refused by the store
    | StoreFailure                  // its own response could not be stored

  datatype Phase =
    | Claiming                       // claiming, or waiting to claim again
    | Running                        // the handler is in flight
    | Storing(response: Response)    // the handler returned a cacheable response
    | Releasing(response: Response)  // the handler failed, overflowed or did not answer 2xx
    | Abandoning                     // storing was refused, the claim is yet to be released
    | Finished(outcome: Outcome)

  /** since is the time of the claim the request acquired, once it has one. */
  datatype Request = Request(fingerprint: string, phase: Phase, since: int)

  /** Besides store and requests: how many records have gone, and how many from under their holder. */
  datatype State = State(
    now: int, record: Option<Record>, deadline: int, requests: map<string, Request>, gone: nat, lapses: nat)

  datatype Step =
    | Tick(time: int)
    | Arrive(owner: string, fingerprint: string)
    | ClaimStep(owner: string)
    | Cancel(owner: string)
    | HandlerReturns(owner: string, response: Response, cacheable: bool)
    | CompleteStep(owner: string)
    | CompleteRefused(owner: string)  // canceled, or out of retries: the store changes nothing
    | ReleaseStep(owner: string)
    | ReleaseRefused(owner: string)
    | Gone

  predicate Unfinished(p: Phase) {
    p.Releasing? || p.Abandoning?
  }

  ghost predicate Enabled(s: State, step: Step) {
    match step
    case Tick(time) => time >= s.now
    case Arrive(o, _) => o !in s.requests
    case ClaimStep(o) => o in s.requests && s.requests[o].phase == Claiming
    case Cancel(o) => o in s.requests && s.requests[o].phase == Claiming
    case HandlerReturns(o, response, cacheable) =>
      o in s.requests && s.requests[o].phase == Running && (cacheable ==> 200 <= response.status < 300)
    case CompleteStep(o) => o in s.requests && s.requests[o].phase.Storing?
    case CompleteRefused(o) => o in s.requests && s.requests[o].phase.Storing?
    case ReleaseStep(o) => o in s.requests && Unfinished(s.requests[o].phase)
    case ReleaseRefused(o) => o in s.requests && Unfinished(s.requests[o].phase)
    case Gone => s.record.Some? && (s.record.value.Pending? ==> s.now >= s.deadline)
  }

  function To(s: State, o: string, phase: Phase): State
    requires o in s.requests
  {
    s.(requests := s.requests[o := s.requests[o].(phase := phase)])
  }

  /** How the middleware reads the answer to a claim. */
  function AfterClaim(fingerprint: string, claim: Claim): Phase {
    if claim.fingerprint != fingerprint then Finished(Conflict)
    else if claim.acquired then Running
    else match claim.response
      case Some(response) => Finished(Replayed(response))
      case None => Claiming
  }

  /** What a caller gets once it lets go of its claim. */
  function LetGo(p: Phase): Phase {
    Finished(if p.Releasing? then Answered(p.response) else StoreFailure)
  }

  /** A pending record vanishes while its owner still holds the key. */
  predicate Lapses(s: State) {
    match s.record
    case Some(Pending(_, o)) => o in s.requests && Holds(s.requests[o].phase)
    case _ => false
  }

  /** One step, where pendingTTL is the lifetime of a claim. */
  ghost function Apply(pendingTTL: int, s: State, step: Step): State
    requires Enabled(s, step)
  {
    match step
    case Tick(time) => s.(now := time)
    case Arrive(o, f) => s.(requests := s.requests[o := Request(f, Claiming, s.now)])
    case ClaimStep(o) =>
      var r := s.requests[o];
      var (record, claim) := ClaimOn(s.record, r.fingerprint, o);
      var next := r.(phase := AfterClaim(r.fingerprint, claim), since := s.now);
      s.(record := record, requests := s.requests[o := next],
         deadline := if claim.acquired then s.now + pendingTTL else s.deadline)
    case Cancel(o) => To(s, o, Finished(GaveUp))
    case HandlerReturns(o, response, cacheable) =>
      To(s, o, if cacheable then Storing(response) else Releasing(response))
    case CompleteStep(o) =>
      var response := s.requests[o].phase.response;
      var (record, outcome) := CompleteOn(s.record, s.requests[o].fingerprint, o, response);
      To(s, o, if outcome == Done then Finished(Answered(response)) else Abandoning).(record := record)
    case CompleteRefused(o) => To(s, o, Abandoning)
    case ReleaseStep(o) => To(s, o, LetGo(s.requests[o].phase)).(record := ReleaseOn(s.record, o).0)
    case ReleaseRefused(o) => To(s, o, LetGo(s.requests[o].phase))
    case Gone => s.(record := None, gone := s.gone + 1, lapses := s.lapses + if Lapses(s) then 1 else 0)
  }

  /**
   * What a claim leads to: with another request's fingerprint a conflict, on a pending record
   * of the same request another wait, on a completed one the replay, on an empty key the handler.
   */
  lemma ClaimAnswers(ttl: int, s: State, o: string)
    requires Enabled(s, ClaimStep(o))
    ensures var s', f := Apply(ttl, s, ClaimStep(o)), s.requests[o].fingerprint;
            && s'.requests[o].phase == (match s.record
                 case None => Running
                 case Some(Pending(g, _)) => if g != f then Finished(Conflict) else Claiming
                 case Some(Complete(g, response)) => Finished(if g != f then Conflict else Replayed(response)))
            && (s.record.Some? ==> s'.record == s.record && s'.deadline == s.deadline)
            && (s.record.None? ==> s'.record == Some(Pending(f, o)) && s'.deadline == s.now + ttl)
  {
  }

  /**
   * What the caller whose handler ran gets: its response if that was not to be stored, or was
   * stored over its own claim; an error if storing was refused. Then others can or cannot replay it.
   */
  lemma OwnAnswer(ttl: int, s: State, o: string, response: Response)
    requires o in s.requests && s.requests[o].phase == Running && 200 <= response.status < 300
    requires s.record == Some(Pending(s.requests[o].fingerprint, o))
    ensures var f := s.requests[o].fingerprint;
            var failed := Apply(ttl, s, HandlerReturns(o, response, false));
            var stored := Apply(ttl, s, HandlerReturns(o, response, true));
            var released := Apply(ttl, failed, ReleaseStep(o));
            var completed := Apply(ttl, stored, CompleteStep(o));
            var abandoned := Apply(ttl, Apply(ttl, stored, CompleteRefused(o)), ReleaseStep(o));
            && released.requests[o].phase == Finished(Answered(response)) && released.record == None
            && completed.requests[o].phase == Finished(Answered(response))
            && completed.record == Some(Complete(f, response))
            && abandoned.requests[o].phase == Finished(StoreFailure) && abandoned.record == None
  {
  }

  /** Some caller with this fingerprint got this response from its own handler. */
  ghost predicate Gave(s: State, fingerprint: string, response: Response) {
    exists o :: o in s.requests && GaveBy(s.requests[o], fingerprint, response)
  }

  predicate GaveBy(r: Request, fingerprint: string, response: Response) {
    r.fingerprint == fingerprint && r.phase == Finished(Answered(response))
  }

  /** Holds the key: its handler is in flight, or its claim is neither completed nor released. */
  predicate Holds(p: Phase) {
    p.Running? || p.Storing? || p.Releasing? || p.Abandoning?
  }

  /** Facts about the record, whatever has gone. */
  ghost predicate RecordInv(s: State) {
    match s.record
    case None => true
    case Some(Pending(f, o)) => o in s.requests && s.requests[o].fingerprint == f
    case Some(Complete(f, response)) => Gave(s, f, response) && 200 <= response.status < 300
  }

  ghost predicate RequestInv(s: State, o: string)
    requires o in s.requests
  {
    var r := s.requests[o];
    && r.since <= s.now
    && (r.phase.Finished? && r.phase.outcome.Replayed? ==> Gave(s, r.fingerprint, r.phase.outcome.response))
    && (r.phase.Storing? ==> 200 <= r.phase.response.status < 300)
  }

  /** A holder's claim is the record, until its deadline at least; this is what a lapse breaks. */
  ghost predicate HolderInv(pendingTTL: int, s: State, o: string)
    requires o in s.requests
  {
    var r := s.requests[o];
    Holds(r.phase) ==> s.record == Some(Pending(r.fingerprint, o)) && s.deadline == r.since + pendingTTL
  }

  ghost predicate Inv(pendingTTL: int, s: State) {
    && RecordInv(s)
    && (forall o {:trigger RequestInv(s, o)} :: o in s.requests ==> RequestInv(s, o))
    && (s.lapses == 0 ==>
          forall o {:trigger HolderInv(pendingTTL, s, o)} :: o in s.requests ==> HolderInv(pendingTTL, s, o))
  }

  function Initial(now: int): State {
    State(now, None, now, map[], 0, 0)
  }

  lemma GaveStays(ttl: int, s: State, step: Step, f: string, response: Response)
    requires Enabled(s, step) && Gave(s, f, response)
    ensures Gave(Apply(ttl, s, step), f, response)
  {
    var o :| o in s.requests && GaveBy(s.requests[o], f, response);
    var s' := Apply(ttl, s, step);
    assert o in s'.requests && s'.requests[o] == s.requests[o];
  }

  lemma RecordKept(ttl: int, s: State, step: Step)
    requires Inv(ttl, s) && Enabled(s, step)
    ensures RecordInv(Apply(ttl, s, step))
  {
    var s' := Apply(ttl, s, step);
    if step.CompleteStep? {
      var o := step.owner;
      assert RequestInv(s, o);
      assert s'.record != s.record ==> GaveBy(s'.requests[o], s.requests[o].fingerprint, s.requests[o].phase.response);
    }
    if s.record.Some? && s.record.value.Complete? {
      GaveStays(ttl, s, step, s.record.value.fingerprint, s.record.value.response);
    }
  }

  lemma RequestKept(ttl: int, s: State, step: Step, o: string)
    requires Inv(ttl, s) && Enabled(s, step) && o in Apply(ttl, s, step).requests
    ensures RequestInv(Apply(ttl, s, step), o)
  {
    var s' := Apply(ttl, s, step);
    if o in s.requests {
      assert RequestInv(s, o);
      var r, r' := s.requests[o], s'.requests[o];
      if r'.phase.Finished? && r'.phase.outcome.Replayed? {
        GaveStays(ttl, s, step, r.fingerprint, r'.phase.outcome.response);
      }
    }
  }

  lemma HolderKept(ttl: int, s: State, step: Step, o: string)
    requires Inv(ttl, s) && Enabled(s, step) && o in Apply(ttl, s, step).requests && Apply(ttl, s, step).lapses == 0
    ensures HolderInv(ttl, Apply(ttl, s, step), o)
  {
    if o in s.requests {
      assert HolderInv(ttl, s, o);
    }
    if !step.Gone? && !step.Tick? && step.owner in s.requests {
      assert HolderInv(ttl, s, step.owner);
    }
  }

  /** Every step keeps the invariant. */
  lemma StepKeeps(ttl: int, s: State, step: Step)
    requires Inv(ttl, s) && Enabled(s, step)
    ensures Inv(ttl, Apply(ttl, s, step))
  {
    var s' := Apply(ttl, s, step);
    RecordKept(ttl, s, step);
    forall o | o in s'.requests ensures RequestInv(s', o) { RequestKept(ttl, s, step, o); }
    if s'.lapses == 0 {
      forall o | o in s'.requests ensures HolderInv(ttl, s', o) { HolderKept(ttl, s, step, o); }
    }
  }

  ghost predicate RunsFrom(ttl: int, s: State, steps: seq<Step>)
    decreases |steps|
  {
    steps == [] || (Enabled(s, steps[0]) && RunsFrom(ttl, Apply(ttl, s, steps[0]), steps[1..]))
  }

  ghost function End(ttl: int, s: State, steps: seq<Step>): State
    requires RunsFrom(ttl, s, steps)
    decreases |steps|
  {
    if steps == [] then s else End(ttl, Apply(ttl, s, steps[0]), steps[1..])
  }

  lemma {:induction false} RunKeeps(ttl: int, s: State, steps: seq<Step>)
    requires Inv(ttl, s) && RunsFrom(ttl, s, steps)
    ensures var e := End(ttl, s, steps); Inv(ttl, e) && e.gone >= s.gone && e.lapses >= s.lapses
    decreases |steps|
  {
    if steps != [] {
      StepKeeps(ttl, s, steps[0]);
      RunKeeps(ttl, Apply(ttl, s, steps[0]), steps[1..]);
    }
  }

  /** A response is only ever replayed to a request with the fingerprint of the request that produced it. */
  lemma ReplayIsAuthentic(ttl: int, start: int, steps: seq<Step>, o: string)
    requires RunsFrom(ttl, Initial(start), steps)
    requires var s := End(ttl, Initial(start), steps);
             o in s.requests && s.requests[o].phase.Finished? && s.requests[o].phase.outcome.Replayed?
    ensures var s := End(ttl, Initial(start), steps);
            Gave(s, s.requests[o].fingerprint, s.requests[o].phase.outcome.response)
  {
    RunKeeps(ttl, Initial(start), steps);
    assert RequestInv(End(ttl, Initial(start), steps), o);
  }

  // ---- how many requests hold the key ---------------------------------------------------

  ghost predicate AtMostOneHolder(s: State) {
    forall a, b :: a in s.requests && b in s.requests && Holds(s.requests[a].phase) && Holds(s.requests[b].phase) ==>
      a == b
  }

  /** Over every run in which no claim vanishes from under its holder, at most one request holds the key. */
  lemma OneHandlerInFlight(ttl: int, start: int, steps: seq<Step>)
    requires RunsFrom(ttl, Initial(start), steps) && End(ttl, Initial(start), steps).lapses == 0
    ensures AtMostOneHolder(End(ttl, Initial(start), steps))
  {
    RunKeeps(ttl, Initial(start), steps);
    HoldersAgree(ttl, End(ttl, Initial(start), steps));
  }

  lemma HoldersAgree(ttl: int, s: State)
    requires Inv(ttl, s) && s.lapses == 0
    ensures AtMostOneHolder(s)
  {
    forall a, b | a in s.requests && b in s.requests && Holds(s.requests[a].phase) && Holds(s.requests[b].phase)
      ensures a == b
    {
      assert HolderInv(ttl, s, a) && HolderInv(ttl, s, b);
    }
  }

  /** Somebody has held the key for the lifetime of a claim. */
  ghost predicate Overstays(limit: int, s: State) {
    exists o :: o in s.requests && HeldFor(s, o) >= limit && Holds(s.requests[o].phase)
  }

  function HeldFor(s: State, o: string): int
    requires o in s.requests
  {
    s.now - s.requests[o].since
  }

  predicate NoTicks(steps: seq<Step>) {
    forall i :: 0 <= i < |steps| ==> !steps[i].Tick?
  }

  /** Two requests hold the key after some steps that take no time. */
  ghost predicate SecondAdmitted(ttl: int, s: State) {
    exists steps :: NoTicks(steps) && RunsFrom(ttl, s, steps) && !AtMostOneHolder(End(ttl, s, steps))
  }

  /** The steps by which a second request takes an overstayed key. */
  function TakeOver(b: string, f: string): seq<Step> {
    [Gone, Arrive(b, f), ClaimStep(b)]
  }

  lemma TakesOver(ttl: int, s: State, a: string, b: string, f: string)
    requires a in s.requests && b !in s.requests && Holds(s.requests[a].phase)
    requires s.record.Some? && s.record.value.Pending? && s.now >= s.deadline
    ensures RunsFrom(ttl, s, TakeOver(b, f))
    ensures var e := End(ttl, s, TakeOver(b, f));
            && a in e.requests && e.requests[a] == s.requests[a]
            && b in e.requests && e.requests[b] == Request(f, Running, s.now)
  {
    var s1 := Apply(ttl, s, Gone);
    var s2 := Apply(ttl, s1, Arrive(b, f));
    var s3 := Apply(ttl, s2, ClaimStep(b));
    assert RunsFrom(ttl, s3, []) && End(ttl, s3, []) == s3;
    RunOne(ttl, s2, ClaimStep(b), []);
    RunOne(ttl, s1, Arrive(b, f), [ClaimStep(b)]);
    RunOne(ttl, s, Gone, [Arrive(b, f), ClaimStep(b)]);
  }

  lemma RunOne(ttl: int, s: State, step: Step, rest: seq<Step>)
    requires Enabled(s, step) && RunsFrom(ttl, Apply(ttl, s, step), rest)
    ensures RunsFrom(ttl, s, [step] + rest) && End(ttl, s, [step] + rest) == End(ttl, Apply(ttl, s, step), rest)
  {
    assert ([step] + rest)[1..] == rest;
  }

  /** An owner nobody has used yet: longer than all others. */
  lemma {:induction false} FreshOwner(used: set<string>) returns (b: string)
    ensures forall o <- used :: |o| < |b|
    decreases used
  {
    b := "x";
    if used != {} {
      var o :| o in used;
      var rest := FreshOwner(used - {o});
      b := rest + o + "x";
      assert forall other <- used :: other == o || other in used - {o};
    }
  }

  /** Without time passing no claim lapses, unless some request overstays already. */
  lemma {:induction false} NoLapseInNoTime(ttl: int, s: State, steps: seq<Step>)
    requires ttl > 0 && Inv(ttl, s) && s.lapses == 0 && !Overstays(ttl, s) && NoTicks(steps) && RunsFrom(ttl, s, steps)
    ensures Inv(ttl, End(ttl, s, steps)) && End(ttl, s, steps).lapses == 0
    decreases |steps|
  {
    if steps != [] {
      var s' := Apply(ttl, s, steps[0]);
      StepKeeps(ttl, s, steps[0]);
      if Lapses(s) {
        assert HolderInv(ttl, s, s.record.value.owner);
      }
      forall o | o in s'.requests && Holds(s'.requests[o].phase) ensures HeldFor(s', o) < ttl {
        assert o in s.requests;
      }
      NoLapseInNoTime(ttl, s', steps[1..]);
    }
  }

  /**
   * At every moment up to a first lapse: a second request can be admitted at once
   * if and only if the holder has held the key for PendingTTL.
   */
  lemma AdmittedExactly(ttl: int, start: int, steps: seq<Step>)
    requires ttl > 0 && RunsFrom(ttl, Initial(start), steps) && End(ttl, Initial(start), steps).lapses == 0
    ensures var s := End(ttl, Initial(start), steps); SecondAdmitted(ttl, s) <==> Overstays(ttl, s)
  {
    var s := End(ttl, Initial(start), steps);
    RunKeeps(ttl, Initial(start), steps);
    if Overstays(ttl, s) {
      var a :| a in s.requests && HeldFor(s, a) >= ttl && Holds(s.requests[a].phase);
      assert HolderInv(ttl, s, a);
      var b := FreshOwner(s.requests.Keys);
      TakesOver(ttl, s, a, b, "");
      assert NoTicks(TakeOver(b, ""));
    } else if SecondAdmitted(ttl, s) {
      var more :| NoTicks(more) && RunsFrom(ttl, s, more) && !AtMostOneHolder(End(ttl, s, more));
      NoLapseInNoTime(ttl, s, more);
      HoldersAgree(ttl, End(ttl, s, more));
    }
  }

  /** Throughout the run every request lets go of the key before it has held it for the given time. */
  ghost predicate Prompt(ttl: int, s: State, steps: seq<Step>, limit: int)
    requires RunsFrom(ttl, s, steps)
    decreases |steps|
  {
    !Overstays(limit, s) && (steps == [] || Prompt(ttl, Apply(ttl, s, steps[0]), steps[1..], limit))
  }

  lemma {:induction false} PromptNeverLapses(ttl: int, s: State, steps: seq<Step>, limit: int)
    requires limit <= ttl && Inv(ttl, s) && s.lapses == 0 && RunsFrom(ttl, s, steps) && Prompt(ttl, s, steps, limit)
    ensures Inv(ttl, End(ttl, s, steps)) && End(ttl, s, steps).lapses == 0
    decreases |steps|
  {
    if steps != [] {
      StepKeeps(ttl, s, steps[0]);
      if Lapses(s) {
        var o := s.record.value.owner;
        assert HolderInv(ttl, s, o);
        assert HeldFor(s, o) < limit;
      }
      PromptNeverLapses(ttl, Apply(ttl, s, steps[0]), steps[1..], limit);
    }
  }

  /** No run in which every request holds the key for less than the limit has two holders. */
  ghost predicate KeepsOne(ttl: int, limit: int) {
    forall start, steps :: RunsFrom(ttl, Initial(start), steps) && Prompt(ttl, Initial(start), steps, limit)
      ==> AtMostOneHolder(End(ttl, Initial(start), steps))
  }

  /**
   * One handler at a time, over all runs in which handlers return and their
   * results are stored within a time limit, if and only if the limit is within
   * PendingTTL; whatever completed records expire or are evicted in between.
   */
  lemma OneHandlerExactly(ttl: int, limit: int)
    requires ttl > 0 && limit > 0
    ensures KeepsOne(ttl, limit) <==> limit <= ttl
  {
    if limit <= ttl {
      forall start, steps | RunsFrom(ttl, Initial(start), steps) && Prompt(ttl, Initial(start), steps, limit)
        ensures AtMostOneHolder(End(ttl, Initial(start), steps))
      {
        PromptNeverLapses(ttl, Initial(start), steps, limit);
        HoldersAgree(ttl, End(ttl, Initial(start), steps));
      }
    } else {
      LateHandler(ttl, limit);
    }
  }

  /** A handler that outlives its claim by nothing at all, and another that starts beside it. */
  lemma LateHandler(ttl: int, limit: int)
    requires 0 < ttl < limit
    ensures !KeepsOne(ttl, limit)
  {
    var s0 := Initial(0);
    var s1 := Apply(ttl, s0, Arrive("a", ""));
    var s2 := Apply(ttl, s1, ClaimStep("a"));
    var s3 := Apply(ttl, s2, Tick(ttl));
    TakesOver(ttl, s3, "a", "b", "");
    PromptTakeOver(ttl, s3, "b", "", limit);
    var more := TakeOver("b", "");
    RunOne(ttl, s2, Tick(ttl), more);
    RunOne(ttl, s1, ClaimStep("a"), [Tick(ttl)] + more);
    RunOne(ttl, s0, Arrive("a", ""), [ClaimStep("a")] + ([Tick(ttl)] + more));
    PromptOne(ttl, s2, Tick(ttl), more, limit);
    PromptOne(ttl, s1, ClaimStep("a"), [Tick(ttl)] + more, limit);
    PromptOne(ttl, s0, Arrive("a", ""), [ClaimStep("a")] + ([Tick(ttl)] + more), limit);
    var run := [Arrive("a", "")] + ([ClaimStep("a")] + ([Tick(ttl)] + more));
    assert !AtMostOneHolder(End(ttl, s0, run));
  }

  lemma PromptOne(ttl: int, s: State, step: Step, rest: seq<Step>, limit: int)
    requires Enabled(s, step) && RunsFrom(ttl, Apply(ttl, s, step), rest) && RunsFrom(ttl, s, [step] + rest)
    requires !Overstays(limit, s) && Prompt(ttl, Apply(ttl, s, step), rest, limit)
    ensures Prompt(ttl, s, [step] + rest, limit)
  {
    assert ([step] + rest)[1..] == rest;
  }

  lemma PromptTakeOver(ttl: int, s: State, b: string, f: string, limit: int)
    requires limit > 0 && b !in s.requests && !Overstays(limit, s)
    requires s.record.Some? && s.record.value.Pending? && s.now >= s.deadline
    requires RunsFrom(ttl, s, TakeOver(b, f))
    ensures Prompt(ttl, s, TakeOver(b, f), limit)
  {
    var s1 := Apply(ttl, s, Gone);
    var s2 := Apply(ttl, s1, Arrive(b, f));
    var s3 := Apply(ttl, s2, ClaimStep(b));
    assert RunsFrom(ttl, s3, []);
    RunOne(ttl, s2, ClaimStep(b), []);
    RunOne(ttl, s1, Arrive(b, f), [ClaimStep(b)]);
    assert !Overstays(limit, s1) && !Overstays(limit, s2) && !Overstays(limit, s3) by {
      forall o | o in s3.requests && Holds(s3.requests[o].phase) ensures HeldFor(s3, o) < limit {}
    }
    PromptOne(ttl, s2, ClaimStep(b), [], limit);
    PromptOne(ttl, s1, Arrive(b, f), [ClaimStep(b)], limit);
    PromptOne(ttl, s, Gone, [Arrive(b, f), ClaimStep(b)], limit);
  }

  // ---- what a handler's start and a stored response mean ---------------------------------

  /** A handler starts only on an empty key, so never under another request's record. */
  lemma HandlerStartsOnEmptyKey(ttl: int, s: State, step: Step, o: string)
    requires Enabled(s, step) && o in s.requests && !s.requests[o].phase.Running?
    requires Apply(ttl, s, step).requests[o].phase.Running?
    ensures s.record.None? && Apply(ttl, s, step).record == Some(Pending(s.requests[o].fingerprint, o))
  {
  }

  /** What a later request may still come to, once a response is stored. */
  ghost predicate Settled(s: State, e: State, f: string, response: Response, o: string)
    requires o in e.requests
  {
    && !Holds(e.requests[o].phase)
    && (o in s.requests && s.requests[o].phase.Finished? ==> e.requests[o] == s.requests[o])
    && (e.requests[o].phase.Finished? && !(o in s.requests && s.requests[o].phase.Finished?) ==>
          e.requests[o].phase.outcome in
            {GaveUp, if e.requests[o].fingerprint == f then Replayed(response) else Conflict})
  }

  /**
   * Once a response is stored, and as long as it is, no handler is in flight or
   * starts, every later same-fingerprint answer replays exactly it, and every
   * other fingerprint gets a conflict; whatever went before, but for a lapse.
   */
  lemma {:induction false} StoredForever(ttl: int, s: State, steps: seq<Step>, f: string, response: Response)
    requires Inv(ttl, s) && s.lapses == 0 && s.record == Some(Complete(f, response))
    requires RunsFrom(ttl, s, steps) && End(ttl, s, steps).gone == s.gone
    ensures var e := End(ttl, s, steps);
            && e.record == s.record
            && forall o {:trigger Settled(s, e, f, response, o)} :: o in e.requests ==> Settled(s, e, f, response, o)
    decreases |steps|
  {
    var e := End(ttl, s, steps);
    if steps == [] {
      forall o | o in e.requests ensures Settled(s, e, f, response, o) { assert HolderInv(ttl, e, o); }
    } else {
      var step, s' := steps[0], Apply(ttl, s, steps[0]);
      StepKeeps(ttl, s, step);
      RunKeeps(ttl, s', steps[1..]);
      if !step.Gone? && !step.Tick? && step.owner in s.requests {
        assert HolderInv(ttl, s, step.owner);
      }
      StoredForever(ttl, s', steps[1..], f, response);
      forall o | o in e.requests ensures Settled(s, e, f, response, o) {
        assert Settled(s', e, f, response, o);
      }
    }
  }
}
