/**
 * Any number of outbox workers over one table and one clock that never runs
 * backwards. A worker reads the clock, claims a batch in one transaction,
 * publishes message by message and marks each in its own transaction; it may
 * crash between any two steps.
 */
module OutboxProtocol {
  import opened OutboxTable

  /** A claimed message and the attempts counted when it was claimed. */
  datatype Claimed = Claimed(id: string, attempts: nat)

  /** since is the clock reading the worker claimed with. */
  datatype Worker =
    | Clocked(token: string, since: int)
    | Delivering(token: string, since: int, todo: seq<Claimed>)
    | Marking(token: string, since: int, todo: seq<Claimed>, accepted: bool)

  /** One claim of one message: from its clock reading until its deadline or its release. */
  datatype Lease = Lease(token: string, start: int, end: int)

  /** Besides what the database and the workers hold: the history needed to state what happened. */
  datatype State = State(
    now: int, table: Table, workers: map<nat, Worker>,
    used: set<string>,                 // every token ever drawn
    leases: map<string, seq<Lease>>,   // every claim of each message, in commit order
    failures: map<string, nat>,        // committed failures of each message
    delivered: set<string>)            // messages the publisher accepted at least once

  datatype Step =
    | Tick(time: int)
    | Enqueue(id: string, availableAt: int)
    | Begin(w: nat, token: string)
    | Claim(w: nat, skipped: set<string>, chosen: set<string>, order: seq<Claimed>)
    | Publish(w: nat, accepted: bool)
    | Mark(w: nat, at: int)
    | MarkError(w: nat)
    | Crash(w: nat)

  /** The rows a claim returns: each chosen message once, with its attempts. */
  ghost predicate Returned(t: Table, chosen: set<string>, order: seq<Claimed>) {
    && (forall i :: 0 <= i < |order| ==>
          order[i].id in chosen && order[i].id in t && order[i].attempts == t[order[i].id].attempts)
    && (forall i, j :: 0 <= i < j < |order| ==> order[i].id != order[j].id)
    && |order| == |chosen|
  }

  lemma ReturnsMore(t: Table, chosen: set<string>, order: seq<Claimed>, id: string)
    requires Returned(t, chosen, order) && id in t && id !in chosen
    ensures Returned(t, chosen + {id}, order + [Claimed(id, t[id].attempts)])
  {
  }

  ghost predicate Enabled(cfg: Config, s: State, step: Step) {
    match step
    case Tick(time) => time >= s.now
    case Enqueue(id, _) => id !in s.table
    case Begin(w, token) => w !in s.workers && token !in s.used
    case Claim(w, skipped, chosen, order) =>
      && w in s.workers && s.workers[w].Clocked?
      && Chosen(s.table, s.workers[w].since, cfg.batchSize, skipped, chosen) && Returned(s.table, chosen, order)
    case Publish(w, _) => w in s.workers && s.workers[w].Delivering? && s.workers[w].todo != []
    case Mark(w, at) => w in s.workers && s.workers[w].Marking? && s.workers[w].todo != []
      && s.workers[w].since <= at <= s.now
    case MarkError(w) => w in s.workers && s.workers[w].Marking? && s.workers[w].todo != []
    case Crash(w) => w in s.workers
  }

  function Advance(s: State, w: nat): State
    requires w in s.workers && s.workers[w].Marking? && s.workers[w].todo != []
  {
    var worker := s.workers[w];
    s.(workers := s.workers[w := Delivering(worker.token, worker.since, worker.todo[1..])])
  }

  function History(s: State, id: string): seq<Lease> {
    if id in s.leases then s.leases[id] else []
  }

  function Failures(s: State, id: string): nat {
    if id in s.failures then s.failures[id] else 0
  }

  function Release(h: seq<Lease>, at: int): seq<Lease> {
    if h == [] then []
    else
      var last := h[|h| - 1];
      h[..|h| - 1] + [last.(end := if at < last.end then at else last.end)]
  }

  function ClaimState(cfg: Config, s: State, w: nat, chosen: set<string>, order: seq<Claimed>): State
    requires w in s.workers
  {
    var worker := s.workers[w];
    var lease := Lease(worker.token, worker.since, worker.since + cfg.lease);
    s.(table := ClaimRows(s.table, chosen, lease.end, worker.token),
       leases := map id | id in s.table :: if id in chosen then History(s, id) + [lease] else History(s, id),
       workers := s.workers[w := Delivering(worker.token, worker.since, order)])
  }

  function MarkState(cfg: Config, s: State, w: nat, at: int): State
    requires w in s.workers && s.workers[w].Marking? && s.workers[w].todo != []
  {
    var worker := s.workers[w];
    var job := worker.todo[0];
    var s' := Advance(s, w);
    if !Owns(s.table, job.id, worker.token) then s'
    else if worker.accepted then
      s'.(table := MarkPublished(s.table, job.id, worker.token, at),
          leases := s.leases[job.id := Release(History(s, job.id), at)])
    else
      s'.(table := MarkFailed(cfg, s.table, job.id, job.attempts, worker.token, at),
          leases := s.leases[job.id := Release(History(s, job.id), at)],
          failures := s.failures[job.id := Failures(s, job.id) + 1])
  }

  ghost function Apply(cfg: Config, s: State, step: Step): State
    requires Enabled(cfg, s, step)
  {
    match step
    case Tick(time) => s.(now := time)
    case Enqueue(id, availableAt) => s.(table := s.table[id := NewRow(s.now, availableAt)])
    case Begin(w, token) => s.(workers := s.workers[w := Clocked(token, s.now)], used := s.used + {token})
    case Claim(w, _, chosen, order) => ClaimState(cfg, s, w, chosen, order)
    case Publish(w, accepted) =>
      var worker := s.workers[w];
      s.(workers := s.workers[w := Marking(worker.token, worker.since, worker.todo, accepted)],
         delivered := if accepted then s.delivered + {worker.todo[0].id} else s.delivered)
    case Mark(w, at) => MarkState(cfg, s, w, at)
    case MarkError(w) => Advance(s, w)
    case Crash(w) => s.(workers := s.workers - {w})
  }

  // ---- the invariant --------------------------------------------------------------

  /** Every lease ended before the next began. */
  ghost predicate Disjoint(h: seq<Lease>) {
    && (forall i :: 0 <= i < |h| ==> h[i].start <= h[i].end)
    && (forall i, j :: 0 <= i < j < |h| ==> h[i].end < h[j].start)
  }

  ghost predicate FreshIn(token: string, h: seq<Lease>) {
    forall i :: 0 <= i < |h| ==> h[i].token != token
  }

  /** A row agrees with its leases, its failures and whether it was delivered. */
  ghost predicate RowOk(cfg: Config, r: Row, h: seq<Lease>, used: set<string>, failures: nat, delivered: bool) {
    && Disjoint(h)
    && (forall i :: 0 <= i < |h| ==> h[i].token in used)
    && (r.lockToken.Some? <==> r.lockedUntil.Some?)
    && (r.lockToken.Some? ==> h != [] && h[|h| - 1].token == r.lockToken.value && h[|h| - 1].end == r.lockedUntil.value)
    && (Terminal(r) ==> r.lockToken.None?)
    && (!Terminal(r) && r.lockToken.None? && h != [] ==> h[|h| - 1].end < r.availableAt)
    && r.attempts == failures
    && !(r.publishedAt.Some? && r.failedAt.Some?)
    && (r.failedAt.Some? <==> r.attempts >= cfg.maxAttempts)
    && r.attempts <= cfg.maxAttempts
    && (r.publishedAt.Some? ==> delivered)
  }

  ghost predicate RowInv(cfg: Config, s: State, id: string)
    requires id in s.table
  {
    RowOk(cfg, s.table[id], History(s, id), s.used, Failures(s, id), id in s.delivered)
  }

  ghost predicate DistinctIds(todo: seq<Claimed>) {
    forall i, j :: 0 <= i < j < |todo| ==> todo[i].id != todo[j].id
  }

  /** What a worker still holds is as it was when claimed. */
  ghost predicate JobInv(s: State, worker: Worker, job: Claimed) {
    Owns(s.table, job.id, worker.token) ==>
      && s.table[job.id].attempts == job.attempts
      && History(s, job.id) != [] && History(s, job.id)[|History(s, job.id)| - 1].start == worker.since
  }

  ghost predicate WorkerInv(s: State, w: nat)
    requires w in s.workers
  {
    var worker := s.workers[w];
    && worker.token in s.used
    && (worker.Clocked? ==> forall id {:trigger History(s, id)} :: FreshIn(worker.token, History(s, id)))
    && (!worker.Clocked? ==>
          DistinctIds(worker.todo) && forall i :: 0 <= i < |worker.todo| ==> JobInv(s, worker, worker.todo[i]))
    && (worker.Marking? && worker.accepted && worker.todo != [] ==> worker.todo[0].id in s.delivered)
  }

  ghost predicate TokensApart(s: State, w1: nat, w2: nat)
    requires w1 in s.workers && w2 in s.workers
  {
    w1 != w2 ==> s.workers[w1].token != s.workers[w2].token
  }

  ghost predicate Inv(cfg: Config, s: State) {
    && (forall id :: id in s.leases || id in s.failures ==> id in s.table)
    && (forall id {:trigger RowInv(cfg, s, id)} :: id in s.table ==> RowInv(cfg, s, id))
    && (forall w {:trigger WorkerInv(s, w)} :: w in s.workers ==> WorkerInv(s, w))
    && (forall w1, w2 {:trigger TokensApart(s, w1, w2)} :: w1 in s.workers && w2 in s.workers ==>
      TokensApart(s, w1, w2))
  }

  function Initial(now: int): State {
    State(now, map[], map[], {}, map[], map[], {})
  }

  // ---- every step keeps it ----------------------------------------------------------

  lemma LeaseAppended(h: seq<Lease>, lease: Lease)
    requires Disjoint(h) && lease.start <= lease.end && (h != [] ==> h[|h| - 1].end < lease.start)
    ensures Disjoint(h + [lease])
  {
    forall i | 0 <= i < |h| ensures h[i].end < lease.start {
      assert i < |h| - 1 ==> h[i].end < h[|h| - 1].start;
    }
  }

  lemma LeaseReleased(h: seq<Lease>, at: int)
    requires Disjoint(h) && h != [] && h[|h| - 1].start <= at
    ensures var r := Release(h, at); Disjoint(r) && |r| == |h| && r[|r| - 1].end <= at
    ensures var r := Release(h, at); forall i :: 0 <= i < |h| ==> r[i].token == h[i].token && r[i].start == h[i].start
  {
  }

  lemma RowClaimed(cfg: Config, r: Row, h: seq<Lease>, used: set<string>, failures: nat, delivered: bool,
      token: string, since: int)
    requires WellFormed(cfg) && RowOk(cfg, r, h, used, failures, delivered) && Eligible(r, since) && token in used
    ensures RowOk(cfg, Leased(r, since + cfg.lease, token), h + [Lease(token, since, since + cfg.lease)], used,
        failures, delivered)
  {
    LeaseAppended(h, Lease(token, since, since + cfg.lease));
  }

  lemma RowMarked(cfg: Config, r: Row, h: seq<Lease>, used: set<string>, failures: nat, delivered: bool, at: int)
    requires WellFormed(cfg) && RowOk(cfg, r, h, used, failures, delivered)
    requires r.lockToken.Some? && h[|h| - 1].start <= at
    ensures delivered ==> RowOk(cfg, Published(r, at), Release(h, at), used, failures, delivered)
    ensures RowOk(cfg, Failed(cfg, r, r.attempts, at), Release(h, at), used, failures + 1, delivered)
  {
    DelayPositive(cfg, r.attempts + 1);
    LeaseReleased(h, at);
  }

  /** What a claim makes of one row and its leases. */
  lemma ClaimedAt(cfg: Config, s: State, w: nat, chosen: set<string>, order: seq<Claimed>, id: string)
    requires id in s.table && w in s.workers
    ensures var worker, s' := s.workers[w], ClaimState(cfg, s, w, chosen, order);
            var lease := Lease(worker.token, worker.since, worker.since + cfg.lease);
            && id in s'.table
            && s'.table[id] == (if id in chosen then Leased(s.table[id], lease.end, worker.token) else s.table[id])
            && History(s', id) == (if id in chosen then History(s, id) + [lease] else History(s, id))
  {
  }

  lemma ClaimKeepsRow(cfg: Config, s: State, w: nat, chosen: set<string>, order: seq<Claimed>, id: string)
    requires WellFormed(cfg) && id in s.table && RowInv(cfg, s, id)
    requires w in s.workers && s.workers[w].Clocked? && s.workers[w].token in s.used
    requires id in chosen ==> Eligible(s.table[id], s.workers[w].since)
    ensures RowInv(cfg, ClaimState(cfg, s, w, chosen, order), id)
  {
    ClaimedAt(cfg, s, w, chosen, order, id);
    if id in chosen {
      var worker := s.workers[w];
      RowClaimed(cfg, s.table[id], History(s, id), s.used, Failures(s, id), id in s.delivered, worker.token,
        worker.since);
    }
  }

  /** What a mark makes of one row, its leases and its failures. */
  lemma MarkedAt(cfg: Config, s: State, w: nat, at: int, id: string)
    requires w in s.workers && s.workers[w].Marking? && s.workers[w].todo != [] && id in s.table
    ensures var worker, s' := s.workers[w], MarkState(cfg, s, w, at);
            var mine := id == worker.todo[0].id && Owns(s.table, id, worker.token);
            && id in s'.table && s'.used == s.used && s'.delivered == s.delivered
            && s'.table[id] == (if !mine then s.table[id] else if worker.accepted then Published(s.table[id], at)
                                else Failed(cfg, s.table[id], worker.todo[0].attempts, at))
            && History(s', id) == (if mine then Release(History(s, id), at) else History(s, id))
            && Failures(s', id) == Failures(s, id) + (if mine && !worker.accepted then 1 else 0)
  {
  }

  lemma MarkKeepsRow(cfg: Config, s: State, step: Step, id: string)
    requires WellFormed(cfg) && Inv(cfg, s) && step.Mark? && Enabled(cfg, s, step) && id in s.table
    ensures RowInv(cfg, Apply(cfg, s, step), id)
  {
    assert RowInv(cfg, s, id) && WorkerInv(s, step.w);
    var worker := s.workers[step.w];
    var job := worker.todo[0];
    MarkedAt(cfg, s, step.w, step.at, id);
    if id == job.id && Owns(s.table, id, worker.token) {
      assert JobInv(s, worker, job);
      RowMarked(cfg, s.table[id], History(s, id), s.used, Failures(s, id), id in s.delivered, step.at);
    }
  }

  lemma RowKept(cfg: Config, s: State, step: Step, id: string)
    requires WellFormed(cfg) && Inv(cfg, s) && Enabled(cfg, s, step) && id in Apply(cfg, s, step).table
    ensures RowInv(cfg, Apply(cfg, s, step), id)
  {
    if step.Claim? {
      assert RowInv(cfg, s, id) && WorkerInv(s, step.w);
      ClaimKeepsRow(cfg, s, step.w, step.chosen, step.order, id);
    } else if step.Mark? {
      MarkKeepsRow(cfg, s, step, id);
    } else if id in s.table {
      assert RowInv(cfg, s, id);
    }
  }

  lemma ClaimKeepsWorker(cfg: Config, s: State, step: Step, w: nat)
    requires WellFormed(cfg) && Inv(cfg, s) && step.Claim? && Enabled(cfg, s, step) && w in s.workers
    ensures WorkerInv(Apply(cfg, s, step), w)
  {
    var s' := Apply(cfg, s, step);
    assert WorkerInv(s, w) && WorkerInv(s, step.w) && TokensApart(s, w, step.w);
    var worker' := s'.workers[w];
    if worker'.Clocked? {
      forall id ensures FreshIn(worker'.token, History(s', id)) {
        assert FreshIn(worker'.token, History(s, id));
      }
    } else {
      forall i | 0 <= i < |worker'.todo| ensures JobInv(s', worker', worker'.todo[i]) {
        var id := worker'.todo[i].id;
        if w != step.w {
          assert JobInv(s, worker', worker'.todo[i]);
        } else {
          assert id in step.chosen;
        }
      }
    }
  }

  lemma MarkKeepsWorker(cfg: Config, s: State, step: Step, w: nat)
    requires WellFormed(cfg) && Inv(cfg, s) && step.Mark? && Enabled(cfg, s, step) && w in s.workers
    ensures WorkerInv(Apply(cfg, s, step), w)
  {
    var s' := Apply(cfg, s, step);
    assert WorkerInv(s, w) && WorkerInv(s, step.w) && TokensApart(s, w, step.w);
    var worker, worker' := s.workers[w], s'.workers[w];
    if worker'.Clocked? {
      forall id ensures FreshIn(worker'.token, History(s', id)) {
        assert FreshIn(worker'.token, History(s, id));
      }
    } else {
      forall i | 0 <= i < |worker'.todo| ensures JobInv(s', worker', worker'.todo[i]) {
        assert worker'.todo[i] == if w == step.w then worker.todo[i + 1] else worker.todo[i];
        assert JobInv(s, worker, worker'.todo[i]);
      }
    }
  }

  lemma WorkerKept(cfg: Config, s: State, step: Step, w: nat)
    requires WellFormed(cfg) && Inv(cfg, s) && Enabled(cfg, s, step) && w in Apply(cfg, s, step).workers
    ensures WorkerInv(Apply(cfg, s, step), w)
  {
    var s' := Apply(cfg, s, step);
    if step.Claim? {
      ClaimKeepsWorker(cfg, s, step, w);
    } else if step.Mark? {
      MarkKeepsWorker(cfg, s, step, w);
    } else {
      OtherStepKeepsWorker(cfg, s, step, w);
    }
  }

  lemma OtherStepKeepsWorker(cfg: Config, s: State, step: Step, w: nat)
    requires WellFormed(cfg) && Inv(cfg, s) && Enabled(cfg, s, step) && w in Apply(cfg, s, step).workers
    requires !step.Claim? && !step.Mark?
    ensures WorkerInv(Apply(cfg, s, step), w)
  {
    var s' := Apply(cfg, s, step);
    assert forall id :: History(s', id) == History(s, id);
    var worker' := s'.workers[w];
    if w in s.workers {
      assert WorkerInv(s, w);
      if !worker'.Clocked? {
        forall i | 0 <= i < |worker'.todo| ensures JobInv(s', worker', worker'.todo[i]) {
          assert JobInv(s, s.workers[w], worker'.todo[i]) by {
            assert worker'.todo[i] ==
              if step.MarkError? && step.w == w then s.workers[w].todo[i + 1] else s.workers[w].todo[i];
          }
        }
      }
    } else {
      forall id ensures FreshIn(worker'.token, History(s', id)) {
        if id in s.table {
          assert RowInv(cfg, s, id);
        }
      }
    }
  }

  /** Every step keeps the invariant. */
  lemma StepKeeps(cfg: Config, s: State, step: Step)
    requires WellFormed(cfg) && Inv(cfg, s) && Enabled(cfg, s, step)
    ensures Inv(cfg, Apply(cfg, s, step))
  {
    var s' := Apply(cfg, s, step);
    forall id | id in s'.table ensures RowInv(cfg, s', id) { RowKept(cfg, s, step, id); }
    forall w | w in s'.workers ensures WorkerInv(s', w) { WorkerKept(cfg, s, step, w); }
    forall w1, w2 | w1 in s'.workers && w2 in s'.workers ensures TokensApart(s', w1, w2) {
      TokensKept(cfg, s, step, w1, w2);
    }
  }

  lemma TokensKept(cfg: Config, s: State, step: Step, w1: nat, w2: nat)
    requires Inv(cfg, s) && Enabled(cfg, s, step)
    requires w1 in Apply(cfg, s, step).workers && w2 in Apply(cfg, s, step).workers
    ensures TokensApart(Apply(cfg, s, step), w1, w2)
  {
    if w1 in s.workers {
      assert WorkerInv(s, w1);
      if w2 in s.workers {
        assert TokensApart(s, w1, w2);
      }
    }
    if w2 in s.workers {
      assert WorkerInv(s, w2);
    }
  }

  // ---- what every run shows -----------------------------------------------------------

  ghost predicate RunsFrom(cfg: Config, s: State, steps: seq<Step>)
    decreases |steps|
  {
    steps == [] || (Enabled(cfg, s, steps[0]) && RunsFrom(cfg, Apply(cfg, s, steps[0]), steps[1..]))
  }

  ghost function End(cfg: Config, s: State, steps: seq<Step>): State
    requires RunsFrom(cfg, s, steps)
    decreases |steps|
  {
    if steps == [] then s else End(cfg, Apply(cfg, s, steps[0]), steps[1..])
  }

  lemma {:induction false} RunKeeps(cfg: Config, s: State, steps: seq<Step>)
    requires WellFormed(cfg) && Inv(cfg, s) && RunsFrom(cfg, s, steps)
    ensures Inv(cfg, End(cfg, s, steps))
    decreases |steps|
  {
    if steps != [] {
      StepKeeps(cfg, s, steps[0]);
      RunKeeps(cfg, Apply(cfg, s, steps[0]), steps[1..]);
    }
  }

  /** In every run the leases of one message never overlap and no token leases it twice. */
  lemma LeasesNeverOverlap(cfg: Config, start: int, steps: seq<Step>, id: string, i: nat, j: nat)
    requires WellFormed(cfg) && RunsFrom(cfg, Initial(start), steps)
    requires var h := History(End(cfg, Initial(start), steps), id); i < j < |h|
    ensures var h := History(End(cfg, Initial(start), steps), id);
            h[i].start <= h[i].end < h[j].start <= h[j].end
  {
    RunKeeps(cfg, Initial(start), steps);
    assert RowInv(cfg, End(cfg, Initial(start), steps), id);
  }

  /** A row under a token is neither published nor failed. */
  lemma OwnedIsOpen(cfg: Config, start: int, steps: seq<Step>, id: string, token: string)
    requires WellFormed(cfg) && RunsFrom(cfg, Initial(start), steps)
    ensures var t := End(cfg, Initial(start), steps).table; Owns(t, id, token) ==> !Terminal(t[id])
  {
    RunKeeps(cfg, Initial(start), steps);
    var s := End(cfg, Initial(start), steps);
    assert id in s.table ==> RowInv(cfg, s, id);
  }

  /**
   * In every run: published and failed exclude each other, attempts are committed failures, and only
   * the last attempt fails a message.
   */
  lemma CountsAndVerdicts(cfg: Config, start: int, steps: seq<Step>, id: string)
    requires WellFormed(cfg) && RunsFrom(cfg, Initial(start), steps) && id in End(cfg, Initial(start), steps).table
    ensures var s := End(cfg, Initial(start), steps);
            var r := s.table[id];
            && r.attempts == Failures(s, id)
            && (r.failedAt.Some? <==> r.attempts == cfg.maxAttempts) && r.attempts <= cfg.maxAttempts
            && !(r.publishedAt.Some? && r.failedAt.Some?)
            && (r.publishedAt.Some? ==> id in s.delivered)
  {
    RunKeeps(cfg, Initial(start), steps);
    assert RowInv(cfg, End(cfg, Initial(start), steps), id);
  }

  /** A mark changes a row only for the latest claimer of that row, who still holds it. */
  lemma OnlyLatestClaimerMarks(cfg: Config, s: State, step: Step, id: string)
    requires WellFormed(cfg) && Inv(cfg, s) && Enabled(cfg, s, step) && step.Mark? && id in s.table
    requires Apply(cfg, s, step).table[id] != s.table[id]
    ensures var worker := s.workers[step.w];
            && id == worker.todo[0].id && History(s, id) != []
            && History(s, id)[|History(s, id)| - 1].token == worker.token
            && History(s, id)[|History(s, id)| - 1].start == worker.since
            && Apply(cfg, s, step).table[id] ==
                 if worker.accepted then Published(s.table[id], step.at)
                   else Failed(cfg, s.table[id], s.table[id].attempts, step.at)
  {
    assert RowInv(cfg, s, id) && WorkerInv(s, step.w);
    assert JobInv(s, s.workers[step.w], s.workers[step.w].todo[0]);
  }

  /** Published and failed rows never change again. */
  lemma {:induction false} TerminalForever(cfg: Config, s: State, steps: seq<Step>, id: string)
    requires WellFormed(cfg) && Inv(cfg, s) && RunsFrom(cfg, s, steps) && id in s.table && Terminal(s.table[id])
    ensures id in End(cfg, s, steps).table && End(cfg, s, steps).table[id] == s.table[id]
    decreases |steps|
  {
    if steps != [] {
      assert RowInv(cfg, s, id);
      StepKeeps(cfg, s, steps[0]);
      TerminalForever(cfg, Apply(cfg, s, steps[0]), steps[1..], id);
    }
  }

  /** No message is lost: an unfinished one can be claimed once its lease and its delay are over. */
  lemma Reclaimable(cfg: Config, s: State, id: string, now: int)
    requires WellFormed(cfg) && Inv(cfg, s) && id in s.table && !Terminal(s.table[id])
    ensures Eligible(s.table[id], now) <==>
              s.table[id].availableAt <= now
              && (s.table[id].lockToken.Some? ==>
                    History(s, id) != [] && History(s, id)[|History(s, id)| - 1].end < now)
  {
    assert RowInv(cfg, s, id);
  }
}
