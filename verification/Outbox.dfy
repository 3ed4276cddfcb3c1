/**
 * The worker's code over the shared table: claiming, publishing and marking,
 * with other workers acting between any two transactions. Everything it does
 * is a run of the protocol.
 */
module Outbox {
  import opened Numbers
  import opened Options
  import opened OutboxTable
  import opened OutboxProtocol

  lemma {:induction false} RunJoins(cfg: Config, s: State, a: seq<Step>, b: seq<Step>)
    requires RunsFrom(cfg, s, a) && RunsFrom(cfg, End(cfg, s, a), b)
    ensures RunsFrom(cfg, s, a + b) && End(cfg, s, a + b) == End(cfg, End(cfg, s, a), b)
    decreases |a|
  {
    if a == [] {
      assert a + b == b;
    } else {
      RunJoins(cfg, Apply(cfg, s, a[0]), a[1..], b);
      assert (a + b)[1..] == a[1..] + b && (a + b)[0] == a[0];
    }
  }

  /** The worker that takes a step, if one does. */
  function Actor(step: Step): Option<nat> {
    match step
    case Begin(w, _) => Some(w)
    case Claim(w, _, _, _) => Some(w)
    case Publish(w, _) => Some(w)
    case Mark(w, _) => Some(w)
    case MarkError(w) => Some(w)
    case Crash(w) => Some(w)
    case _ => None
  }

  /** The steps of one worker, in order. */
  function Own(w: nat, log: seq<Step>): seq<Step> {
    if log == [] then []
    else
      var last := log[|log| - 1];
      Own(w, log[..|log| - 1]) + if Actor(last) == Some(w) then [last] else []
  }

  /** What one message takes: publishing it, and marking it unless that transaction breaks. */
  function Delivery(w: nat, accepted: bool, broken: bool, at: int): seq<Step> {
    [Publish(w, accepted), if broken then MarkError(w) else Mark(w, at)]
  }

  /** How one message ended: when its mark was made, where it stands in the log, and whether it took effect. */
  datatype Ending = Ending(at: int, place: nat, ok: bool)

  /** One delivery per message of a batch, in order. */
  function Deliveries(w: nat, verdicts: nat -> bool, breaks: nat -> bool, endings: seq<Ending>): seq<Step> {
    if endings == [] then []
    else
      var n := |endings| - 1;
      Deliveries(w, verdicts, breaks, endings[..n]) + Delivery(w, verdicts(n), breaks(n), endings[n].at)
  }

  /** The messages PublishPending reports: refused by the publisher, or not marked. */
  function ErrorsOf(records: seq<Claimed>, verdicts: nat -> bool, endings: seq<Ending>): seq<string>
    requires |endings| == |records|
  {
    if records == [] then []
    else
      var n := |records| - 1;
      ErrorsOf(records[..n], verdicts, endings[..n]) + if verdicts(n) && endings[n].ok then [] else [records[n].id]
  }

  /**
   * At this place of the log the worker marked the message, or its transaction broke; the mark
   * took effect exactly when it did not break and the table by then had the row under the token.
   */
  ghost predicate Ended(cfg: Config, start: int, log: seq<Step>, w: nat, record: Claimed, token: string, broken: bool,
                        ending: Ending) {
    && ending.place < |log| && log[ending.place] == (if broken then MarkError(w) else Mark(w, ending.at))
    && RunsFrom(cfg, Initial(start), log[..ending.place])
    && var table := End(cfg, Initial(start), log[..ending.place]).table;
       ending.ok == (!broken && Owns(table, record.id, token))
  }

  /** So did every message of a batch, one after the other, since the log had the first places. */
  ghost predicate AllEnded(cfg: Config, start: int, log: seq<Step>, first: nat, w: nat, records: seq<Claimed>,
                           token: string, breaks: nat -> bool, endings: seq<Ending>) {
    && |endings| == |records|
    && (forall i :: 0 <= i < |records| ==> Ended(cfg, start, log, w, records[i], token, breaks(i), endings[i]))
    && (forall i :: 0 <= i < |records| ==> first <= endings[i].place)
    && forall i, j :: 0 <= i < j < |records| ==> endings[i].place < endings[j].place
  }

  lemma EndsHere(cfg: Config, start: int, log: seq<Step>, more: seq<Step>, w: nat, record: Claimed, token: string,
                 broken: bool, ending: Ending)
    requires RunsFrom(cfg, Initial(start), log) && ending.place == |log|
    requires more == log + [if broken then MarkError(w) else Mark(w, ending.at)]
    requires var table := End(cfg, Initial(start), log).table; ending.ok == (!broken && Owns(table, record.id, token))
    ensures Ended(cfg, start, more, w, record, token, broken, ending)
  {
    assert more[..ending.place] == log;
  }

  lemma StillEnded(cfg: Config, start: int, log: seq<Step>, more: seq<Step>, w: nat, record: Claimed, token: string,
                   broken: bool, ending: Ending)
    requires Ended(cfg, start, log, w, record, token, broken, ending) && log <= more
    ensures Ended(cfg, start, more, w, record, token, broken, ending)
  {
    assert more[..ending.place] == log[..ending.place];
  }

  lemma EndedMore(cfg: Config, start: int, log: seq<Step>, more: seq<Step>, first: nat, w: nat, records: seq<Claimed>,
                  token: string, breaks: nat -> bool, endings: seq<Ending>, ending: Ending)
    requires |endings| < |records| && first <= |log| <= ending.place && log <= more
    requires AllEnded(cfg, start, log, first, w, records[..|endings|], token, breaks, endings)
    requires Ended(cfg, start, more, w, records[|endings|], token, breaks(|endings|), ending)
    ensures AllEnded(cfg, start, more, first, w, records[..|endings| + 1], token, breaks, endings + [ending])
  {
    var n := |endings|;
    forall i | 0 <= i < n + 1
      ensures Ended(cfg, start, more, w, records[..n + 1][i], token, breaks(i), (endings + [ending])[i])
    {
      if i < n {
        assert Ended(cfg, start, log, w, records[..n][i], token, breaks(i), endings[i]);
        StillEnded(cfg, start, log, more, w, records[i], token, breaks(i), endings[i]);
      }
    }
    forall i | 0 <= i < n ensures first <= endings[i].place < |log| {
      assert Ended(cfg, start, log, w, records[..n][i], token, breaks(i), endings[i]);
    }
  }

  ghost predicate OlderThan(t: Table, chosen: set<string>, others: set<string>) {
    && chosen <= t.Keys && others <= t.Keys
    && forall id, c :: id in others && c in chosen ==> t[c].createdAt <= t[id].createdAt
  }

  /** The rows chosen so far are the oldest, and these candidates are left. */
  ghost predicate Selecting(t: Table, batch: nat, eligible: set<string>, candidates: set<string>, chosen: set<string>,
                            records: seq<Claimed>) {
    && candidates == eligible - chosen && chosen <= eligible && |chosen| <= batch
    && Returned(t, chosen, records) && OlderThan(t, chosen, candidates)
  }

  lemma SelectsMore(t: Table, batch: nat, eligible: set<string>, candidates: set<string>, chosen: set<string>,
                    records: seq<Claimed>, id: string)
    requires Selecting(t, batch, eligible, candidates, chosen, records) && |chosen| < batch && id in candidates
    requires forall c :: c in candidates ==> t[id].createdAt <= t[c].createdAt
    ensures Selecting(t, batch, eligible, candidates - {id}, chosen + {id}, records + [Claimed(id, t[id].attempts)])
  {
    ReturnsMore(t, chosen, records, id);
  }

  lemma OldestChosen(t: Table, now: int, batch: nat, skipped: set<string>, eligible: set<string>, chosen: set<string>)
    requires forall id :: id in eligible <==> id in t && id !in skipped && Eligible(t[id], now)
    requires chosen <= eligible && |chosen| <= batch && (|chosen| < batch ==> chosen == eligible)
    requires OlderThan(t, chosen, eligible - chosen)
    ensures Chosen(t, now, batch, skipped, chosen)
  {
    forall id | id in t && id !in skipped && Eligible(t[id], now) ensures id in eligible {
    }
  }

  lemma CanClaim(cfg: Config, s: State, w: nat, skipped: set<string>, chosen: set<string>, records: seq<Claimed>)
    requires w in s.workers && s.workers[w].Clocked?
    requires Chosen(s.table, s.workers[w].since, cfg.batchSize, skipped, chosen) && Returned(s.table, chosen, records)
    ensures Enabled(cfg, s, Claim(w, skipped, chosen, records))
    ensures var worker, s' := s.workers[w], Apply(cfg, s, Claim(w, skipped, chosen, records));
            && s'.now == s.now
            && s'.table == OutboxTable.ClaimRows(s.table, chosen, worker.since + cfg.lease, worker.token)
            && s'.workers == s.workers[w := Delivering(worker.token, worker.since, records)]
  {
  }

  class Database {
    const config: Config
    const start: int
    var clock: int
    var rows: Table
    ghost var state: State
    ghost var log: seq<Step>

    ghost predicate Valid()
      reads this
    {
      && WellFormed(config)
      && RunsFrom(config, Initial(start), log) && state == End(config, Initial(start), log)
      && rows == state.table && clock == state.now
    }

    constructor (config: Config, now: int)
      requires WellFormed(config)
      ensures Valid() && log == [] && rows == map[]
    {
      this.config, start, clock, rows := config, now, now, map[];
      state, log := Initial(now), [];
    }

    /** Whatever other workers, the application and the clock do before worker w acts again. */
    method Others(ghost w: nat)
      requires Valid()
      modifies this
      ensures Valid() && old(log) <= log
      ensures (w in state.workers) == (w in old(state).workers)
      ensures w in state.workers ==> state.workers[w] == old(state).workers[w]
      ensures clock >= old(clock) && Own(w, log) == Own(w, old(log))
    {
    }

    ghost method Record(step: Step)
      requires WellFormed(config)
      requires RunsFrom(config, Initial(start), log) && state == End(config, Initial(start), log)
      requires Enabled(config, state, step)
      modifies `state, `log
      ensures RunsFrom(config, Initial(start), log) && state == End(config, Initial(start), log)
      ensures log == old(log) + [step] && state == Apply(config, old(state), step)
      ensures forall w: nat :: Own(w, log) == Own(w, old(log)) + if Actor(step) == Some(w) then [step] else []
    {
      assert (log + [step])[..|log|] == log;
      assert [step][1..] == [];
      assert RunsFrom(config, Apply(config, state, step), []);
      RunJoins(config, Initial(start), log, [step]);
      state, log := Apply(config, state, step), log + [step];
    }

    /** The oldest of some rows. */
    method Oldest(candidates: set<string>) returns (id: string)
      requires candidates != {} && forall c :: c in candidates ==> c in rows
      ensures id in candidates && forall c :: c in candidates ==> rows[id].createdAt <= rows[c].createdAt
    {
      id :| id in candidates;
      var todo := candidates - {id};
      while todo != {}
        invariant id in candidates && todo <= candidates
        invariant forall c :: c in candidates - todo ==> rows[id].createdAt <= rows[c].createdAt
        decreases |todo|
      {
        var c :| c in todo;
        if rows[c].createdAt < rows[id].createdAt {
          id := c;
        }
        todo := todo - {c};
      }
    }

    /** The selection of a claim: the oldest eligible rows that no other transaction holds. */
    method SelectRows(now: int, skipped: set<string>) returns (records: seq<Claimed>, chosen: set<string>)
      ensures Chosen(rows, now, config.batchSize, skipped, chosen) && Returned(rows, chosen, records)
    {
      var candidates := set id | id in rows && id !in skipped && Eligible(rows[id], now);
      ghost var eligible := candidates;
      chosen := {};
      records := [];
      while |chosen| < config.batchSize && candidates != {}
        invariant Selecting(rows, config.batchSize, eligible, candidates, chosen, records)
        decreases |candidates|
      {
        var id := Oldest(candidates);
        SelectsMore(rows, config.batchSize, eligible, candidates, chosen, records, id);
        records := records + [Claimed(id, rows[id].attempts)];
        chosen := chosen + {id};
        candidates := candidates - {id};
      }
      OldestChosen(rows, now, config.batchSize, skipped, eligible, chosen);
    }

    /** The claim statement: leases the selected rows under the worker's token. */
    method ClaimRows(w: nat, now: int, token: string, skipped: set<string>)
        returns (records: seq<Claimed>, chosen: set<string>)
      requires Valid() && w in state.workers && state.workers[w] == Clocked(token, now)
      modifies this
      ensures Valid() && old(log) <= log && clock == old(clock)
      ensures Own(w, log) == Own(w, old(log)) + [Claim(w, skipped, chosen, records)]
      ensures w in state.workers && state.workers[w] == Delivering(token, now, records)
      ensures Chosen(old(rows), now, config.batchSize, skipped, chosen) && Returned(old(rows), chosen, records)
      ensures rows == OutboxTable.ClaimRows(old(rows), chosen, now + config.lease, token)
      ensures forall id <- chosen :: id in rows && LeasedUntil(rows[id], token, now + config.lease)
    {
      records, chosen := SelectRows(now, skipped);
      LeasesChosen(rows, now, config.batchSize, skipped, chosen, token);
      rows := OutboxTable.ClaimRows(rows, chosen, now + config.lease, token);
      RecordClaim(w, now, token, skipped, chosen, records);
    }

    /** The worker's alone until then, and eligible from then on if nothing happens to it. */
    ghost predicate LeasedUntil(r: Row, token: string, until: int) {
      r.lockToken == Some(token) && forall t :: Eligible(r, t) <==> t > until
    }

    lemma LeasesChosen(before: Table, now: int, batch: nat, skipped: set<string>, chosen: set<string>, token: string)
      requires Chosen(before, now, batch, skipped, chosen) && WellFormed(config)
      ensures var after := OutboxTable.ClaimRows(before, chosen, now + config.lease, token);
              forall id <- chosen :: id in after && LeasedUntil(after[id], token, now + config.lease)
    {
      var until := now + config.lease;
      forall id | id in chosen ensures LeasedUntil(Leased(before[id], until, token), token, until) {
        var r := Leased(before[id], until, token);
        forall t ensures Eligible(r, t) <==> t > until {
          LeasedExactly(before[id], until, token, t);
        }
      }
    }

    ghost method RecordClaim(w: nat, now: int, token: string, skipped: set<string>, chosen: set<string>,
                             records: seq<Claimed>)
      requires WellFormed(config)
      requires RunsFrom(config, Initial(start), log) && state == End(config, Initial(start), log)
      requires w in state.workers && state.workers[w] == Clocked(token, now)
      requires Chosen(state.table, now, config.batchSize, skipped, chosen) && Returned(state.table, chosen, records)
      modifies `state, `log
      ensures RunsFrom(config, Initial(start), log) && state == End(config, Initial(start), log)
      ensures log == old(log) + [Claim(w, skipped, chosen, records)] && state.now == old(state).now
      ensures Own(w, log) == Own(w, old(log)) + [Claim(w, skipped, chosen, records)]
      ensures state.table == OutboxTable.ClaimRows(old(state).table, chosen, now + config.lease, token)
      ensures state.workers == old(state).workers[w := Delivering(token, now, records)]
    {
      CanClaim(config, state, w, skipped, chosen, records);
      Record(Claim(w, skipped, chosen, records));
    }

    /** A marked row: published for good, or refused and claimable again exactly after its delay, if ever. */
    ghost predicate MarkedAs(r: Row, record: Claimed, accepted: bool, at: int)
      requires WellFormed(config)
    {
      if accepted then r.publishedAt == Some(at) && forall now :: !Eligible(r, now)
      else
        var tried := record.attempts + 1;
        && r.attempts == tried && (r.failedAt.Some? <==> tried >= config.maxAttempts)
        && forall now :: Eligible(r, now) <==> tried < config.maxAttempts && now >= at + Delay(config, tried)
    }

    lemma MarkedAsMeant(was: Row, record: Claimed, accepted: bool, at: int)
      requires WellFormed(config) && !Terminal(was)
      ensures MarkedAs(if accepted then Published(was, at) else Failed(config, was, record.attempts, at),
                       record, accepted, at)
    {
      if !accepted {
        forall now
          ensures Eligible(Failed(config, was, record.attempts, at), now) <==>
                    record.attempts + 1 < config.maxAttempts && now >= at + Delay(config, record.attempts + 1)
        {
          RetriedExactly(config, was, record.attempts, at, now);
        }
      }
    }

    /** UPDATE ... WHERE id AND lock_token, rolled back unless exactly one row is affected. */
    method Mark(w: nat, record: Claimed, token: string, accepted: bool, at: int) returns (ok: bool)
      requires Valid() && w in state.workers && state.workers[w].Marking?
      requires state.workers[w].token == token && state.workers[w].accepted == accepted
      requires state.workers[w].todo != [] && state.workers[w].todo[0] == record
      requires state.workers[w].since <= at <= clock
      modifies this
      ensures Valid() && log == old(log) + [OutboxProtocol.Mark(w, at)] && clock == old(clock)
      ensures ok == Owns(old(rows), record.id, token)
      ensures Own(w, log) == Own(w, old(log)) + [OutboxProtocol.Mark(w, at)]
      ensures rows == if accepted then MarkPublished(old(rows), record.id, token, at)
                      else MarkFailed(config, old(rows), record.id, record.attempts, token, at)
      ensures ok ==> MarkedAs(rows[record.id], record, accepted, at)
      ensures w in state.workers
          && state.workers[w] == Delivering(token, old(state).workers[w].since, old(state).workers[w].todo[1..])
    {
      OwnedIsOpen(config, start, log, record.id, token);
      ok := record.id in rows && rows[record.id].lockToken == Some(token);
      if ok {
        MarkedAsMeant(rows[record.id], record, accepted, at);
        if accepted {
          rows := rows[record.id := Published(rows[record.id], at)];
        } else {
          rows := rows[record.id := Failed(config, rows[record.id], record.attempts, at)];
        }
      }
      Record(OutboxProtocol.Mark(w, at));
    }

    /** The transaction of a mark fails: nothing is written. */
    method BreakMark(w: nat)
      requires Valid() && w in state.workers && state.workers[w].Marking? && state.workers[w].todo != []
      modifies this
      ensures Valid() && log == old(log) + [MarkError(w)] && clock == old(clock) && rows == old(rows)
      ensures Own(w, log) == Own(w, old(log)) + [MarkError(w)]
      ensures w in state.workers
      ensures var was := old(state).workers[w]; state.workers[w] == Delivering(was.token, was.since, was.todo[1..])
    {
      Record(MarkError(w));
    }

    /** The publisher answers for the worker's first message. */
    method PublishFirst(w: nat, accepted: bool)
      requires Valid() && w in state.workers && state.workers[w].Delivering? && state.workers[w].todo != []
      modifies this
      ensures Valid() && log == old(log) + [Publish(w, accepted)] && clock == old(clock) && rows == old(rows)
      ensures Own(w, log) == Own(w, old(log)) + [Publish(w, accepted)]
      ensures w in state.workers
      ensures var was := old(state).workers[w]; state.workers[w] == Marking(was.token, was.since, was.todo, accepted)
    {
      Record(Publish(w, accepted));
    }

    /**
     * One message of the batch: publish it, then mark what the publisher answered,
     * on the rows as they are by then. The mark succeeds exactly when its
     * transaction does not break and the token still owns the row.
     */
    method Deliver(w: nat, record: Claimed, token: string, accepted: bool, broken: bool,
                   ghost since: int, ghost rest: seq<Claimed>)
      returns (ok: bool, ghost ending: Ending, ghost before: Table)
      requires Valid() && since <= clock
      requires w in state.workers && state.workers[w] == Delivering(token, since, [record] + rest)
      modifies this
      ensures Valid() && old(log) <= log && since <= ending.at <= clock
      ensures w in state.workers && state.workers[w] == Delivering(token, since, rest)
      ensures Own(w, log) == Own(w, old(log)) + Delivery(w, accepted, broken, ending.at)
      ensures |old(log)| <= ending.place && Ended(config, start, log, w, record, token, broken, ending)
      ensures ok == ending.ok == (!broken && Owns(before, record.id, token))
      ensures rows == if broken then before
                      else if accepted then MarkPublished(before, record.id, token, ending.at)
                      else MarkFailed(config, before, record.id, record.attempts, token, ending.at)
    {
      Others(w);
      PublishFirst(w, accepted);
      var markedAt := clock;
      Others(w);
      before := rows;
      ghost var was := log;
      assert ([record] + rest)[1..] == rest;
      if broken {
        BreakMark(w);
        ok := false;
      } else {
        ok := Mark(w, record, token, accepted, markedAt);
      }
      ending := Ending(markedAt, |was|, ok);
      EndsHere(config, start, was, log, w, record, token, broken, ending);
    }

    /** The first messages of a claimed batch have been delivered, and these are the errors so far. */
    ghost predicate Delivered(before: seq<Step>, w: nat, token: string, records: seq<Claimed>, since: int,
                              verdicts: nat -> bool, breaks: nat -> bool, endings: seq<Ending>, errors: seq<string>)
      requires |endings| <= |records|
      reads this
    {
      var n := |endings|;
      && Valid() && since <= clock && before <= log
      && w in state.workers && state.workers[w] == Delivering(token, since, records[n..])
      && errors == ErrorsOf(records[..n], verdicts, endings)
      && Own(w, log) == Own(w, before) + Deliveries(w, verdicts, breaks, endings)
      && AllEnded(config, start, log, |before|, w, records[..n], token, breaks, endings)
    }

    method DeliverNext(ghost before: seq<Step>, w: nat, token: string, records: seq<Claimed>, i: nat, ghost since: int,
                       verdicts: nat -> bool, breaks: nat -> bool, ghost endings: seq<Ending>, errors: seq<string>)
      returns (all: seq<string>, ghost ending: Ending)
      requires i == |endings| < |records|
      requires Delivered(before, w, token, records, since, verdicts, breaks, endings, errors)
      modifies this
      ensures Delivered(before, w, token, records, since, verdicts, breaks, endings + [ending], all)
    {
      assert records[i..] == [records[i]] + records[i + 1..];
      ghost var was := log;
      var ok;
      ghost var table;
      ok, ending, table := Deliver(w, records[i], token, verdicts(i), breaks(i), since, records[i + 1..]);
      all := errors;
      if !verdicts(i) || !ok {
        all := all + [records[i].id];
      }
      ErrorsMore(records, verdicts, endings, i, ending);
      DeliveriesMore(w, verdicts, breaks, endings, ending);
      Regroup(Own(w, before), Deliveries(w, verdicts, breaks, endings),
              Delivery(w, verdicts(i), breaks(i), ending.at));
      EndedMore(config, start, was, log, |before|, w, records, token, breaks, endings, ending);
    }

    /**
     * The loop over a claimed batch: each message once, in order; verdicts are the
     * publisher's answers. It reports the messages that were refused, and those
     * whose marks did not take effect on the table as it then was.
     */
    method DeliverAll(w: nat, token: string, records: seq<Claimed>, verdicts: nat -> bool, breaks: nat -> bool,
                      ghost since: int)
      returns (errors: seq<string>, ghost endings: seq<Ending>)
      requires Valid() && since <= clock && w in state.workers && state.workers[w] == Delivering(token, since, records)
      modifies this
      ensures Valid() && old(log) <= log
      ensures w in state.workers && state.workers[w] == Delivering(token, since, [])
      ensures Own(w, log) == Own(w, old(log)) + Deliveries(w, verdicts, breaks, endings)
      ensures AllEnded(config, start, log, |old(log)|, w, records, token, breaks, endings)
      ensures errors == ErrorsOf(records, verdicts, endings)
    {
      errors, endings := [], [];
      ghost var before := log;
      assert records[0..] == records;
      for i := 0 to |records|
        invariant |endings| == i && Delivered(before, w, token, records, since, verdicts, breaks, endings, errors)
      {
        ghost var ending;
        errors, ending := DeliverNext(before, w, token, records, i, since, verdicts, breaks, endings, errors);
        endings := endings + [ending];
      }
      assert records[..|records|] == records;
    }

    /**
     * Claims one batch and delivers each message of it once: besides what others do,
     * the worker begins, claims, and then publishes and marks every claimed message
     * in order, each with the verdict the publisher gave it.
     */
    method PublishPending(w: nat, token: string, skipped: set<string>, verdicts: nat -> bool, breaks: nat -> bool)
      returns (claimed: nat, errors: seq<string>,
               ghost records: seq<Claimed>, ghost chosen: set<string>, ghost endings: seq<Ending>)
      requires Valid() && w !in state.workers && token !in state.used
      modifies this
      ensures Valid() && old(log) <= log && claimed == |records| <= config.batchSize
      ensures w in state.workers && state.workers[w].Delivering? && state.workers[w].todo == []
      ensures Own(w, log) == Own(w, old(log)) + [Begin(w, token), Claim(w, skipped, chosen, records)]
                             + Deliveries(w, verdicts, breaks, endings)
      ensures AllEnded(config, start, log, |old(log)|, w, records, token, breaks, endings)
      ensures errors == ErrorsOf(records, verdicts, endings)
    {
      var batch, ids, now := ClaimBatch(w, token, skipped);
      records, chosen := batch, ids;
      errors, endings := DeliverAll(w, token, batch, verdicts, breaks, now);
      claimed := |batch|;
    }

    /** Draws a token, reads the clock, and claims; others may act in between. */
    method ClaimBatch(w: nat, token: string, skipped: set<string>)
      returns (records: seq<Claimed>, chosen: set<string>, now: int)
      requires Valid() && w !in state.workers && token !in state.used
      modifies this
      ensures Valid() && old(log) <= log && now <= clock && |records| <= config.batchSize
      ensures w in state.workers && state.workers[w] == Delivering(token, now, records)
      ensures Own(w, log) == Own(w, old(log)) + [Begin(w, token), Claim(w, skipped, chosen, records)]
    {
      now := BeginClaim(w, token);
      ghost var own := Own(w, log);
      records, chosen := ClaimRows(w, now, token, skipped);
      assert own + [Claim(w, skipped, chosen, records)]
          == Own(w, old(log)) + [Begin(w, token), Claim(w, skipped, chosen, records)];
    }

    method BeginClaim(w: nat, token: string) returns (now: int)
      requires Valid() && w !in state.workers && token !in state.used
      modifies this
      ensures Valid() && old(log) <= log && now <= clock
      ensures w in state.workers && state.workers[w] == Clocked(token, now)
      ensures Own(w, log) == Own(w, old(log)) + [Begin(w, token)]
    {
      now := clock;
      Record(Begin(w, token));
      Others(w);
    }
  }

  lemma ErrorsMore(records: seq<Claimed>, verdicts: nat -> bool, endings: seq<Ending>, i: nat, ending: Ending)
    requires |endings| == i < |records|
    ensures ErrorsOf(records[..i + 1], verdicts, endings + [ending])
         == ErrorsOf(records[..i], verdicts, endings) + if verdicts(i) && ending.ok then [] else [records[i].id]
  {
    assert records[..i + 1][..i] == records[..i] && (endings + [ending])[..i] == endings;
  }

  lemma DeliveriesMore(w: nat, verdicts: nat -> bool, breaks: nat -> bool, endings: seq<Ending>, ending: Ending)
    ensures Deliveries(w, verdicts, breaks, endings + [ending])
         == Deliveries(w, verdicts, breaks, endings) + Delivery(w, verdicts(|endings|), breaks(|endings|), ending.at)
  {
    assert (endings + [ending])[..|endings|] == endings;
  }
}
