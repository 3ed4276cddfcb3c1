/** The outbox table and what each SQL statement of the outbox does to it. Times are clock ticks. */
module OutboxTable {
  import opened Numbers
  import opened Options

  datatype Row = Row(
    createdAt: int, attempts: nat, availableAt: int, lockedUntil: Option<int>, lockToken: Option<string>,
    publishedAt: Option<int>, failedAt: Option<int>)

  type Table = map<string, Row>

  datatype Config = Config(batchSize: nat, lease: int, backoff: int, maxAttempts: nat)

  predicate WellFormed(cfg: Config) {
    cfg.batchSize > 0 && cfg.lease > 0 && cfg.backoff > 0 && cfg.maxAttempts > 0
  }

  predicate Terminal(r: Row) {
    r.publishedAt.Some? || r.failedAt.Some?
  }

  /** The WHERE clause shared by both claim statements. */
  predicate Eligible(r: Row, now: int) {
    !Terminal(r) && r.availableAt <= now && (r.lockedUntil.None? || r.lockedUntil.value < now)
  }

  /** Enqueue: the row of a new message. */
  function NewRow(now: int, availableAt: int): Row {
    Row(now, 0, availableAt, None, None, None, None)
  }

  function Leased(r: Row, until: int, token: string): Row {
    r.(lockedUntil := Some(until), lockToken := Some(token))
  }

  function ClaimRows(t: Table, chosen: set<string>, until: int, token: string): Table {
    map id | id in t :: if id in chosen then Leased(t[id], until, token) else t[id]
  }

  /**
   * ORDER BY created_at LIMIT batch: the oldest eligible rows. PostgreSQL skips
   * the rows that concurrent transactions hold; SQLite never has any.
   */
  ghost predicate Chosen(t: Table, now: int, batch: nat, skipped: set<string>, chosen: set<string>) {
    && |chosen| <= batch
    && (forall id :: id in chosen ==> id in t && id !in skipped && Eligible(t[id], now))
    && (forall id, c :: id in t && id !in skipped && Eligible(t[id], now) && id !in chosen && c in chosen ==>
          t[c].createdAt <= t[id].createdAt)
    && (|chosen| < batch ==> forall id :: id in t && id !in skipped && Eligible(t[id], now) ==> id in chosen)
  }

  /** Exponential backoff, capped at eight doublings. */
  function Delay(cfg: Config, attempts: nat): int
    requires attempts > 0
  {
    cfg.backoff * Power(2, if attempts - 1 < 8 then attempts - 1 else 8)
  }

  predicate Owns(t: Table, id: string, token: string) {
    id in t && t[id].lockToken == Some(token)
  }

  function Published(r: Row, at: int): Row {
    r.(publishedAt := Some(at), lockedUntil := None, lockToken := None)
  }

  /** attempts is the count the worker read when it claimed the message. */
  function Failed(cfg: Config, r: Row, attempts: nat, at: int): Row {
    var n := attempts + 1;
    if n >= cfg.maxAttempts then r.(attempts := n, failedAt := Some(at), lockedUntil := None, lockToken := None)
    else r.(attempts := n, availableAt := at + Delay(cfg, n), lockedUntil := None, lockToken := None)
  }

  function MarkPublished(t: Table, id: string, token: string, at: int): Table {
    if Owns(t, id, token) then t[id := Published(t[id], at)] else t
  }

  function MarkFailed(cfg: Config, t: Table, id: string, attempts: nat, token: string, at: int): Table {
    if Owns(t, id, token) then t[id := Failed(cfg, t[id], attempts, at)] else t
  }

  /** The first delay is the backoff, each of the next eight is twice the one before, and there it stays. */
  lemma DelayDoubles(cfg: Config, n: nat)
    requires n >= 1
    ensures Delay(cfg, 1) == cfg.backoff
    ensures n < 9 ==> Delay(cfg, n + 1) == 2 * Delay(cfg, n)
    ensures n >= 9 ==> Delay(cfg, n) == 256 * cfg.backoff
  {
    assert Power(2, 0) == 1;
    if n < 9 {
      assert Power(2, n) == 2 * Power(2, n - 1);
      TwiceOf(cfg.backoff, Power(2, n - 1));
    } else {
      assert Power(2, 4) == 16;
      assert Power(2, 8) == 256;
    }
  }

  lemma TwiceOf(b: int, p: int)
    ensures b * (2 * p) == 2 * (b * p)
  {
  }

  /** A refused message can be claimed again exactly when its delay has passed, and never at the maximum. */
  lemma RetriedExactly(cfg: Config, r: Row, attempts: nat, at: int, now: int)
    requires !Terminal(r)
    ensures Eligible(Failed(cfg, r, attempts, at), now) <==>
              attempts + 1 < cfg.maxAttempts && now >= at + Delay(cfg, attempts + 1)
  {
  }

  /** A leased row can be claimed again exactly when the lease has run out, a new one exactly when it is due. */
  lemma LeasedExactly(r: Row, until: int, token: string, now: int)
    ensures Eligible(Leased(r, until, token), now) <==> !Terminal(r) && r.availableAt <= now && until < now
    ensures Leased(r, until, token).lockToken == Some(token) && Leased(r, until, token).attempts == r.attempts
  {
  }

  lemma NewRowExactly(created: int, availableAt: int, now: int)
    ensures Eligible(NewRow(created, availableAt), now) <==> availableAt <= now
    ensures NewRow(created, availableAt).attempts == 0 && NewRow(created, availableAt).createdAt == created
  {
  }

  lemma DelayPositive(cfg: Config, attempts: nat)
    requires WellFormed(cfg) && attempts > 0
    ensures Delay(cfg, attempts) >= cfg.backoff > 0
    ensures attempts > 1 ==> Delay(cfg, attempts) >= Delay(cfg, attempts - 1)
  {
    var k := if attempts - 1 < 8 then attempts - 1 else 8;
    Times(cfg.backoff, 1, Power(2, k));
    if attempts > 1 {
      var j := if attempts - 2 < 8 then attempts - 2 else 8;
      Times(cfg.backoff, Power(2, j), Power(2, k));
    }
  }
}
