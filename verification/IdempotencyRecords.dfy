/**
 * One idempotency key as an atomic object: what Claim, Complete and Release
 * answer on a record, and what they leave behind. Every store refines this.
 */
module IdempotencyRecords {
  import opened Options

  datatype Response = Response(status: int, header: map<string, seq<string>>, body: seq<char>)

  datatype Record =
    | Pending(fingerprint: string, owner: string)
    | Complete(fingerprint: string, response: Response)

  /** The answer to a claim: a new claim, or the state of an existing one. */
  datatype Claim = Claim(acquired: bool, pending: bool, fingerprint: string, response: Option<Response>)

  datatype Outcome = Done | OwnershipLost

  function Existing(r: Record): Claim {
    match r
    case Pending(f, _) => Claim(false, true, f, None)
    case Complete(f, response) => Claim(false, false, f, Some(response))
  }

  function ClaimOn(r: Option<Record>, fingerprint: string, owner: string): (Option<Record>, Claim) {
    match r
    case None => (Some(Pending(fingerprint, owner)), Claim(true, true, fingerprint, None))
    case Some(record) => (r, Existing(record))
  }

  function CompleteOn(r: Option<Record>, fingerprint: string, owner: string, response: Response)
    : (Option<Record>, Outcome)
  {
    if r == Some(Pending(fingerprint, owner)) then (Some(Complete(fingerprint, response)), Done) else (r, OwnershipLost)
  }

  function ReleaseOn(r: Option<Record>, owner: string): (Option<Record>, Outcome) {
    match r
    case None => (None, Done)
    case Some(record) => if record.Pending? && record.owner == owner then (None, Done) else (r, OwnershipLost)
  }

  /**
   * A claim that was acquired can be completed once, by its owner for its request, or
   * released by its owner, any number of times; nobody else can do either, and what is
   * complete stays.
   */
  lemma OwnersOnly(f: string, o: string, g: string, p: string, response: Response, other: Response)
    ensures var (claimed, answer) := ClaimOn(None, f, o);
            var (completed, done) := CompleteOn(claimed, f, o, response);
            var (released, gone) := ReleaseOn(claimed, o);
            && answer.acquired && done == Done && completed == Some(Complete(f, response))
            && gone == Done && released == None && ReleaseOn(released, o) == (None, Done)
            && (g != f || p != o ==> CompleteOn(claimed, g, p, response) == (claimed, OwnershipLost))
            && (p != o ==> ReleaseOn(claimed, p) == (claimed, OwnershipLost))
            && CompleteOn(completed, g, p, other) == (completed, OwnershipLost)
            && CompleteOn(released, g, p, other) == (None, OwnershipLost)
            && ReleaseOn(completed, p) == (completed, OwnershipLost)
  {
  }

  /** Why a record changed. */
  datatype Cause =
    | Claimed(fingerprint: string, owner: string)
    | Completed(fingerprint: string, owner: string, response: Response)
    | Released(owner: string)
    | Expired

  datatype Change = Change(cause: Cause, before: Option<Record>, after: Option<Record>)

  /** A change is one effective abstract operation, or an expiry. */
  ghost predicate Legal(c: Change) {
    && c.before != c.after
    && match c.cause
       case Claimed(f, o) => c.before.None? && c.after == ClaimOn(c.before, f, o).0
       case Completed(f, o, response) => CompleteOn(c.before, f, o, response) == (c.after, Done)
       case Released(o) => ReleaseOn(c.before, o) == (c.after, Done)
       case Expired => c.after.None?
  }

  ghost predicate By(c: Change, owner: string) {
    match c.cause
    case Claimed(_, o) => o == owner
    case Completed(_, o, _) => o == owner
    case Released(o) => o == owner
    case Expired => false
  }

  /** The record after the first k changes of a log that starts from nothing. */
  function StateAt(log: seq<Change>, k: nat): Option<Record>
    requires k <= |log|
  {
    if k == 0 then None else log[k - 1].after
  }

  ghost predicate LegalAt(log: seq<Change>, k: nat)
    requires k < |log|
  {
    Legal(log[k]) && log[k].before == StateAt(log, k)
  }

  ghost predicate LegalLog(log: seq<Change>) {
    forall k {:trigger LegalAt(log, k)} :: 0 <= k < |log| ==> LegalAt(log, k)
  }

  lemma LogGrows(log: seq<Change>, c: Change)
    requires LegalLog(log) && Legal(c) && c.before == StateAt(log, |log|)
    ensures LegalLog(log + [c])
  {
    forall k | 0 <= k < |log| + 1
      ensures LegalAt(log + [c], k)
    {
      if k < |log| {
        assert LegalAt(log, k);
      }
    }
  }

  /**
   * Over any legal history: a pending record leaves only by its own owner or
   * by expiry, a complete record only by expiry, and only a claim fills the key.
   */
  lemma WhoMayChange(log: seq<Change>, i: nat)
    requires LegalLog(log) && i < |log|
    ensures match StateAt(log, i)
            case None => log[i].cause.Claimed?
            case Some(Pending(f, o)) =>
              log[i].cause == Expired || log[i].cause == Released(o)
              || (log[i].cause.Completed? && log[i].cause.fingerprint == f && log[i].cause.owner == o)
            case Some(Complete(_, _)) => log[i].cause == Expired
  {
    assert LegalAt(log, i);
  }

  /** Without expiry a completion is the last thing that ever happens to a key. */
  lemma CompletionIsFinal(log: seq<Change>, j: nat)
    requires LegalLog(log) && j < |log| && log[j].cause.Completed?
    requires forall k :: 0 <= k < |log| ==> log[k].cause != Expired
    ensures j == |log| - 1
  {
    assert LegalAt(log, j);
    if j + 1 < |log| {
      WhoMayChange(log, j + 1);
    }
  }

  /** A completion takes effect right after its own claim: no other change came between. */
  lemma CompletionFollowsClaim(log: seq<Change>, j: nat)
    requires LegalLog(log) && j < |log| && log[j].cause.Completed?
    ensures 0 < j && log[j - 1].cause == Claimed(log[j].cause.fingerprint, log[j].cause.owner)
  {
    assert LegalAt(log, j);
    assert LegalAt(log, j - 1);
  }
}
