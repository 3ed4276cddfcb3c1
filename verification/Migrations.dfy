/** Schema migrations: each runs once, in version order, inside one transaction per call. */
module Migrations {
  import opened Options
  import opened Sorting

  datatype Migration = Migration(id: string, version: int, name: string, sql: string, upSql: string)

  datatype Prepared = Prepared(id: string, version: int, name: string, sql: string, checksum: string)

  /** Library code: white-space trimming, the default identifier of a version and a name, and the digest. */
  datatype Library = Library(trim: string -> string, defaultID: (int, string) -> string, digest: string -> string)

  // ---- preparing -----------------------------------------------------------------------

  function PrepareOne(lib: Library, m: Migration, index: nat): Option<Prepared> {
    var version := if m.version == 0 then index + 1 else m.version;
    var id := lib.trim(if lib.trim(m.id) == "" then lib.defaultID(version, m.name) else m.id);
    var sql := if lib.trim(m.sql) == "" then m.upSql else m.sql;
    if version < 1 || lib.trim(sql) == "" then None
    else Some(Prepared(id, version, m.name, sql, lib.digest(sql)))
  }

  /** A migration with its defaults written out: its place as version, the library's identifier, and the older SQL. */
  function WithDefaults(lib: Library, m: Migration, index: nat): Migration {
    var version := if m.version == 0 then index + 1 else m.version;
    Migration(if lib.trim(m.id) == "" then lib.defaultID(version, m.name) else m.id, version, m.name,
              if lib.trim(m.sql) == "" then m.upSql else m.sql, "")
  }

  /** What is left empty might as well be written out; then exactly a positive version and some SQL are needed. */
  lemma PreparedExactly(lib: Library, m: Migration, index: nat)
    requires forall s :: lib.trim(lib.trim(s)) == lib.trim(s)
    requires forall v, name :: lib.trim(lib.defaultID(v, name)) != ""
    ensures var full := WithDefaults(lib, m, index);
            && PrepareOne(lib, full, index) == PrepareOne(lib, m, index)
            && PrepareOne(lib, full, index) ==
                 if full.version < 1 || lib.trim(full.sql) == "" then None
                 else Some(Prepared(lib.trim(full.id), full.version, full.name, full.sql, lib.digest(full.sql)))
  {
  }

  /** Every migration is well formed, and no two share an identifier or a version. */
  predicate Preparable(lib: Library, ms: seq<Migration>) {
    && (forall i :: 0 <= i < |ms| ==> PrepareOne(lib, ms[i], i).Some?)
    && forall i, j :: 0 <= i < j < |ms| ==>
         && PrepareOne(lib, ms[i], i).value.id != PrepareOne(lib, ms[j], j).value.id
         && PrepareOne(lib, ms[i], i).value.version != PrepareOne(lib, ms[j], j).value.version
  }

  function AllPrepared(lib: Library, ms: seq<Migration>): (r: seq<Prepared>)
    requires Preparable(lib, ms)
  {
    seq(|ms|, i requires 0 <= i < |ms| => PrepareOne(lib, ms[i], i).value)
  }

  /** In increasing version order, with distinct identifiers. */
  ghost predicate Ready(ps: seq<Prepared>) {
    forall i, j :: 0 <= i < j < |ps| ==> ps[i].version < ps[j].version && ps[i].id != ps[j].id
  }

  ghost predicate Distinct(ps: seq<Prepared>) {
    forall i, j :: 0 <= i < j < |ps| ==> ps[i].version != ps[j].version && ps[i].id != ps[j].id
  }

  ghost function IDs(ps: seq<Prepared>): set<string> {
    set p | p in ps :: p.id
  }

  ghost function Versions(ps: seq<Prepared>): set<int> {
    set p | p in ps :: p.version
  }

  function ByVersion(a: Prepared, b: Prepared): int {
    a.version - b.version
  }

  lemma SortedIsReady(s: seq<Prepared>, r: seq<Prepared>)
    requires Distinct(s) && Ordered(ByVersion, r) && multiset(r) == multiset(s)
    ensures Ready(r) && |r| == |s|
  {
    Rearranged(s, r);
    assert NoDuplicates(s);
    forall i, j | 0 <= i < j < |r| ensures r[i].version < r[j].version && r[i].id != r[j].id {
      assert r[i] in s && r[j] in s;
      assert ByVersion(r[i], r[j]) <= 0;
    }
  }

  method Prepare(lib: Library, migrations: seq<Migration>) returns (r: Option<seq<Prepared>>)
    ensures r.Some? <==> Preparable(lib, migrations)
    ensures r.Some? ==> Ready(r.value) && multiset(r.value) == multiset(AllPrepared(lib, migrations))
  {
    var prepared: seq<Prepared> := [];
    var ids: set<string>, versions: set<int> := {}, {};
    for index := 0 to |migrations|
      invariant PreparedSoFar(lib, migrations, prepared) && |prepared| == index
      invariant Distinct(prepared)
      invariant ids == IDs(prepared)
      invariant versions == Versions(prepared)
    {
      var migration := migrations[index];
      if migration.version == 0 {
        migration := migration.(version := index + 1);
      }
      if migration.version < 1 {
        assert PrepareOne(lib, migrations[index], index).None?;
        return None;
      }
      if lib.trim(migration.id) == "" {
        migration := migration.(id := lib.defaultID(migration.version, migration.name));
      }
      migration := migration.(id := lib.trim(migration.id));
      if migration.id in ids || migration.version in versions {
        Clash(lib, migrations, prepared, index, migration.id, migration.version);
        return None;
      }
      ids, versions := ids + {migration.id}, versions + {migration.version};
      var sqlText := migration.sql;
      if lib.trim(sqlText) == "" {
        sqlText := migration.upSql;
      }
      if lib.trim(sqlText) == "" {
        assert PrepareOne(lib, migrations[index], index).None?;
        return None;
      }
      var p := Prepared(migration.id, migration.version, migration.name, sqlText, lib.digest(sqlText));
      PreparedMore(lib, migrations, prepared, p);
      DistinctMore(prepared, p);
      prepared := prepared + [p];
    }
    AllAreIn(lib, migrations, prepared);
    var sorted := SortFunc(ByVersion, prepared);
    SortedIsReady(prepared, sorted);
    r := Some(sorted);
  }

  /** The first migrations, each prepared. */
  ghost predicate PreparedSoFar(lib: Library, ms: seq<Migration>, prepared: seq<Prepared>) {
    |prepared| <= |ms| && forall i :: 0 <= i < |prepared| ==> PrepareOne(lib, ms[i], i) == Some(prepared[i])
  }

  lemma PreparedMore(lib: Library, ms: seq<Migration>, prepared: seq<Prepared>, p: Prepared)
    requires PreparedSoFar(lib, ms, prepared) && |prepared| < |ms|
        && PrepareOne(lib, ms[|prepared|], |prepared|) == Some(p)
    ensures PreparedSoFar(lib, ms, prepared + [p])
  {
  }

  lemma AllAreIn(lib: Library, ms: seq<Migration>, prepared: seq<Prepared>)
    requires PreparedSoFar(lib, ms, prepared) && |prepared| == |ms| && Distinct(prepared)
    ensures Preparable(lib, ms) && prepared == AllPrepared(lib, ms)
  {
  }

  lemma DistinctMore(ps: seq<Prepared>, p: Prepared)
    requires Distinct(ps) && p.id !in IDs(ps) && p.version !in Versions(ps)
    ensures Distinct(ps + [p]) && IDs(ps + [p]) == IDs(ps) + {p.id} && Versions(ps + [p]) == Versions(ps) + {p.version}
  {
    forall i | 0 <= i < |ps| ensures ps[i].id != p.id && ps[i].version != p.version {
      assert ps[i] in ps;
    }
  }

  lemma Clash(lib: Library, ms: seq<Migration>, prepared: seq<Prepared>, index: nat, id: string, version: int)
    requires |prepared| == index < |ms| && PreparedSoFar(lib, ms, prepared)
    requires (exists p <- prepared :: p.id == id) || exists p <- prepared :: p.version == version
    requires PrepareOne(lib, ms[index], index).Some? ==>
      PrepareOne(lib, ms[index], index).value.id == id && PrepareOne(lib, ms[index], index).value.version == version
    ensures !Preparable(lib, ms)
  {
    if exists p <- prepared :: p.id == id {
      var i :| 0 <= i < index && prepared[i].id == id;
      assert PrepareOne(lib, ms[i], i) == Some(prepared[i]);
    } else {
      var i :| 0 <= i < index && prepared[i].version == version;
      assert PrepareOne(lib, ms[i], i) == Some(prepared[i]);
    }
  }

  // ---- applying ------------------------------------------------------------------------

  datatype Entry = Entry(version: int, checksum: string)

  type History = map<string, Entry>

  /** The migrations a run still has to execute, in its order. */
  function Pending(ps: seq<Prepared>, history: History): seq<Prepared> {
    if ps == [] then []
    else
      var last := ps[|ps| - 1];
      var before := Pending(ps[..|ps| - 1], history);
      if last.id in history then before else before + [last]
  }

  ghost predicate Recorded(history: History, executed: seq<Prepared>) {
    && (forall i, j :: 0 <= i < j < |executed| ==> executed[i].id != executed[j].id)
    && history.Keys == IDs(executed)
    && forall p <- executed :: history[p.id] == Entry(p.version, p.checksum)
  }

  ghost predicate Checksummed(lib: Library, executed: seq<Prepared>) {
    forall p <- executed :: p.checksum == lib.digest(p.sql)
  }

  lemma RecordOne(history: History, executed: seq<Prepared>, p: Prepared)
    requires Recorded(history, executed) && p.id !in history
    ensures Recorded(history[p.id := Entry(p.version, p.checksum)], executed + [p])
  {
  }

  lemma {:induction false} PendingMembers(ps: seq<Prepared>, history: History)
    ensures forall p :: p in Pending(ps, history) <==> p in ps && p.id !in history
  {
    if ps != [] {
      PendingMembers(ps[..|ps| - 1], history);
      assert ps == ps[..|ps| - 1] + [ps[|ps| - 1]];
    }
  }

  /** What remains pending keeps its order. */
  lemma {:induction false} PendingReady(ps: seq<Prepared>, history: History)
    requires Ready(ps)
    ensures Ready(Pending(ps, history))
  {
    if ps != [] {
      PendingReady(ps[..|ps| - 1], history);
      PendingMembers(ps[..|ps| - 1], history);
      var before := Pending(ps[..|ps| - 1], history);
      forall i | 0 <= i < |before| ensures before[i] in ps[..|ps| - 1] {
        assert before[i] in before;
      }
    }
  }

  /** Nothing is pending once every migration is in the history. */
  lemma {:induction false} NothingPending(ps: seq<Prepared>, history: History)
    requires forall p <- ps :: p.id in history
    ensures Pending(ps, history) == []
  {
    if ps != [] {
      NothingPending(ps[..|ps| - 1], history);
    }
  }

  /** What may go wrong outside: beginning, executing the SQL of a migration, committing. */
  datatype Failures = Failures(begin: bool, sql: string -> bool, commit: bool)

  /** A migration goes through: recorded unchanged already, or its SQL succeeds and no record has its version. */
  ghost predicate Applies(history: History, sqlFails: string -> bool, p: Prepared) {
    if p.id in history then history[p.id].checksum == p.checksum
    else !sqlFails(p.sql) && forall id <- history.Keys :: history[id].version != p.version
  }

  ghost predicate AllApply(history: History, sqlFails: string -> bool, ps: seq<Prepared>) {
    forall p <- ps :: Applies(history, sqlFails, p)
  }

  class Database {
    const lib: Library
    var history: History
    ghost var executed: seq<Prepared>

    /** executed lists the migrations committed so far, in order: exactly those in the history. */
    ghost predicate Valid()
      reads this
    {
      Recorded(history, executed) && Checksummed(lib, executed)
    }

    constructor (lib: Library)
      ensures Valid() && this.lib == lib && history == map[] && executed == []
    {
      this.lib := lib;
      history, executed := map[], [];
    }

    /**
     * A run succeeds exactly when its list is well formed, the transaction begins
     * and commits, and every migration goes through. A failing run changes nothing.
     * A successful one executes the pending migrations in increasing version order
     * and leaves every migration of its list recorded with its checksum, so running
     * the list again executes none.
     */
    method AutoMigrate(migrations: seq<Migration>, failures: Failures) returns (ok: bool, ghost list: seq<Prepared>)
      requires Valid()
      modifies this
      ensures Valid()
      ensures !ok ==> history == old(history) && executed == old(executed)
      ensures ok ==>
        && Preparable(lib, migrations) && Ready(list) && multiset(list) == multiset(AllPrepared(lib, migrations))
        && executed == old(executed) + Pending(list, old(history))
        && forall p <- list :: p.id in history && history[p.id].checksum == p.checksum
      ensures ok <==>
        && Preparable(lib, migrations) && !failures.begin && !failures.commit
        && AllApply(old(history), failures.sql, AllPrepared(lib, migrations))
      ensures ok && Repeated(lib, migrations, old(history)) ==> executed == old(executed)
    {
      list := [];
      var prepared := Prepare(lib, migrations);
      if prepared.None? {
        return false, list;
      }
      list := prepared.value;
      FromList(lib, migrations, list);
      if failures.begin {
        return false, list;
      }
      var applied := history;
      ghost var run := executed;
      for i := 0 to |prepared.value|
        invariant history == old(history) && executed == old(executed)
        invariant Applying(history, executed, list, i, applied, run)
        invariant Recorded(applied, run) && Checksummed(lib, run)
        invariant AllApply(history, failures.sql, list[..i])
      {
        var migration := prepared.value[i];
        assert migration in list;
        OneMore(list, i, history);
        VersionFree(list, i, applied, history);
        if migration.id in history {
          if history[migration.id].checksum != migration.checksum {
            return false, list;
          }
          SkipNext(history, executed, list, i, applied, run);
        } else {
          if failures.sql(migration.sql) || exists id :: id in applied && applied[id].version == migration.version {
            return false, list;
          }
          ApplyNext(history, executed, list, i, applied, run);
          NotYetApplied(list, i, applied, history);
          RecordOne(applied, run, migration);
          applied := applied[migration.id := Entry(migration.version, migration.checksum)];
          run := run + [migration];
        }
      }
      assert list[..|list|] == list;
      if failures.commit {
        return false, list;
      }
      history := applied;
      executed := run;
      ok := true;
      AllOfThem(lib, migrations, list, old(history), failures.sql);
      if Repeated(lib, migrations, old(history)) {
        NothingPending(list, old(history));
      }
    }
  }

  /** A transaction that has worked through the first i migrations of its list. */
  ghost predicate Applying(history: History, executed: seq<Prepared>, list: seq<Prepared>, i: nat, applied: History,
      run: seq<Prepared>)
    requires i <= |list|
  {
    && run == executed + Pending(list[..i], history)
    && applied.Keys == history.Keys + IDs(list[..i])
    && Extends(history, applied)
    && Matches(list, i, applied)
    && NewVersions(history, applied, list[..i])
  }

  /** What the transaction adds has the versions of migrations it worked through. */
  ghost predicate NewVersions(history: History, applied: History, ps: seq<Prepared>) {
    forall id <- applied.Keys - history.Keys :: applied[id].version in Versions(ps)
  }

  /** Versions in a list are distinct, so a record in the way was there before the run. */
  lemma VersionFree(list: seq<Prepared>, i: nat, applied: History, history: History)
    requires Ready(list) && i < |list| && Extends(history, applied) && NewVersions(history, applied, list[..i])
    ensures (exists id :: id in applied && applied[id].version == list[i].version) <==>
            exists id :: id in history && history[id].version == list[i].version
  {
    forall p | p in list[..i] ensures p.version != list[i].version {
      var k :| 0 <= k < i && list[k] == p;
    }
    if id :| id in applied && applied[id].version == list[i].version {
      assert id in history && history[id] == applied[id];
    }
  }

  lemma AllOfThem(lib: Library, ms: seq<Migration>, list: seq<Prepared>, history: History, sqlFails: string -> bool)
    requires Preparable(lib, ms) && multiset(list) == multiset(AllPrepared(lib, ms))
    requires AllApply(history, sqlFails, list)
    ensures AllApply(history, sqlFails, AllPrepared(lib, ms))
  {
    forall p | p in AllPrepared(lib, ms) ensures Applies(history, sqlFails, p) {
      assert p in multiset(AllPrepared(lib, ms));
      assert p in list;
    }
  }

  ghost predicate Extends(history: History, applied: History) {
    forall id <- history.Keys :: id in applied && applied[id] == history[id]
  }

  lemma ExtendsMore(history: History, applied: History, id: string, e: Entry)
    requires Extends(history, applied) && id !in history
    ensures Extends(history, applied[id := e])
  {
  }

  lemma OneMore(ps: seq<Prepared>, i: nat, h: History)
    requires i < |ps|
    ensures ps[..i + 1] == ps[..i] + [ps[i]] && IDs(ps[..i + 1]) == IDs(ps[..i]) + {ps[i].id}
    ensures Versions(ps[..i + 1]) == Versions(ps[..i]) + {ps[i].version}
    ensures Pending(ps[..i + 1], h) == Pending(ps[..i], h) + if ps[i].id in h then [] else [ps[i]]
  {
    assert ps[..i + 1] == ps[..i] + [ps[i]] && ps[..i + 1][..i] == ps[..i];
  }

  lemma SkipNext(history: History, executed: seq<Prepared>, list: seq<Prepared>, i: nat, applied: History,
      run: seq<Prepared>)
    requires Ready(list) && i < |list| && Applying(history, executed, list, i, applied, run)
    requires list[i].id in history && history[list[i].id].checksum == list[i].checksum
    ensures Applying(history, executed, list, i + 1, applied, run)
  {
    OneMore(list, i, history);
  }

  lemma VersionsMore(list: seq<Prepared>, i: nat, applied: History, history: History, e: Entry)
    requires i < |list| && NewVersions(history, applied, list[..i]) && e.version == list[i].version
    ensures NewVersions(history, applied[list[i].id := e], list[..i + 1])
  {
    assert list[..i + 1] == list[..i] + [list[i]];
  }

  lemma ApplyNext(history: History, executed: seq<Prepared>, list: seq<Prepared>, i: nat, applied: History,
      run: seq<Prepared>)
    requires Ready(list) && i < |list| && Applying(history, executed, list, i, applied, run)
    requires list[i].id !in history
    ensures Applying(history, executed, list, i + 1, applied[list[i].id := Entry(list[i].version, list[i].checksum)],
        run + [list[i]])
  {
    var p := list[i];
    var e := Entry(p.version, p.checksum);
    NotYetApplied(list, i, applied, history);
    Matching(list, i, applied, e);
    ExtendsMore(history, applied, p.id, e);
    VersionsMore(list, i, applied, history, e);
    OneMore(list, i, history);
    Grown(executed, Pending(list[..i], history), run, p);
  }

  lemma Grown(executed: seq<Prepared>, pending: seq<Prepared>, run: seq<Prepared>, p: Prepared)
    requires run == executed + pending
    ensures run + [p] == executed + (pending + [p])
  {
  }

  /** The migrations worked through are recorded with their checksums. */
  ghost predicate Matches(list: seq<Prepared>, i: nat, applied: History)
    requires i <= |list|
  {
    forall p <- list[..i] :: p.id in applied && applied[p.id].checksum == p.checksum
  }

  lemma Matching(list: seq<Prepared>, i: nat, applied: History, e: Entry)
    requires i < |list| && Matches(list, i, applied) && list[i].id !in applied && e.checksum == list[i].checksum
    ensures Matches(list, i + 1, applied[list[i].id := e])
  {
    assert list[..i + 1] == list[..i] + [list[i]];
  }

  /** Every migration of the list is in the history already, unchanged. */
  ghost predicate Repeated(lib: Library, ms: seq<Migration>, history: History)
    requires Preparable(lib, ms)
  {
    forall p <- AllPrepared(lib, ms) :: p.id in history && history[p.id].checksum == p.checksum
  }

  lemma FromList(lib: Library, ms: seq<Migration>, list: seq<Prepared>)
    requires Preparable(lib, ms) && multiset(list) == multiset(AllPrepared(lib, ms))
    ensures forall p <- list :: p in AllPrepared(lib, ms) && p.checksum == lib.digest(p.sql)
  {
    forall p | p in list ensures p in AllPrepared(lib, ms) && p.checksum == lib.digest(p.sql) {
      assert p in multiset(list);
    }
  }

  /** Identifiers in a list are distinct, so a migration is applied only if the history had it. */
  lemma NotYetApplied(list: seq<Prepared>, i: nat, applied: History, history: History)
    requires Ready(list) && i < |list| && applied.Keys == history.Keys + IDs(list[..i])
    ensures list[i].id in applied <==> list[i].id in history
  {
    forall p | p in list[..i] ensures p.id != list[i].id {
      var k :| 0 <= k < i && list[k] == p;
    }
  }
}
