/** The Postgres migrator: what is applied and what is recorded at every point where a run can stop
    (postgresmigrator/migrator.go). */
module Migrations {

  /** blankUp says that UpSQL holds nothing but white space, reversible that DownSQL holds more; the description
      tells apart two migrations of one version. */
  datatype Migration = Migration(version: int, description: string, blankUp: bool, reversible: bool)

  const INT32 := 0x8000_0000

  predicate InInt32(v: int) {
    -INT32 <= v < INT32
  }

  /** Go's int32 conversion: the low 32 bits, read as signed. */
  function ToInt32(v: int): (r: int)
    ensures InInt32(r)
    ensures InInt32(v) ==> r == v
  {
    var low := v % (2 * INT32);
    if low < INT32 then low else low - 2 * INT32
  }

  /** The database: whether the version table exists, the versions inserted into it in id order, and the migrations
      in effect. */
  datatype Database = Database(hasTable: bool, log: seq<int>, applied: set<Migration>)

  /** One nobody has migrated. */
  const EMPTY := Database(false, [], {})

  /** GetSchemaVersion, when its query succeeds. */
  function Recorded(db: Database): int {
    if !db.hasTable || db.log == [] then 0 else db.log[|db.log| - 1]
  }

  predicate Sorted(ms: seq<Migration>) {
    forall i, j :: 0 <= i < j < |ms| ==> ms[i].version <= ms[j].version
  }

  ghost predicate Ascending(ms: seq<Migration>) {
    forall i, j :: 0 <= i < j < |ms| ==> ms[i].version < ms[j].version
  }

  ghost predicate Storable(ms: seq<Migration>) {
    forall i :: 0 <= i < |ms| ==> InInt32(ms[i].version)
  }

  /** Unique versions that a Postgres integer holds. */
  ghost predicate Registered(ms: seq<Migration>) {
    Ascending(ms) && Storable(ms)
  }

  /** Everything at or below the recorded version is applied. */
  ghost predicate Covered(ms: seq<Migration>, db: Database) {
    forall i :: 0 <= i < |ms| && ms[i].version <= Recorded(db) ==> ms[i] in db.applied
  }

  /** Exactly the migrations at or below the recorded version are applied. */
  ghost predicate Exact(ms: seq<Migration>, db: Database) {
    forall i :: 0 <= i < |ms| ==> (ms[i].version <= Recorded(db) <==> ms[i] in db.applied)
  }

  function Latest(ms: seq<Migration>): int {
    if ms == [] then 0 else ms[|ms| - 1].version
  }

  function Max(a: int, b: int): int {
    if a < b then b else a
  }

  /** The version a run over all of ms that starts at current ends at. */
  function Top(current: int, ms: seq<Migration>): int {
    if ms == [] then current else Max(current, ms[|ms| - 1].version)
  }

  ghost predicate AllApplied(ms: seq<Migration>, db: Database) {
    forall i :: 0 <= i < |ms| ==> ms[i] in db.applied
  }

  /** A migration that a run starting at the given version would have to apply but cannot. */
  ghost predicate BlankPending(ms: seq<Migration>, current: int) {
    exists i :: 0 <= i < |ms| && ms[i].version > current && ms[i].blankUp
  }

  // ---- one transaction ----

  function Up(db: Database, m: Migration): Database {
    db.(log := db.log + [ToInt32(m.version)], applied := db.applied + {m})
  }

  function Down(db: Database, m: Migration, previous: int): Database {
    db.(log := db.log + [ToInt32(previous)], applied := db.applied - {m})
  }

  /** The version a down-migration to target records: the greatest registered one at or below it. */
  function Floor(ms: seq<Migration>, n: nat, target: int): int
    requires n <= |ms|
  {
    if n == 0 then target
    else if ms[n - 1].version <= target then ms[n - 1].version
    else Floor(ms, n - 1, target)
  }

  predicate InRange(m: Migration, target: int, current: int) {
    target < m.version <= current
  }

  /** The migrations a down-migration takes away, once it has dealt with those from position n on. */
  ghost function Reverted(ms: seq<Migration>, n: nat, target: int, current: int): set<Migration> {
    set i | n <= i < |ms| && InRange(ms[i], target, current) && ms[i].reversible :: ms[i]
  }

  /** A run. When calm, every query and transaction goes through; otherwise any of them may fail, a failed one may
      still have committed, and the process may die after any of them, which looks the same from the database. */
  class Migrator {
    var migrations: seq<Migration>
    var db: Database

    constructor (db: Database)
      ensures migrations == [] && this.db == db
    {
      migrations, this.db := [], db;
    }

    /** WithMigrations and AddMigrations: append, then sort by version. */
    method AddMigrations(more: seq<Migration>)
      modifies this`migrations
      ensures multiset(migrations) == multiset(old(migrations) + more) && Sorted(migrations)
    {
      var all := migrations + more;
      var sorted: seq<Migration> := [];
      for i := 0 to |all|
        invariant multiset(sorted) == multiset(all[..i]) && Sorted(sorted)
      {
        assert all[..i + 1] == all[..i] + [all[i]];
        sorted := InsertByVersion(sorted, all[i]);
      }
      assert all[..|all|] == all;
      migrations := sorted;
    }

    static method InsertByVersion(sorted: seq<Migration>, m: Migration) returns (longer: seq<Migration>)
      requires Sorted(sorted)
      ensures Sorted(longer) && multiset(longer) == multiset(sorted) + multiset{m}
    {
      hide Sorted;
      var k := 0;
      while k < |sorted| && sorted[k].version <= m.version
        invariant 0 <= k <= |sorted|
        invariant forall j :: 0 <= j < k ==> sorted[j].version <= m.version
      {
        k := k + 1;
      }
      longer := sorted[..k] + [m] + sorted[k..];
      InsertedInOrder(sorted, k, m);
      assert sorted == sorted[..k] + sorted[k..];
    }

    /** inTx around one step: committed or rolled back, and a commit whose acknowledgement is lost reads as an error. */
    method InTx(next: Database, calm: bool) returns (ok: bool)
      modifies this`db
      ensures db == next || db == old(db)
      ensures ok ==> db == next
      ensures calm ==> ok
    {
      var commits: bool := *;
      var acknowledged: bool := *;
      if calm || commits {
        db := next;
      }
      ok := calm || (commits && acknowledged);
    }

    method CreateSchemaVersionTable(calm: bool) returns (ok: bool)
      modifies this`db
      ensures db == old(db) || db == old(db).(hasTable := true, log := if old(db).hasTable then old(db).log else [])
      ensures ok ==> db.hasTable
      ensures Recorded(db) == Recorded(old(db)) && db.applied == old(db).applied
      ensures calm ==> ok
    {
      ok := InTx(db.(hasTable := true, log := if db.hasTable then db.log else []), calm);
    }

    method GetSchemaVersion(calm: bool) returns (version: int, ok: bool)
      ensures ok ==> version == Recorded(db)
      ensures calm ==> ok
    {
      var answered: bool := *;
      version := Recorded(db);
      ok := calm || answered;
    }

    /** applyMigrationWithTimeout: refused when there is nothing to run; the insert needs the version table. */
    method Apply(m: Migration, calm: bool) returns (ok: bool)
      modifies this`db
      ensures db == old(db) || (db == Up(old(db), m) && old(db).hasTable && !m.blankUp)
      ensures ok ==> db == Up(old(db), m) && old(db).hasTable && !m.blankUp
      ensures calm && old(db).hasTable && !m.blankUp ==> ok
    {
      if m.blankUp || !db.hasTable {
        return false;
      }
      ok := InTx(Up(db, m), calm);
    }

    method Revert(m: Migration, previous: int, calm: bool) returns (ok: bool)
      modifies this`db
      ensures db == old(db) || (db == Down(old(db), m, previous) && old(db).hasTable)
      ensures ok ==> db == Down(old(db), m, previous) && old(db).hasTable
      ensures calm && old(db).hasTable ==> ok
    {
      if !db.hasTable {
        return false;
      }
      ok := InTx(Down(db, m, previous), calm);
    }

    /** migrateUp: applies, in order, the migrations above current and up to target. */
    method ApplyRange(current: int, target: int, calm: bool) returns (ok: bool)
      requires Sorted(migrations) && Recorded(db) == current
      modifies this`db
      ensures Registered(migrations) && old(Covered(migrations, db)) ==> Covered(migrations, db)
      ensures Registered(migrations) && old(Exact(migrations, db)) ==> Exact(migrations, db)
      ensures Registered(migrations) ==> current <= Recorded(db) <= Top(current, migrations)
      ensures Registered(migrations) && ok && Latest(migrations) <= target ==> Recorded(db) == Top(current, migrations)
      ensures old(db).applied <= db.applied && OnlyRunnable(migrations, old(db), db)
      ensures ok ==> AppliedBetween(migrations, |migrations|, db, current, target)
      ensures ok ==> NoBlankBetween(migrations, |migrations|, current, target)
      ensures calm && old(db).hasTable && NoBlankBetween(migrations, |migrations|, current, target) ==> ok
    {
      hide Tracked, Registered, AppliedBetween, NoBlankBetween, OnlyRunnable, Recorded, Up;
      ghost var start := db;
      assert Climbing(migrations, 0, start, db, current, target) && NoBlankBetween(migrations, 0, current, target) by {
        NothingYet(migrations, db, current, target);
      }
      var i := 0;
      while i < |migrations|
        invariant 0 <= i <= |migrations|
        invariant Climbing(migrations, i, start, db, current, target)
        invariant NoBlankBetween(migrations, i, current, target)
      {
        var m := migrations[i];
        BlankOnward(migrations, i, current, target);
        if m.version <= current || m.version > target {
          SkipKeepsClimbing(migrations, i, start, db, current, target);
        } else {
          ghost var before := db;
          ok := Apply(m, calm);
          if !m.blankUp {
            UpKeepsClimbing(migrations, i, start, before, current, target);
          }
          if !ok {
            NotBlankHere(migrations, i, current, target);
            ClimbedSoFar(migrations, if db == before then i else i + 1, start, db, current, target);
            return false;
          }
        }
        i := i + 1;
      }
      ClimbedSoFar(migrations, i, start, db, current, target);
      return true;
    }

    /** CreateTables. */
    method CreateTables(calm: bool) returns (ok: bool)
      requires Sorted(migrations)
      modifies this`db
      ensures Registered(migrations) && old(Covered(migrations, db)) ==> Covered(migrations, db)
      ensures Registered(migrations) && old(Exact(migrations, db)) ==> Exact(migrations, db)
      ensures Registered(migrations) ==> Recorded(old(db)) <= Recorded(db) <= Top(Recorded(old(db)), migrations)
      ensures Registered(migrations) && ok ==> Recorded(db) == Top(Recorded(old(db)), migrations)
      ensures old(db).applied <= db.applied && OnlyRunnable(migrations, old(db), db)
      ensures ok ==> forall m :: m in migrations && m.version > Recorded(old(db)) ==> m in db.applied
      ensures ok && old(Covered(migrations, db)) ==> AllApplied(migrations, db)
      ensures calm ==> (ok <==> !BlankPending(migrations, Recorded(old(db))))
    {
      hide Tracked, Registered;
      ok := CreateSchemaVersionTable(calm);
      if !ok {
        return false;
      }
      var current, answered := GetSchemaVersion(calm);
      if !answered {
        return false;
      }
      ok := ApplyRange(current, Max(current, Latest(migrations)), calm);
      forall m | m in migrations ensures m.version <= Latest(migrations) {}
      if !ok {
        return false;
      }
      var ensured: bool := *;
      ok := calm || ensured;
    }

    /** migrateDown. */
    method MigrateDown(current: int, target: int, calm: bool) returns (ok: bool)
      requires Sorted(migrations) && Recorded(db) == current && target < current
      modifies this`db
      ensures old(Covered(migrations, db)) && Storable(migrations) && InInt32(target) ==> Covered(migrations, db)
      ensures exists n :: 0 <= n <= |migrations| && Descending(migrations, n, old(db), db, current, target)
      ensures ok ==> Descending(migrations, 0, old(db), db, current, target)
      ensures calm && old(db).hasTable ==> ok
    {
      hide Covered, Descending, Recorded, Down, Floor;
      ghost var start := db;
      NothingReverted(migrations, db, current, target);
      DescendingKeepsCovered(migrations, |migrations|, start, db, current, target);
      var i := |migrations|;
      while i > 0
        invariant 0 <= i <= |migrations|
        invariant db.hasTable == start.hasTable
        invariant Descending(migrations, i, start, db, current, target)
        invariant Covered(migrations, start) && Storable(migrations) && InInt32(target) ==> Covered(migrations, db)
      {
        i := i - 1;
        var m := migrations[i];
        if m.version > current || m.version <= target || !m.reversible {
          SkipKeepsDescending(migrations, i, start, db, current, target);
          continue;
        }
        var previous := PreviousVersion(i, target);
        ghost var before := db;
        ok := Revert(m, previous, calm);
        DownKeepsDescending(migrations, i, start, before, current, target);
        if before.hasTable && db == Down(before, m, previous) {
          DescendingKeepsCovered(migrations, i, start, db, current, target);
        }
        if !ok {
          return false;
        }
      }
      return true;
    }

    /** The inner loop of migrateDown. */
    method PreviousVersion(i: nat, target: int) returns (previous: int)
      requires i < |migrations|
      ensures previous == Floor(migrations, i, target)
    {
      var j := i;
      while j > 0
        invariant 0 <= j <= i && Floor(migrations, i, target) == Floor(migrations, j, target)
      {
        j := j - 1;
        if migrations[j].version <= target {
          return migrations[j].version;
        }
      }
      return target;
    }

    /** MigrateToVersion. */
    method MigrateToVersion(target: int, calm: bool) returns (ok: bool)
      requires Sorted(migrations)
      modifies this`db
      ensures Registered(migrations) && InInt32(target) && old(Covered(migrations, db)) ==> Covered(migrations, db)
      ensures ok && Recorded(old(db)) < target ==> AppliedBetween(migrations, |migrations|, db, Recorded(old(db)), target)
      ensures ok && target < Recorded(old(db)) ==> Descending(migrations, 0, old(db), db, Recorded(old(db)), target)
      ensures Recorded(old(db)) == target ==> db == old(db)
      ensures calm && old(db).hasTable && Recorded(old(db)) < target ==>
                (ok <==> NoBlankBetween(migrations, |migrations|, Recorded(old(db)), target))
      ensures calm && old(db).hasTable && target <= Recorded(old(db)) ==> ok
    {
      hide Covered, Descending, AppliedBetween, NoBlankBetween, OnlyRunnable, Recorded, Exact;
      var current, answered := GetSchemaVersion(calm);
      if !answered {
        return false;
      }
      if current == target {
        return true;
      }
      if target > current {
        ok := ApplyRange(current, target, calm);
      } else {
        ok := MigrateDown(current, target, calm);
      }
    }

    /** Any sequence of runs, each of which may fail or die anywhere. */
    method Operate(requests: seq<Request>)
      requires Registered(migrations) && forall k :: 0 <= k < |requests| ==> requests[k].Fits()
      modifies this`db
      ensures old(Covered(migrations, db)) ==> Covered(migrations, db)
      ensures old(Exact(migrations, db)) && (forall r :: r in requests ==> r.ToLatest?) ==> Exact(migrations, db)
    {
      hide Covered, Exact, Descending, AppliedBetween;
      for k := 0 to |requests|
        invariant old(Covered(migrations, db)) ==> Covered(migrations, db)
        invariant old(Exact(migrations, db)) && (forall r :: r in requests ==> r.ToLatest?) ==> Exact(migrations, db)
      {
        assert requests[k] in requests;
        match requests[k] {
          case ToLatest =>
            var _ := CreateTables(false);
          case ToVersion(target) =>
            var _ := MigrateToVersion(target, false);
        }
      }
    }

    /** However the runs before it ended, one undisturbed CreateTables leaves every migration applied and the latest
        version recorded, unless one it has to apply is blank, which it reports. */
    method OperateAndRecover(requests: seq<Request>) returns (ok: bool, ghost stopped: Database)
      requires Registered(migrations) && forall k :: 0 <= k < |requests| ==> requests[k].Fits()
      requires Covered(migrations, db)
      modifies this`db
      ensures ok <==> !BlankPending(migrations, Recorded(stopped))
      ensures ok ==> AllApplied(migrations, db) && Recorded(db) == Top(Recorded(stopped), migrations)
    {
      hide Covered, Exact, AllApplied;
      Operate(requests);
      stopped := db;
      ok := CreateTables(true);
    }

    /** A new database: however many runs die on the way, the record is exact at every stop and never falls, and one
        undisturbed run then applies everything and records the latest version, unless a migration is blank. */
    method FromScratch(runs: nat) returns (ok: bool, ghost stops: seq<Database>)
      requires Registered(migrations) && (forall m :: m in migrations ==> m.version > 0)
      requires db == EMPTY
      modifies this`db
      ensures |stops| == runs + 1 && stops[0] == EMPTY
      ensures forall k :: 0 <= k <= runs ==> Exact(migrations, stops[k])
      ensures forall j, k :: 0 <= j < k <= runs ==> Recorded(stops[j]) <= Recorded(stops[k])
      ensures ok <==> forall m :: m in migrations ==> !m.blankUp
      ensures ok ==> AllApplied(migrations, db) && Exact(migrations, db) && Recorded(db) == Latest(migrations)
    {
      hide Exact, Covered, OnTheWay, AllApplied, BlankPending, Recorded, Latest;
      EmptyIsOnTheWay(migrations);
      stops := [db];
      for k := 0 to runs
        invariant |stops| == k + 1 && stops[0] == EMPTY && stops[k] == db
        invariant forall j :: 0 <= j <= k ==> OnTheWay(migrations, stops[j])
        invariant forall i, j :: 0 <= i < j <= k ==> Recorded(stops[i]) <= Recorded(stops[j])
      {
        WayIsExact(migrations, db);
        var _ := CreateTables(false);
        RunStaysOnTheWay(migrations, stops[k], db);
        stops := stops + [db];
      }
      forall k | 0 <= k <= runs ensures Exact(migrations, stops[k]) {
        WayIsExact(migrations, stops[k]);
      }
      ghost var last := db;
      WayIsExact(migrations, last);
      ok := CreateTables(true);
    }
  }

  datatype Request = ToLatest | ToVersion(target: int)
  {
    predicate Fits() {
      ToVersion? ==> InInt32(target)
    }
  }

  lemma InsertedInOrder(sorted: seq<Migration>, k: nat, m: Migration)
    requires Sorted(sorted) && k <= |sorted|
    requires forall j :: 0 <= j < k ==> sorted[j].version <= m.version
    requires k < |sorted| ==> m.version <= sorted[k].version
    ensures Sorted(sorted[..k] + [m] + sorted[k..])
  {
  }

  // ---- climbing ----

  ghost predicate AppliedBetween(ms: seq<Migration>, n: nat, db: Database, current: int, target: int)
    requires n <= |ms|
  {
    forall j :: 0 <= j < n && current < ms[j].version <= target ==> ms[j] in db.applied
  }

  ghost predicate NoBlankBetween(ms: seq<Migration>, n: nat, current: int, target: int)
    requires n <= |ms|
  {
    forall j :: 0 <= j < n && current < ms[j].version <= target ==> !ms[j].blankUp
  }

  /** What a run added it could run, and lies above the version it started from. */
  ghost predicate OnlyRunnable(ms: seq<Migration>, start: Database, db: Database) {
    forall m :: m in db.applied ==> m in start.applied || (m in ms && !m.blankUp && m.version > Recorded(start))
  }

  /** Where a run that began at start stands after the first n migrations. */
  ghost predicate Climbing(ms: seq<Migration>, n: nat, start: Database, db: Database, current: int, target: int)
    requires n <= |ms|
  {
    && db.hasTable == start.hasTable && start.applied <= db.applied && Recorded(start) == current
    && OnlyRunnable(ms, start, db)
    && AppliedBetween(ms, n, db, current, target)
    && (Registered(ms) ==> Tracked(ms, n, start, db, current, target))
  }

  /** What the record says there. */
  ghost predicate Tracked(ms: seq<Migration>, n: nat, start: Database, db: Database, current: int, target: int)
    requires n <= |ms|
  {
    && (Covered(ms, start) ==> Covered(ms, db))
    && (Exact(ms, start) ==> Exact(ms, db))
    && current <= Recorded(db)
    && Recorded(db) <= Top(current, ms[..n])
    && ((n > 0 && ms[n - 1].version > target) || Recorded(db) == Top(current, ms[..n]))
  }

  lemma NothingYet(ms: seq<Migration>, db: Database, current: int, target: int)
    requires Recorded(db) == current
    ensures Climbing(ms, 0, db, db, current, target) && NoBlankBetween(ms, 0, current, target)
  {
  }

  lemma SkipKeepsClimbing(ms: seq<Migration>, n: nat, start: Database, db: Database, current: int, target: int)
    requires n < |ms| && Climbing(ms, n, start, db, current, target)
    requires ms[n].version <= current || ms[n].version > target
    ensures Climbing(ms, n + 1, start, db, current, target)
  {
    hide Covered, Exact, Recorded, OnlyRunnable;
    assert ms[..n + 1][n] == ms[n];
    if n > 0 && Registered(ms) { assert ms[n - 1].version < ms[n].version && ms[..n][n - 1] == ms[n - 1]; }
  }

  lemma UpKeepsClimbing(ms: seq<Migration>, n: nat, start: Database, db: Database, current: int, target: int)
    requires n < |ms| && Climbing(ms, n, start, db, current, target)
    requires current < ms[n].version <= target && !ms[n].blankUp
    ensures db.hasTable ==> Climbing(ms, n + 1, start, Up(db, ms[n]), current, target)
  {
    hide Tracked;
    if db.hasTable && Registered(ms) {
      UpKeepsTracked(ms, n, start, db, current, target);
    }
  }

  lemma UpKeepsTracked(ms: seq<Migration>, n: nat, start: Database, db: Database, current: int, target: int)
    requires Registered(ms) && n < |ms| && Tracked(ms, n, start, db, current, target) && db.hasTable
    requires AppliedBetween(ms, n, db, current, target)
    requires current < ms[n].version <= target
    ensures Tracked(ms, n + 1, start, Up(db, ms[n]), current, target)
  {
    hide Covered, Exact;
    var after := Up(db, ms[n]);
    assert Recorded(after) == ms[n].version;
    assert ms[..n + 1][n] == ms[n];
    if n > 0 { assert ms[n - 1].version < ms[n].version && ms[..n][n - 1] == ms[n - 1]; }
    forall i | 0 <= i < n && current < ms[i].version ensures ms[i] in db.applied {
      assert ms[i].version < ms[n].version;
    }
    if Covered(ms, start) { UpKeepsCoveredExactlyWhen(ms, n, db, current); }
    if Exact(ms, start) { UpKeepsExact(ms, n, db, current); }
  }

  /** Whatever the versions are: with everything before it applied, applying the next migration keeps coverage
      exactly when no other migration of the same version is still to come. */
  lemma UpKeepsCoveredExactlyWhen(ms: seq<Migration>, n: nat, db: Database, current: int)
    requires Sorted(ms) && n < |ms| && InInt32(ms[n].version) && db.hasTable && current <= Recorded(db)
    requires forall i :: 0 <= i < n && current < ms[i].version ==> ms[i] in db.applied
    requires Covered(ms, db)
    ensures Covered(ms, Up(db, ms[n])) <==>
            forall j :: n < j < |ms| && ms[j].version == ms[n].version ==> ms[j] == ms[n] || ms[j] in db.applied
  {
    assert Recorded(Up(db, ms[n])) == ms[n].version;
    forall j | n < j < |ms| ensures ms[n].version <= ms[j].version {}
  }

  lemma UpKeepsExact(ms: seq<Migration>, n: nat, db: Database, current: int)
    requires Registered(ms) && n < |ms| && db.hasTable && current <= Recorded(db)
    requires forall i :: 0 <= i < n && current < ms[i].version ==> ms[i] in db.applied
    requires Recorded(db) < ms[n].version
    requires current < ms[n].version && Exact(ms, db)
    ensures Exact(ms, Up(db, ms[n]))
  {
    UpKeepsCoveredExactlyWhen(ms, n, db, current);
    assert forall i :: 0 <= i < |ms| && ms[i] == ms[n] ==> i == n;
  }

  lemma ClimbedSoFar(ms: seq<Migration>, n: nat, start: Database, db: Database, current: int, target: int)
    requires n <= |ms| && Climbing(ms, n, start, db, current, target)
    ensures Registered(ms) ==>
              && (Covered(ms, start) ==> Covered(ms, db))
              && (Exact(ms, start) ==> Exact(ms, db))
              && current <= Recorded(db) <= Top(current, ms)
              && (n == |ms| && Latest(ms) <= target ==> Recorded(db) == Top(current, ms))
  {
    hide Covered, Exact, Recorded;
    assert ms[..|ms|] == ms;
    if n > 0 && Registered(ms) { assert ms[..n][n - 1] == ms[n - 1] && ms[n - 1].version <= Latest(ms); }
  }

  lemma BlankOnward(ms: seq<Migration>, n: nat, current: int, target: int)
    requires n < |ms| && NoBlankBetween(ms, n, current, target)
    ensures !(current < ms[n].version <= target && ms[n].blankUp) ==> NoBlankBetween(ms, n + 1, current, target)
  {
  }

  lemma NotBlankHere(ms: seq<Migration>, n: nat, current: int, target: int)
    requires n < |ms| && current < ms[n].version <= target
    ensures NoBlankBetween(ms, |ms|, current, target) ==> !ms[n].blankUp
  {
  }

  // ---- descending ----

  /** Where a down-migration that began at start stands once it has dealt with the migrations from position n on:
      the reversible ones in the range are gone, and the first of them already recorded the final version. */
  ghost predicate Descending(ms: seq<Migration>, n: nat, start: Database, db: Database, current: int, target: int) {
    && db.hasTable == start.hasTable && Recorded(start) == current
    && db.applied == start.applied - Reverted(ms, n, target, current)
    && Recorded(db) == (if Reverted(ms, n, target, current) == {} then current else ToInt32(Floor(ms, |ms|, target)))
    && (Reverted(ms, n, target, current) == {} ==> db == start)
  }

  lemma NothingReverted(ms: seq<Migration>, db: Database, current: int, target: int)
    requires Recorded(db) == current
    ensures Descending(ms, |ms|, db, db, current, target)
  {
    assert Reverted(ms, |ms|, target, current) == {};
  }

  lemma RevertedOnward(ms: seq<Migration>, n: nat, target: int, current: int)
    requires n < |ms|
    ensures Reverted(ms, n, target, current) ==
            Reverted(ms, n + 1, target, current)
            + if InRange(ms[n], target, current) && ms[n].reversible then {ms[n]} else {}
  {
  }

  lemma SkipKeepsDescending(ms: seq<Migration>, n: nat, start: Database, db: Database, current: int, target: int)
    requires n < |ms| && Descending(ms, n + 1, start, db, current, target)
    requires !InRange(ms[n], target, current) || !ms[n].reversible
    ensures Descending(ms, n, start, db, current, target)
  {
    RevertedOnward(ms, n, target, current);
  }

  lemma {:induction false} FloorIgnoresHigher(ms: seq<Migration>, n: nat, m: nat, target: int)
    requires Sorted(ms) && n <= m <= |ms| && (n < |ms| ==> ms[n].version > target)
    ensures Floor(ms, m, target) == Floor(ms, n, target)
    decreases m
  {
    if m > n {
      assert m - 1 > n ==> ms[n].version <= ms[m - 1].version;
      FloorIgnoresHigher(ms, n, m - 1, target);
    }
  }

  lemma DownKeepsDescending(ms: seq<Migration>, n: nat, start: Database, db: Database, current: int, target: int)
    requires Sorted(ms) && n < |ms| && Descending(ms, n + 1, start, db, current, target)
    requires InRange(ms[n], target, current) && ms[n].reversible
    ensures db.hasTable ==> Descending(ms, n, start, Down(db, ms[n], Floor(ms, n, target)), current, target)
  {
    RevertedOnward(ms, n, target, current);
    FloorIgnoresHigher(ms, n, |ms|, target);
  }

  lemma {:induction false} FloorIsBelow(ms: seq<Migration>, n: nat, target: int)
    requires Sorted(ms) && n <= |ms|
    ensures Floor(ms, n, target) <= target
    ensures Floor(ms, n, target) == target || exists i :: 0 <= i < n && ms[i].version == Floor(ms, n, target)
    ensures forall i :: 0 <= i < n && ms[i].version <= target ==> ms[i].version <= Floor(ms, n, target)
  {
    if n > 0 && ms[n - 1].version > target {
      FloorIsBelow(ms, n - 1, target);
    }
  }

  lemma FloorFits(ms: seq<Migration>, target: int)
    requires Sorted(ms) && Storable(ms) && InInt32(target)
    ensures ToInt32(Floor(ms, |ms|, target)) == Floor(ms, |ms|, target)
  {
    FloorIsBelow(ms, |ms|, target);
  }

  lemma DescendingKeepsCovered(ms: seq<Migration>, n: nat, start: Database, db: Database, current: int, target: int)
    requires Sorted(ms) && Descending(ms, n, start, db, current, target) && target < current
    ensures Covered(ms, start) && Storable(ms) && InInt32(target) ==> Covered(ms, db)
  {
    if Covered(ms, start) && Storable(ms) && InInt32(target) {
      FloorFits(ms, target);
      FloorIsBelow(ms, |ms|, target);
    }
  }

  // ---- what a down-migration means ----

  /** A complete down-migration takes away exactly the reversible migrations in (target, current], and records the
      greatest registered version at or below the target, the target itself when there is none, or nothing new when
      nothing was reversible. */
  lemma DownMeans(ms: seq<Migration>, start: Database, db: Database, current: int, target: int)
    requires Sorted(ms) && Storable(ms) && InInt32(target) && Descending(ms, 0, start, db, current, target)
    ensures forall i :: 0 <= i < |ms| ==>
              (ms[i] in db.applied <==>
               ms[i] in start.applied && !(InRange(ms[i], target, current) && ms[i].reversible))
    ensures (forall i :: 0 <= i < |ms| && InRange(ms[i], target, current) ==> !ms[i].reversible) ==> db == start
    ensures (exists i :: 0 <= i < |ms| && InRange(ms[i], target, current) && ms[i].reversible) ==>
              && Recorded(db) <= target
              && (Recorded(db) == target || exists i :: 0 <= i < |ms| && ms[i].version == Recorded(db))
              && (forall i :: 0 <= i < |ms| && ms[i].version <= target ==> ms[i].version <= Recorded(db))
  {
    FloorFits(ms, target);
    FloorIsBelow(ms, |ms|, target);
    var gone := Reverted(ms, 0, target, current);
    assert forall i :: 0 <= i < |ms| ==> (ms[i] in gone <==> InRange(ms[i], target, current) && ms[i].reversible);
  }

  /** Wherever a down-migration of an exact database stops after its first revert, the record is exact exactly when no
      migration of the range is still applied: the final version is recorded before the rest of the work is done. */
  lemma ExactMidwayExactlyWhen(ms: seq<Migration>, n: nat, start: Database, db: Database, current: int, target: int)
    requires Sorted(ms) && Storable(ms) && InInt32(target) && target < current
    requires Descending(ms, n, start, db, current, target) && Exact(ms, start)
    requires Reverted(ms, n, target, current) != {}
    ensures Exact(ms, db) <==> forall i :: 0 <= i < |ms| && InRange(ms[i], target, current) ==> ms[i] !in db.applied
  {
    FloorFits(ms, target);
    FloorIsBelow(ms, |ms|, target);
    forall m | m in Reverted(ms, n, target, current) ensures target < m.version <= current {}
    assert forall i :: 0 <= i < |ms| ==> (ms[i].version <= Recorded(db) <==> ms[i].version <= target);
  }

  // ---- starting points ----

  /** Before any run the record is exact if and only if every version is positive. */
  lemma EmptyIsExactExactlyWhenPositive(ms: seq<Migration>)
    ensures Exact(ms, EMPTY) <==> forall m :: m in ms ==> m.version > 0
  {
  }

  lemma ExactIsCovered(ms: seq<Migration>, db: Database)
    requires Exact(ms, db)
    ensures Covered(ms, db)
  {
  }

  /** Where runs over a new database stand. */
  ghost predicate OnTheWay(ms: seq<Migration>, db: Database) {
    Exact(ms, db) && 0 <= Recorded(db) <= Latest(ms) && forall m :: m in db.applied ==> !m.blankUp
  }

  lemma EmptyIsOnTheWay(ms: seq<Migration>)
    requires forall m :: m in ms ==> m.version > 0
    ensures OnTheWay(ms, EMPTY)
  {
    EmptyIsExactExactlyWhenPositive(ms);
  }

  lemma RunStaysOnTheWay(ms: seq<Migration>, db: Database, after: Database)
    requires OnTheWay(ms, db) && Exact(ms, after) && OnlyRunnable(ms, db, after)
    requires Recorded(db) <= Recorded(after) <= Top(Recorded(db), ms)
    ensures OnTheWay(ms, after)
  {
  }

  /** What is left to do on the way is blank somewhere exactly when some migration is. */
  lemma WayIsExact(ms: seq<Migration>, db: Database)
    requires OnTheWay(ms, db)
    ensures Exact(ms, db) && Covered(ms, db) && Top(Recorded(db), ms) == Latest(ms)
    ensures BlankPending(ms, Recorded(db)) <==> exists m :: m in ms && m.blankUp
  {
    ExactIsCovered(ms, db);
    if m :| m in ms && m.blankUp {
      var i :| 0 <= i < |ms| && ms[i] == m;
      assert ms[i].version > Recorded(db);
    }
  }

  /** Applying a migration records its own version exactly when that fits a Postgres integer; a larger one is cut to
      its low 32 bits, so the next run would read something else. */
  lemma RecordsItselfExactlyInInt32(db: Database, m: Migration)
    requires db.hasTable
    ensures Recorded(Up(db, m)) == m.version <==> InInt32(m.version)
  {
  }
}
