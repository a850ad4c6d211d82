/** Schema startup (src/main.rs: `refuse_old_lineage`, `apply_migrations_from`,
    `verify_model_registry` and the order they run in; src/db/sqlite3.rs,
    `migration_transaction`).

    SQL is a parameter: any function that turns database contents into other
    contents or fails, with any count of dangling references, any set of model
    rows and any application id read back from the contents. */
module Migrations {
  import opened Basics

  const APPLICATION_ID: int := 0x4D58_3033

  datatype Migration = Migration(version: int, sql: string)

  datatype ModelRow = ModelRow(id: string, dim: int)

  datatype Engine<!C> = Engine(
    execute: (string, C) -> Option<C>, violations: C -> nat, models: C -> seq<ModelRow>, applicationId: C -> int)

  /** The committed database. `history` lists the versions whose batches ran in
      committed transactions; the code keeps no such list. */
  datatype Database<C> = Database(content: C, userVersion: int, history: seq<int>)

  datatype StartupError = OldLineage | SqlFailed | DanglingReferences(count: nat) | ModelUnknown(id: string) | DimDiffers(id: string) | ModelMissing(id: string)

  datatype Outcome<C> = Started(db: Database<C>, version: int, applied: bool) | Failed(error: StartupError)

  /** A binary: its compiled migrations and model registry. */
  datatype Binary = Binary(migrations: seq<Migration>, registry: seq<ModelRow>)

  // ----- the three steps -----

  /** `migrations.iter().filter(|(v, _)| *v > current)` */
  function Pending(migrations: seq<Migration>, current: int): (r: seq<Migration>)
    ensures |r| <= |migrations|
  {
    if migrations == [] then []
    else if migrations[0].version > current then [migrations[0]] + Pending(migrations[1..], current)
    else Pending(migrations[1..], current)
  }

  function ExecuteAll<C>(e: Engine<C>, c: C, ms: seq<Migration>): Option<C> {
    if ms == [] then Some(c)
    else
      match ExecuteAll(e, c, ms[..|ms| - 1])
      case None => None
      case Some(c') => e.execute(ms[|ms| - 1].sql, c')
  }

  function Versions(ms: seq<Migration>): (r: seq<int>)
    ensures |r| == |ms| && forall i :: 0 <= i < |r| ==> r[i] == ms[i].version
  {
    seq(|ms|, i requires 0 <= i < |ms| => ms[i].version)
  }

  /** The effect of `apply_migrations_from` inside its transaction. */
  function ApplyMigrations<C>(e: Engine<C>, db: Database<C>, migrations: seq<Migration>): Outcome<C> {
    var pending := Pending(migrations, db.userVersion);
    match ExecuteAll(e, db.content, pending)
    case None => Failed(SqlFailed)
    case Some(c) =>
      if pending == [] then Started(db, db.userVersion, false)
      else if e.violations(c) > 0 then Failed(DanglingReferences(e.violations(c)))
      else
        var last := pending[|pending| - 1].version;
        Started(Database(c, last, db.history + Versions(pending)), last, true)
  }

  /** `model_by_id` */
  function ModelById(registry: seq<ModelRow>, id: string): Option<ModelRow> {
    if registry == [] then None else if registry[0].id == id then Some(registry[0]) else ModelById(registry[1..], id)
  }

  function FirstBadRow(rows: seq<ModelRow>, registry: seq<ModelRow>): (r: Option<StartupError>)
    ensures r.None? <==> forall i :: 0 <= i < |rows| ==>
      ModelById(registry, rows[i].id).Some? && ModelById(registry, rows[i].id).value.dim == rows[i].dim
  {
    if rows == [] then None
    else
      match ModelById(registry, rows[0].id)
      case None => Some(ModelUnknown(rows[0].id))
      case Some(spec) => if spec.dim != rows[0].dim then Some(DimDiffers(rows[0].id)) else FirstBadRow(rows[1..], registry)
  }

  function FirstMissing(rows: seq<ModelRow>, registry: seq<ModelRow>): (r: Option<StartupError>)
    ensures r.None? <==> forall i :: 0 <= i < |registry| ==> exists j :: 0 <= j < |rows| && rows[j].id == registry[i].id
  {
    if registry == [] then None
    else if exists j :: 0 <= j < |rows| && rows[j].id == registry[0].id then FirstMissing(rows, registry[1..])
    else Some(ModelMissing(registry[0].id))
  }

  /** `verify_model_registry`; None is `Ok(())`. */
  function VerifyRegistry(rows: seq<ModelRow>, registry: seq<ModelRow>): Option<StartupError> {
    if FirstBadRow(rows, registry).Some? then FirstBadRow(rows, registry) else FirstMissing(rows, registry)
  }

  /** The startup closure, in its order. */
  function Startup<C>(e: Engine<C>, db: Database<C>, b: Binary): Outcome<C> {
    if e.applicationId(db.content) != APPLICATION_ID && db.userVersion > 0 then Failed(OldLineage)
    else
      match ApplyMigrations(e, db, b.migrations)
      case Failed(error) => Failed(error)
      case Started(after, version, applied) =>
        match VerifyRegistry(e.models(after.content), b.registry)
        case Some(error) => Failed(error)
        case None => Started(after, version, applied)
  }

  // ----- the imperative form -----

  /** A connection: the committed database, and the one an open transaction sees. */
  class Connection<C> {
    var committed: Database<C>
    var current: Database<C>

    constructor (db: Database<C>)
      ensures committed == db && current == db
    {
      committed := db;
      current := db;
    }

    /** `apply_migrations_from`: batches run one by one in the open transaction. */
    method ApplyMigrationsFrom(e: Engine<C>, migrations: seq<Migration>) returns (error: Option<StartupError>, version: int, applied: bool)
      modifies this`current
      ensures ApplyMigrations(e, old(current), migrations) ==
        if error.None? then Started(current, version, applied) else Failed(error.value)
    {
      var pending := Pending(migrations, current.userVersion);
      version, applied := current.userVersion, false;
      var content := current.content;
      for k := 0 to |pending|
        invariant ExecuteAll(e, old(current).content, pending[..k]) == Some(content)
        invariant current == old(current).(content := content)
      {
        ExecuteOneMore(e, old(current).content, pending, k);
        var next := e.execute(pending[k].sql, content);
        if next.None? {
          FailureIsFinal(e, old(current).content, pending, k + 1);
          return Some(SqlFailed), version, applied;
        }
        content := next.value;
        current := current.(content := content);
      }
      assert pending[..|pending|] == pending;
      if pending != [] {
        var violations := e.violations(content);
        if violations > 0 {
          return Some(DanglingReferences(violations)), version, applied;
        }
        version, applied := pending[|pending| - 1].version, true;
        current := current.(userVersion := version, history := current.history + Versions(pending));
      }
      error := None;
    }

    /** One process start: the closure runs in one transaction, committed only if
        every step succeeded and the process was not killed before the commit. */
    method Start(e: Engine<C>, b: Binary, killed: bool) returns (ok: bool)
      requires current == committed
      modifies this
      ensures current == committed == AfterStart(e, old(committed), b, killed)
      ensures ok <==> Startup(e, old(committed), b).Started? && !killed
    {
      ok := false;
      if e.applicationId(current.content) != APPLICATION_ID && current.userVersion > 0 {
        return;
      }
      var error, _, _ := ApplyMigrationsFrom(e, b.migrations);
      if error.Some? || VerifyRegistry(e.models(current.content), b.registry).Some? || killed {
        current := committed;
        return;
      }
      committed := current;
      ok := true;
    }
  }

  lemma {:induction false} ExecuteOneMore<C>(e: Engine<C>, c: C, ms: seq<Migration>, k: nat)
    requires k < |ms|
    ensures ExecuteAll(e, c, ms[..k + 1]) ==
      match ExecuteAll(e, c, ms[..k]) { case None => None case Some(c') => e.execute(ms[k].sql, c') }
  {
    assert ms[..k + 1][..k] == ms[..k];
  }

  lemma {:induction false} FailureIsFinal<C>(e: Engine<C>, c: C, ms: seq<Migration>, k: nat)
    requires k <= |ms| && ExecuteAll(e, c, ms[..k]).None?
    ensures ExecuteAll(e, c, ms).None?
  {
    if k < |ms| {
      assert ms[..|ms| - 1][..k] == ms[..k];
      FailureIsFinal(e, c, ms[..|ms| - 1], k);
    } else {
      assert ms[..k] == ms;
    }
  }

  /** The committed database after one process start. */
  function AfterStart<C>(e: Engine<C>, db: Database<C>, b: Binary, killed: bool): Database<C> {
    var outcome := Startup(e, db, b);
    if outcome.Started? && !killed then outcome.db else db
  }

  // ----- whole histories -----

  ghost predicate StrictlyAscending(ms: seq<Migration>) {
    forall i, j :: 0 <= i < j < |ms| ==> ms[i].version < ms[j].version
  }

  /** The migrations a database at `version` has been through: those above 0 and
      at most `version`. */
  function UpTo(ms: seq<Migration>, version: int): seq<Migration> {
    if ms == [] then []
    else
      var m := ms[|ms| - 1];
      UpTo(ms[..|ms| - 1], version) + if 0 < m.version <= version then [m] else []
  }

  /** The contents are the in-order fold, from the empty database, of exactly the
      migrations up to `user_version`, and those are the ones that ever ran. */
  ghost predicate Consistent<C(!new)>(e: Engine<C>, empty: C, ms: seq<Migration>, db: Database<C>) {
    db.userVersion >= 0 &&
    ExecuteAll(e, empty, UpTo(ms, db.userVersion)) == Some(db.content) &&
    db.history == Versions(UpTo(ms, db.userVersion))
  }

  lemma {:induction false} ExecuteAppend<C>(e: Engine<C>, c: C, a: seq<Migration>, b: seq<Migration>)
    ensures ExecuteAll(e, c, a + b) ==
      match ExecuteAll(e, c, a) { case None => None case Some(c') => ExecuteAll(e, c', b) }
  {
    if b == [] {
      assert a + b == a;
    } else {
      ExecuteAppend(e, c, a, b[..|b| - 1]);
      assert (a + b)[..|a + b| - 1] == a + b[..|b| - 1];
    }
  }

  lemma {:induction false} PendingSnoc(ms: seq<Migration>, m: Migration, current: int)
    ensures Pending(ms + [m], current) == Pending(ms, current) + if m.version > current then [m] else []
  {
    if ms == [] {
      assert ms + [m] == [m];
    } else {
      assert (ms + [m])[1..] == ms[1..] + [m];
      PendingSnoc(ms[1..], m, current);
    }
  }

  lemma UpToSnoc(ms: seq<Migration>, m: Migration, version: int)
    ensures UpTo(ms + [m], version) == UpTo(ms, version) + if 0 < m.version <= version then [m] else []
  {
    assert (ms + [m])[..|ms|] == ms;
  }

  /** The version reached when every pending migration has run. */
  function LastVersion(ms: seq<Migration>, current: int): int {
    if ms == [] || ms[|ms| - 1].version <= current then current else ms[|ms| - 1].version
  }

  lemma {:induction false} UpToSaturates(ms: seq<Migration>, a: int, b: int)
    requires a <= b && forall i :: 0 <= i < |ms| ==> ms[i].version <= a
    ensures UpTo(ms, a) == UpTo(ms, b)
  {
    if ms != [] {
      UpToSaturates(ms[..|ms| - 1], a, b);
    }
  }

  lemma {:induction false} NothingPending(ms: seq<Migration>, current: int)
    requires forall i :: 0 <= i < |ms| ==> ms[i].version <= current
    ensures Pending(ms, current) == []
  {
    if ms != [] {
      NothingPending(ms[1..], current);
    }
  }

  /** What has run, with what is pending on top, is what has run at the version of
      the last pending migration. */
  lemma {:induction false} PendingCompletes(ms: seq<Migration>, current: int)
    requires StrictlyAscending(ms) && current >= 0
    ensures UpTo(ms, current) + Pending(ms, current) == UpTo(ms, LastVersion(ms, current))
  {
    if ms != [] && ms[|ms| - 1].version > current {
      var front, m := ms[..|ms| - 1], ms[|ms| - 1];
      assert ms == front + [m];
      PendingCompletes(front, current);
      FrontSaturates(front, m, current);
      PendingCompletesStep(front, m, current);
    } else {
      AllUpToLast(ms, current);
      NothingPending(ms, current);
      assert LastVersion(ms, current) == current;
    }
  }

  lemma FrontSaturates(front: seq<Migration>, m: Migration, current: int)
    requires StrictlyAscending(front + [m]) && m.version > current
    ensures StrictlyAscending(front) && UpTo(front, LastVersion(front, current)) == UpTo(front, m.version)
  {
    var ms := front + [m];
    forall i, j | 0 <= i < j < |front| ensures front[i].version < front[j].version {
      assert ms[i] == front[i] && ms[j] == front[j];
    }
    AllUpToLast(front, current);
    assert |front| > 0 ==> ms[|front| - 1].version < ms[|front|].version;
    UpToSaturates(front, LastVersion(front, current), m.version);
  }

  lemma AllUpToLast(ms: seq<Migration>, current: int)
    requires StrictlyAscending(ms)
    ensures forall i :: 0 <= i < |ms| ==> ms[i].version <= LastVersion(ms, current)
  {
    forall i | 0 <= i < |ms| ensures ms[i].version <= LastVersion(ms, current) {
      assert i < |ms| - 1 ==> ms[i].version < ms[|ms| - 1].version;
    }
  }

  lemma PendingCompletesStep(front: seq<Migration>, m: Migration, current: int)
    requires 0 <= current < m.version
    requires UpTo(front, current) + Pending(front, current) == UpTo(front, m.version)
    ensures UpTo(front + [m], current) + Pending(front + [m], current) == UpTo(front + [m], m.version)
  {
    PendingSnoc(front, m, current);
    UpToSnoc(front, m, current);
    UpToSnoc(front, m, m.version);
  }

  lemma {:induction false} PendingEndsAtLast(ms: seq<Migration>, current: int)
    requires StrictlyAscending(ms)
    ensures Pending(ms, current) == [] <==> LastVersion(ms, current) == current
    ensures Pending(ms, current) != [] ==> Pending(ms, current)[|Pending(ms, current)| - 1].version == LastVersion(ms, current)
    ensures LastVersion(ms, current) >= current
  {
    if ms != [] && ms[|ms| - 1].version > current {
      assert ms == ms[..|ms| - 1] + [ms[|ms| - 1]];
      PendingSnoc(ms[..|ms| - 1], ms[|ms| - 1], current);
    } else {
      AllUpToLast(ms, current);
      NothingPending(ms, current);
    }
  }

  // ----- one start keeps it -----

  lemma {:induction false} UpToPrefix(master: seq<Migration>, n: nat, version: int)
    requires StrictlyAscending(master) && n <= |master|
    requires n < |master| ==> version < master[n].version
    ensures UpTo(master[..n], version) == UpTo(master, version)
    decreases |master| - n
  {
    if n == |master| {
      assert master[..n] == master;
    } else {
      assert n + 1 < |master| ==> version < master[n + 1].version;
      UpToPrefix(master, n + 1, version);
      assert master[..n + 1] == master[..n] + [master[n]];
      UpToSnoc(master[..n], master[n], version);
    }
  }

  /** With something pending, the database is at a version the rest of the master
      list lies above, before and after. */
  lemma PendingMeansBehind(master: seq<Migration>, n: nat, current: int)
    requires StrictlyAscending(master) && n <= |master| && LastVersion(master[..n], current) > current
    ensures n < |master| ==> current < master[n].version && LastVersion(master[..n], current) < master[n].version
  {
    assert n < |master| ==> master[n - 1].version < master[n].version;
  }

  /** Running `pending` on top of `ran` gives the fold, and the history, of both. */
  lemma RunsAddUp<C(!new)>(e: Engine<C>, empty: C, ran: seq<Migration>, pending: seq<Migration>, c: C, history: seq<int>)
    requires ExecuteAll(e, empty, ran) == Some(c) && history == Versions(ran)
    ensures ExecuteAll(e, empty, ran + pending) == ExecuteAll(e, c, pending)
    ensures Versions(ran + pending) == history + Versions(pending)
  {
    ExecuteAppend(e, empty, ran, pending);
  }

  lemma NewMasterPrefix(master: seq<Migration>, n: nat, current: int)
    requires StrictlyAscending(master) && n <= |master| && current >= 0 && Pending(master[..n], current) != []
    ensures var last := LastVersion(master[..n], current);
      last > current && Pending(master[..n], current)[|Pending(master[..n], current)| - 1].version == last &&
      UpTo(master, last) == UpTo(master, current) + Pending(master[..n], current)
  {
    var list := master[..n];
    PendingEndsAtLast(list, current);
    PendingMeansBehind(master, n, current);
    UpToPrefix(master, n, current);
    UpToPrefix(master, n, LastVersion(list, current));
    PendingCompletes(list, current);
  }

  lemma ApplyKeepsConsistent<C(!new)>(e: Engine<C>, empty: C, master: seq<Migration>, n: nat, db: Database<C>)
    requires StrictlyAscending(master) && n <= |master| && Consistent(e, empty, master, db)
    requires ApplyMigrations(e, db, master[..n]).Started?
    ensures var after := ApplyMigrations(e, db, master[..n]).db;
      Consistent(e, empty, master, after) && after.userVersion >= db.userVersion
  {
    var pending := Pending(master[..n], db.userVersion);
    if pending != [] {
      NewMasterPrefix(master, n, db.userVersion);
      RunsAddUp(e, empty, UpTo(master, db.userVersion), pending, db.content, db.history);
    } else {
      assert ApplyMigrations(e, db, master[..n]).db.content == db.content;
    }
  }

  // ----- the registry check -----

  ghost predicate DistinctIds(rows: seq<ModelRow>) {
    forall i, j :: 0 <= i < j < |rows| ==> rows[i].id != rows[j].id
  }

  lemma {:induction false} ModelByIdFinds(registry: seq<ModelRow>, k: nat)
    requires DistinctIds(registry) && k < |registry|
    ensures ModelById(registry, registry[k].id) == Some(registry[k])
  {
    if k > 0 {
      assert registry[0].id != registry[k].id;
      ModelByIdFinds(registry[1..], k - 1);
    }
  }

  lemma {:induction false} ModelByIdIsThere(registry: seq<ModelRow>, id: string)
    ensures ModelById(registry, id).Some? ==> ModelById(registry, id).value in registry && ModelById(registry, id).value.id == id
  {
    if registry != [] && registry[0].id != id {
      ModelByIdIsThere(registry[1..], id);
    }
  }

  /** The check passes exactly when the table and the registry are the same map
      from model id to dimension. */
  lemma RegistryCheckIsEquality(rows: seq<ModelRow>, registry: seq<ModelRow>)
    requires DistinctIds(rows) && DistinctIds(registry)
    ensures VerifyRegistry(rows, registry).None? <==> forall m: ModelRow :: m in rows <==> m in registry
  {
    if VerifyRegistry(rows, registry).None? {
      forall m: ModelRow ensures m in rows <==> m in registry {
        SameModel(rows, registry, m);
      }
    }
    if forall m: ModelRow :: m in rows <==> m in registry {
      forall i | 0 <= i < |rows| ensures ModelById(registry, rows[i].id) == Some(rows[i]) {
        assert rows[i] in registry;
        var k :| 0 <= k < |registry| && registry[k] == rows[i];
        ModelByIdFinds(registry, k);
      }
      forall i | 0 <= i < |registry| ensures exists j :: 0 <= j < |rows| && rows[j].id == registry[i].id {
        assert registry[i] in rows;
        var k :| 0 <= k < |rows| && rows[k] == registry[i];
      }
    }
  }

  lemma SameModel(rows: seq<ModelRow>, registry: seq<ModelRow>, m: ModelRow)
    requires DistinctIds(registry) && VerifyRegistry(rows, registry).None?
    ensures m in rows <==> m in registry
  {
    if m in rows {
      var i :| 0 <= i < |rows| && rows[i] == m;
      ModelByIdIsThere(registry, m.id);
    }
    if m in registry {
      var i :| 0 <= i < |registry| && registry[i] == m;
      var j :| 0 <= j < |rows| && rows[j].id == m.id;
      ModelByIdFinds(registry, i);
    }
  }

  // ----- histories -----

  /** One start: which binary, and whether the process died before the commit. */
  datatype Attempt = Attempt(binary: Binary, killed: bool)

  function AfterAll<C>(e: Engine<C>, db: Database<C>, starts: seq<Attempt>): Database<C> {
    if starts == [] then db
    else
      var last := starts[|starts| - 1];
      AfterStart(e, AfterAll(e, db, starts[..|starts| - 1]), last.binary, last.killed)
  }

  ghost predicate FromMaster(master: seq<Migration>, starts: seq<Attempt>) {
    forall i :: 0 <= i < |starts| ==> starts[i].binary.migrations <= master
  }

  /** Over any history of starts, by newer and older binaries, with failed batches,
      refusals and kills in any order, the contents are the in-order fold of exactly
      the migrations up to `user_version`, and those are the ones that ran. */
  lemma {:induction false} HistoriesStayConsistent<C(!new)>(
    e: Engine<C>, empty: C, master: seq<Migration>, db: Database<C>, starts: seq<Attempt>)
    requires StrictlyAscending(master) && FromMaster(master, starts) && Consistent(e, empty, master, db)
    ensures Consistent(e, empty, master, AfterAll(e, db, starts))
  {
    if starts != [] {
      var m := |starts| - 1;
      HistoriesStayConsistent(e, empty, master, db, starts[..m]);
      OneStartKeepsConsistent(e, empty, master, AfterAll(e, db, starts[..m]), starts[m]);
    }
  }

  /** And the version never goes back. */
  lemma {:induction false} VersionNeverDecreases<C(!new)>(
    e: Engine<C>, empty: C, master: seq<Migration>, db: Database<C>, starts: seq<Attempt>, k: nat)
    requires StrictlyAscending(master) && FromMaster(master, starts) && Consistent(e, empty, master, db)
    requires k <= |starts|
    ensures AfterAll(e, db, starts).userVersion >= AfterAll(e, db, starts[..k]).userVersion
  {
    if k == |starts| {
      assert starts[..k] == starts;
    } else {
      var m := |starts| - 1;
      VersionNeverDecreases(e, empty, master, db, starts[..m], k);
      assert starts[..m][..k] == starts[..k];
      HistoriesStayConsistent(e, empty, master, db, starts[..m]);
      OneStartKeepsConsistent(e, empty, master, AfterAll(e, db, starts[..m]), starts[m]);
    }
  }

  lemma OneStartKeepsConsistent<C(!new)>(e: Engine<C>, empty: C, master: seq<Migration>, db: Database<C>, a: Attempt)
    requires StrictlyAscending(master) && a.binary.migrations <= master && Consistent(e, empty, master, db)
    ensures var after := AfterStart(e, db, a.binary, a.killed);
      Consistent(e, empty, master, after) && after.userVersion >= db.userVersion
  {
    var n := |a.binary.migrations|;
    assert a.binary.migrations == master[..n];
    if Startup(e, db, a.binary).Started? {
      ApplyKeepsConsistent(e, empty, master, n, db);
    }
  }

  lemma {:induction false} UpToHolds(ms: seq<Migration>, v: int, m: Migration)
    ensures m in UpTo(ms, v) <==> m in ms && 0 < m.version <= v
  {
    if ms != [] {
      assert ms == ms[..|ms| - 1] + [ms[|ms| - 1]];
      UpToHolds(ms[..|ms| - 1], v, m);
    }
  }

  lemma {:induction false} UpToAscends(ms: seq<Migration>, v: int)
    requires StrictlyAscending(ms)
    ensures StrictlyAscending(UpTo(ms, v))
  {
    if ms != [] {
      var front, m := ms[..|ms| - 1], ms[|ms| - 1];
      UpToAscends(front, v);
      var before := UpTo(front, v);
      forall i | 0 <= i < |before| ensures before[i].version < m.version {
        UpToHolds(front, v, before[i]);
        var k :| 0 <= k < |front| && front[k] == before[i];
        assert ms[k] == front[k];
      }
    }
  }

  /** Every migration that ran ran once, in ascending order: the history of a
      consistent database is strictly ascending and lists exactly the migrations at
      or below its version. */
  lemma EachMigrationRanOnce<C(!new)>(e: Engine<C>, empty: C, master: seq<Migration>, db: Database<C>)
    requires StrictlyAscending(master) && Consistent(e, empty, master, db)
    ensures forall i, j :: 0 <= i < j < |db.history| ==> db.history[i] < db.history[j]
    ensures forall m :: m in master && 0 < m.version <= db.userVersion ==> m.version in db.history
    ensures forall v :: v in db.history ==> 0 < v <= db.userVersion
  {
    var ran := UpTo(master, db.userVersion);
    UpToAscends(master, db.userVersion);
    forall m | m in master && 0 < m.version <= db.userVersion ensures m.version in db.history {
      UpToHolds(master, db.userVersion, m);
      var i :| 0 <= i < |ran| && ran[i] == m;
      assert db.history[i] == m.version;
    }
    forall v | v in db.history ensures 0 < v <= db.userVersion {
      var i :| 0 <= i < |db.history| && db.history[i] == v;
      UpToHolds(master, db.userVersion, ran[i]);
    }
  }

  /** A start that fails, whatever the reason, leaves the database as it was; one
      that succeeds leaves no dangling reference it found and a table equal to the
      binary's registry. */
  lemma StartIsAllOrNothing<C(!new)>(e: Engine<C>, db: Database<C>, b: Binary, killed: bool)
    requires DistinctIds(b.registry) && forall c :: DistinctIds(e.models(c))
    ensures Startup(e, db, b).Failed? || killed ==> AfterStart(e, db, b, killed) == db
    ensures Startup(e, db, b).Started? && !killed ==>
      forall m: ModelRow :: m in e.models(AfterStart(e, db, b, killed).content) <==> m in b.registry
    ensures Startup(e, db, b).Started? && Startup(e, db, b).applied ==> e.violations(Startup(e, db, b).db.content) == 0
  {
    if Startup(e, db, b).Started? {
      RegistryCheckIsEquality(e.models(Startup(e, db, b).db.content), b.registry);
    }
  }

  // ----- every way a start can fail -----

  ghost predicate HasId(rows: seq<ModelRow>, id: string) {
    exists k :: 0 <= k < |rows| && rows[k].id == id
  }

  /** Row `i` of the table is the first that the registry does not list as it is. */
  ghost predicate FirstUnlisted(rows: seq<ModelRow>, registry: seq<ModelRow>, i: nat) {
    i < |rows| && rows[i] !in registry && forall j :: 0 <= j < i ==> rows[j] in registry
  }

  /** Entry `i` of the registry is the first without a row. */
  ghost predicate FirstWithoutRow(rows: seq<ModelRow>, registry: seq<ModelRow>, i: nat) {
    i < |registry| && !HasId(rows, registry[i].id) && forall j :: 0 <= j < i ==> HasId(rows, registry[j].id)
  }

  lemma {:induction false} ModelByIdIs(registry: seq<ModelRow>, row: ModelRow)
    requires DistinctIds(registry)
    ensures ModelById(registry, row.id).Some? <==> HasId(registry, row.id)
    ensures ModelById(registry, row.id) == Some(row) <==> row in registry
    ensures ModelById(registry, row.id).Some? ==> ModelById(registry, row.id).value.id == row.id
  {
    ModelByIdIsThere(registry, row.id);
    if k :| 0 <= k < |registry| && registry[k].id == row.id {
      ModelByIdFinds(registry, k);
    }
  }

  lemma {:induction false} FirstBadRowIs(rows: seq<ModelRow>, registry: seq<ModelRow>, i: nat)
    requires DistinctIds(registry) && FirstUnlisted(rows, registry, i)
    ensures FirstBadRow(rows, registry) ==
      Some(if HasId(registry, rows[i].id) then DimDiffers(rows[i].id) else ModelUnknown(rows[i].id))
  {
    ModelByIdIs(registry, rows[0]);
    if i > 0 {
      assert rows[0] in registry;
      FirstBadRowIs(rows[1..], registry, i - 1);
    }
  }

  lemma {:induction false} FirstMissingIs(rows: seq<ModelRow>, registry: seq<ModelRow>, i: nat)
    requires FirstWithoutRow(rows, registry, i)
    ensures FirstMissing(rows, registry) == Some(ModelMissing(registry[i].id))
  {
    if i > 0 {
      assert HasId(rows, registry[0].id);
      FirstMissingIs(rows, registry[1..], i - 1);
    }
  }

  /** The registry check blames the first row it cannot account for, and says whether its
      model is unknown or of another dimension; failing that, the first model without a row. */
  lemma RegistryRefusals(rows: seq<ModelRow>, registry: seq<ModelRow>)
    requires DistinctIds(registry)
    ensures forall i: nat :: FirstUnlisted(rows, registry, i) ==>
      VerifyRegistry(rows, registry) ==
        Some(if HasId(registry, rows[i].id) then DimDiffers(rows[i].id) else ModelUnknown(rows[i].id))
    ensures forall i: nat :: (forall row :: row in rows ==> row in registry) && FirstWithoutRow(rows, registry, i) ==>
      VerifyRegistry(rows, registry) == Some(ModelMissing(registry[i].id))
  {
    forall i: nat | FirstUnlisted(rows, registry, i)
      ensures FirstBadRow(rows, registry) ==
        Some(if HasId(registry, rows[i].id) then DimDiffers(rows[i].id) else ModelUnknown(rows[i].id))
    {
      FirstBadRowIs(rows, registry, i);
    }
    if forall row :: row in rows ==> row in registry {
      forall k | 0 <= k < |rows| ensures ModelById(registry, rows[k].id) == Some(rows[k]) {
        assert rows[k] in rows;
        ModelByIdIs(registry, rows[k]);
      }
      forall i: nat | FirstWithoutRow(rows, registry, i) ensures FirstMissing(rows, registry) == Some(ModelMissing(registry[i].id)) {
        FirstMissingIs(rows, registry, i);
      }
    }
  }

  /** The outcome of a start, exactly, in the order of the checks: the lineage first, then
      the batches, the dangling references they leave, and the registry. */
  lemma StartupIsExact<C>(e: Engine<C>, db: Database<C>, b: Binary)
    ensures Startup(e, db, b) == Failed(OldLineage) <==> e.applicationId(db.content) != 0x4D58_3033 && db.userVersion > 0
    ensures var pending := Pending(b.migrations, db.userVersion);
      var ran := ExecuteAll(e, db.content, pending);
      var admitted := e.applicationId(db.content) == 0x4D58_3033 || db.userVersion <= 0;
      && (Startup(e, db, b) == Failed(SqlFailed) <==> admitted && ran.None?)
      && (forall n :: Startup(e, db, b) == Failed(DanglingReferences(n)) <==>
            admitted && ran.Some? && pending != [] && n > 0 && n == e.violations(ran.value))
      && (admitted && ran.Some? && (pending == [] || e.violations(ran.value) == 0) ==>
            (match VerifyRegistry(e.models(ran.value), b.registry)
             case Some(error) => Startup(e, db, b) == Failed(error)
             case None => Startup(e, db, b).Started? && Startup(e, db, b).db.content == ran.value &&
                          (Startup(e, db, b).applied <==> pending != [])))
  {
    var ran := ExecuteAll(e, db.content, Pending(b.migrations, db.userVersion));
    if ran.Some? {
      VerifyRefusesWithItsOwn(e.models(ran.value), b.registry);
    }
  }

  lemma {:induction false} FirstBadRowKind(rows: seq<ModelRow>, registry: seq<ModelRow>)
    ensures FirstBadRow(rows, registry).Some? ==>
      FirstBadRow(rows, registry).value.ModelUnknown? || FirstBadRow(rows, registry).value.DimDiffers?
  {
    if rows != [] {
      FirstBadRowKind(rows[1..], registry);
    }
  }

  lemma {:induction false} FirstMissingKind(rows: seq<ModelRow>, registry: seq<ModelRow>)
    ensures FirstMissing(rows, registry).Some? ==> FirstMissing(rows, registry).value.ModelMissing?
  {
    if registry != [] {
      FirstMissingKind(rows, registry[1..]);
    }
  }

  lemma VerifyRefusesWithItsOwn(rows: seq<ModelRow>, registry: seq<ModelRow>)
    ensures VerifyRegistry(rows, registry).Some? ==>
      var error := VerifyRegistry(rows, registry).value; error.ModelUnknown? || error.DimDiffers? || error.ModelMissing?
  {
    FirstBadRowKind(rows, registry);
    FirstMissingKind(rows, registry);
  }

  // ----- which lists are applied once -----

  lemma {:induction false} PendingHolds(ms: seq<Migration>, current: int, m: Migration)
    ensures m in Pending(ms, current) <==> m in ms && m.version > current
  {
    if ms != [] {
      PendingHolds(ms[1..], current, m);
      assert m in ms <==> m == ms[0] || m in ms[1..];
    }
  }

  /** The version `apply_migrations_from` stamps: the last pending one's. */
  function Stamped(ms: seq<Migration>, current: int): int {
    var pending := Pending(ms, current);
    if pending == [] then current else pending[|pending| - 1].version
  }

  /** No migration of the list lies above the one applied last. */
  predicate LastIsHighest(ms: seq<Migration>, current: int) {
    forall m :: m in ms ==> m.version <= Stamped(ms, current) || Pending(ms, current) == []
  }

  lemma {:induction false} EmptyWithoutMembers(ms: seq<Migration>)
    ensures ms == [] <==> forall m :: m !in ms
  {
    if ms != [] {
      assert ms[0] in ms;
    }
  }

  /** For every list: the migrations a second start of the same binary would run are
      those that ran in the first and lie above the one that ran last. */
  lemma RunsAgainExactly(ms: seq<Migration>, current: int, m: Migration)
    ensures m in Pending(ms, Stamped(ms, current)) <==> m in Pending(ms, current) && m.version > Stamped(ms, current)
  {
    PendingHolds(ms, current, m);
    PendingHolds(ms, Stamped(ms, current), m);
    var pending := Pending(ms, current);
    if pending != [] {
      assert pending[|pending| - 1] in pending;
      PendingHolds(ms, current, pending[|pending| - 1]);
    }
  }

  /** So a second start of the same binary leaves the database alone if and only if the
      migration applied last was the highest of the list, or none was pending. */
  lemma SecondStartIsIdleExactly<C>(e: Engine<C>, db: Database<C>, ms: seq<Migration>)
    requires ApplyMigrations(e, db, ms).Started?
    ensures var after := ApplyMigrations(e, db, ms).db;
      after.userVersion == Stamped(ms, db.userVersion) &&
      (ApplyMigrations(e, after, ms) == Started(after, after.userVersion, false) <==> LastIsHighest(ms, db.userVersion))
  {
    var v := Stamped(ms, db.userVersion);
    EmptyWithoutMembers(Pending(ms, db.userVersion));
    EmptyWithoutMembers(Pending(ms, v));
    forall m ensures m in Pending(ms, v) <==> m in ms && m.version > v {
      PendingHolds(ms, v, m);
    }
  }

  /** An ascending list meets the condition whatever version it starts from. */
  lemma AscendingEndsHighest(ms: seq<Migration>, current: int)
    requires StrictlyAscending(ms)
    ensures LastIsHighest(ms, current)
  {
    PendingEndsAtLast(ms, current);
    AllUpToLast(ms, current);
  }

  // ----- why the list must ascend -----

  /** An engine whose contents are the number of batches executed. */
  ghost function Counter(): Engine<int> {
    Engine((s: string, c: int) => Some(c + 1), (c: int) => 0, (c: int) => [], (c: int) => APPLICATION_ID)
  }

  /** With a list out of order the stamp is the last entry, not the highest, and the
      next start runs a migration a second time. */
  lemma OutOfOrderListRunsTwice()
    ensures var b := Binary([Migration(2, "two"), Migration(1, "one")], []);
      AfterAll(Counter(), Database(0, 0, []), [Attempt(b, false), Attempt(b, false)]).history == [2, 1, 2]
  {
    var two, one := [Migration(2, "two")], [Migration(1, "one")];
    var ms := [Migration(2, "two"), Migration(1, "one")];
    var b := Binary(ms, []);
    var a := Attempt(b, false);
    var d0: Database<int> := Database(0, 0, []);
    var d1: Database<int> := Database(2, 1, [2, 1]);
    assert ms[1..] == one && one[1..] == [] && ms[..1] == two && two[..0] == [];
    assert Pending(one, 0) == one && Pending(ms, 0) == ms;
    assert ExecuteAll(Counter(), 0, two) == Some(1) && ExecuteAll(Counter(), 0, ms) == Some(2);
    assert Versions(ms) == [2, 1];
    assert AfterStart(Counter(), d0, b, false) == d1;
    assert Pending(one, 1) == [] && Pending(ms, 1) == two;
    assert Versions(two) == [2];
    assert AfterStart(Counter(), d1, b, false).history == [2, 1] + [2];
    assert [a, a][..1] == [a] && [a][..0] == [];
    assert AfterAll(Counter(), d0, [a]) == d1;
  }
}
