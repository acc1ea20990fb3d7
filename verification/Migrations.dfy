/** The migration runner of `src/db/migrationRunner.ts` over the transaction wrapper of
    `src/db/connection.ts` and the tracking table of `src/db/migrationRepository.ts`. */
module Migrations {
  import opened Results

  /** Schema objects by name; what a migration does to them is arbitrary. */
  type Schema = map<string, string>

  datatype Migration = Migration(id: string, name: string, up: Schema -> Schema, down: Schema -> Schema)

  /** Committed state: the schema and the rows (id to name) of `schema_migrations`. */
  datatype Db = Db(schema: Schema, table: map<string, string>)

  // ---------------------------------------------------------------- transactions

  /** What goes wrong in one transaction. `LostAck` is a COMMIT that takes effect although its
      reply never arrives. */
  datatype Fault = NoFault | ConnectFails | BeginFails | BodyFails | CommitFails | LostAck

  /** The work inside a transaction: a new state, or an exception after some changes. */
  datatype BodyResult = Done(db: Db) | Thrown(partial: Db)

  predicate Commits(body: BodyResult, fault: Fault) {
    body.Done? && fault in {NoFault, LostAck}
  }

  class Database {
    var committed: Db
    var working: Db
    var inTransaction: bool

    constructor (db: Db)
      ensures committed == db && !inTransaction
    {
      committed, working, inTransaction := db, db, false;
    }

    /** `withTransaction`: all of the body's changes or none of them, and success is reported
        only when they were committed. */
    method WithTransaction(body: Db -> BodyResult, fault: Fault) returns (ok: bool)
      requires !inTransaction
      modifies this
      ensures !inTransaction
      ensures committed == if Commits(body(old(committed)), fault) then body(old(committed)).db else old(committed)
      ensures ok <==> body(old(committed)).Done? && fault == NoFault
    {
      if fault == ConnectFails || fault == BeginFails {
        return false;
      }
      inTransaction, working := true, committed;
      var result := body(working);
      if result.Thrown? || fault == BodyFails {
        working := if result.Thrown? then result.partial else working;
        inTransaction, working := false, committed;
        return false;
      }
      working := result.db;
      if fault == CommitFails {
        inTransaction, working := false, committed;
        return false;
      }
      committed, inTransaction := working, false;
      ok := fault == NoFault;
    }
  }

  // ---------------------------------------------------------------- up and down

  datatype Direction = Up | Down

  /** Run the migration and write its tracking row: `up` inserts it, and the primary key must be
      new; `down` deletes it. */
  function RunBody(d: Direction, m: Migration, db: Db): BodyResult {
    match d
    case Up =>
      var changed := db.(schema := m.up(db.schema));
      if m.id in db.table then Thrown(changed) else Done(changed.(table := db.table[m.id := m.name]))
    case Down => Done(Db(m.down(db.schema), db.table - {m.id}))
  }

  function FaultAt(faults: seq<Fault>, i: nat): Fault {
    if i < |faults| then faults[i] else NoFault
  }

  /** The state after the loop and how many migrations it completed; it failed if there are
      more. */
  datatype Outcome = Outcome(db: Db, completed: nat)

  /** The loop over `ms` from the i-th migration on. */
  function Loop(d: Direction, db: Db, ms: seq<Migration>, i: nat, faults: seq<Fault>): (o: Outcome)
    requires i <= |ms|
    ensures i <= o.completed <= |ms|
    decreases |ms| - i
  {
    if i == |ms| then Outcome(db, i)
    else
      var body := RunBody(d, ms[i], db);
      var after := if Commits(body, FaultAt(faults, i)) then body.db else db;
      if body.Done? && FaultAt(faults, i) == NoFault then Loop(d, after, ms, i + 1, faults) else Outcome(after, i)
  }

  function Filter(ms: seq<Migration>, table: map<string, string>, applied: bool): seq<Migration> {
    if ms == [] then []
    else (if (ms[0].id in table) == applied then [ms[0]] else []) + Filter(ms[1..], table, applied)
  }

  /** The registered migrations with the most recent first. */
  function LatestFirst(ms: seq<Migration>): seq<Migration> {
    seq(|ms|, i requires 0 <= i < |ms| => ms[|ms| - 1 - i])
  }

  /** `s.slice(0, count)`, where a negative count leaves off elements at the end. */
  function Slice<T>(s: seq<T>, count: int): seq<T> {
    var end := if count < 0 then |s| + count else count;
    if end <= 0 then [] else if end >= |s| then s else s[..end]
  }

  function PendingList(registered: seq<Migration>, db: Db, count: Option<int>): seq<Migration> {
    var pending := Filter(registered, db.table, false);
    if count.Some? then Slice(pending, count.value) else pending
  }

  function RollbackList(registered: seq<Migration>, db: Db, count: int): seq<Migration> {
    Slice(Filter(LatestFirst(registered), db.table, true), count)
  }

  function RunUp(registered: seq<Migration>, db: Db, count: Option<int>, faults: seq<Fault>): Outcome {
    Loop(Up, db, PendingList(registered, db, count), 0, faults)
  }

  function RunDown(registered: seq<Migration>, db: Db, count: int, faults: seq<Fault>): Outcome {
    Loop(Down, db, RollbackList(registered, db, count), 0, faults)
  }

  class MigrationRunner {
    const database: Database
    const migrations: seq<Migration>

    constructor (database: Database, migrations: seq<Migration>)
      ensures this.database == database && this.migrations == migrations
    {
      this.database := database;
      this.migrations := migrations;
    }

    method RunUntilFailure(d: Direction, ms: seq<Migration>, faults: seq<Fault>)
        returns (applied: seq<string>, failed: Option<string>)
      requires !database.inTransaction
      modifies database
      ensures !database.inTransaction
      ensures Outcome(database.committed, |applied|) == Loop(d, old(database.committed), ms, 0, faults)
      ensures Reports(ms, applied, failed)
    {
      applied, failed := [], None;
      var i := 0;
      while i < |ms|
        invariant 0 <= i <= |ms| && !database.inTransaction && failed.None?
        invariant Loop(d, database.committed, ms, i, faults) == Loop(d, old(database.committed), ms, 0, faults)
        invariant |applied| == i && forall j :: 0 <= j < i ==> applied[j] == ms[j].id
      {
        var ok := database.WithTransaction(db => RunBody(d, ms[i], db), FaultAt(faults, i));
        if !ok {
          failed := Some(ms[i].id);
          return;
        }
        applied := applied + [ms[i].id];
        i := i + 1;
      }
    }

    method RunUpwards(count: Option<int>, faults: seq<Fault>) returns (applied: seq<string>, failed: Option<string>)
      requires !database.inTransaction
      modifies database
      ensures !database.inTransaction
      ensures Outcome(database.committed, |applied|) == RunUp(migrations, old(database.committed), count, faults)
      ensures Reports(PendingList(migrations, old(database.committed), count), applied, failed)
    {
      applied, failed := RunUntilFailure(Up, PendingList(migrations, database.committed, count), faults);
    }

    method RunDownwards(count: int, faults: seq<Fault>) returns (applied: seq<string>, failed: Option<string>)
      requires !database.inTransaction
      modifies database
      ensures !database.inTransaction
      ensures Outcome(database.committed, |applied|) == RunDown(migrations, old(database.committed), count, faults)
      ensures Reports(RollbackList(migrations, old(database.committed), count), applied, failed)
    {
      applied, failed := RunUntilFailure(Down, RollbackList(migrations, database.committed, count), faults);
    }
  }

  /** The result names the completed migrations in order and the one it stopped at. */
  predicate Reports(list: seq<Migration>, applied: seq<string>, failed: Option<string>) {
    && |applied| <= |list|
    && (forall j :: 0 <= j < |applied| ==> applied[j] == list[j].id)
    && failed == if |applied| == |list| then None else Some(list[|applied|].id)
  }

  // ---------------------------------------------------------------- table and schema in step

  predicate DistinctIds(ms: seq<Migration>) {
    forall i, j :: 0 <= i < j < |ms| ==> ms[i].id != ms[j].id
  }

  ghost predicate Inverts(m: Migration) {
    forall s :: m.down(m.up(s)) == s
  }

  function TableOf(ms: seq<Migration>, k: nat): map<string, string>
    requires k <= |ms|
  {
    if k == 0 then map[] else TableOf(ms, k - 1)[ms[k - 1].id := ms[k - 1].name]
  }

  function SchemaOf(ms: seq<Migration>, base: Schema, k: nat): Schema
    requires k <= |ms|
  {
    if k == 0 then base else ms[k - 1].up(SchemaOf(ms, base, k - 1))
  }

  /** Exactly the first `k` registered migrations are applied, in the table and in the schema. */
  predicate AtStep(ms: seq<Migration>, base: Schema, k: nat, db: Db) {
    k <= |ms| && db == Db(SchemaOf(ms, base, k), TableOf(ms, k))
  }

  lemma {:induction false} TableKeys(ms: seq<Migration>, k: nat, i: nat)
    requires DistinctIds(ms) && k <= |ms| && i < |ms|
    ensures ms[i].id in TableOf(ms, k) <==> i < k
  {
    if k > 0 {
      TableKeys(ms, k - 1, i);
    }
  }

  lemma DropOne<T>(s: seq<T>, i: nat)
    requires i < |s|
    ensures s[i..][0] == s[i] && s[i..][1..] == s[i + 1..] && s[i..] == [s[i]] + s[i + 1..]
  {
  }

  /** At step `k` the pending migrations are those from `k` on. */
  lemma {:induction false} PendingIsRest(ms: seq<Migration>, k: nat, i: nat)
    requires DistinctIds(ms) && k <= |ms| && i <= |ms|
    ensures Filter(ms[i..], TableOf(ms, k), false) == if i <= k then ms[k..] else ms[i..]
    decreases |ms| - i
  {
    if i < |ms| {
      TableKeys(ms, k, i);
      PendingIsRest(ms, k, i + 1);
      DropOne(ms, i);
    }
  }

  lemma LatestThenRest(ms: seq<Migration>)
    requires ms != []
    ensures LatestFirst(ms) == [ms[|ms| - 1]] + LatestFirst(ms[..|ms| - 1])
  {
    assert forall i :: 0 < i < |ms| ==> LatestFirst(ms)[i] == ms[..|ms| - 1][|ms| - 1 - i];
  }

  /** At step `k` the applied migrations, latest first, are the first `k` reversed. */
  lemma {:induction false} AppliedIsPrefix(ms: seq<Migration>, k: nat, n: nat)
    requires DistinctIds(ms) && k <= |ms| && n <= |ms|
    ensures Filter(LatestFirst(ms[..n]), TableOf(ms, k), true) == LatestFirst(ms[..if n <= k then n else k])
    decreases n
  {
    if n > 0 {
      TableKeys(ms, k, n - 1);
      LatestThenRest(ms[..n]);
      assert ms[..n][..n - 1] == ms[..n - 1];
      var rest := LatestFirst(ms[..n - 1]);
      assert LatestFirst(ms[..n])[0] == ms[n - 1] && LatestFirst(ms[..n])[1..] == rest;
      AppliedIsPrefix(ms, k, n - 1);
    }
  }

  /** Migrations that reached the database although the loop reports a failure. */
  function Unreported(list: seq<Migration>, o: Outcome, faults: seq<Fault>): nat {
    if o.completed < |list| && FaultAt(faults, o.completed) == LostAck then 1 else 0
  }

  lemma StepForward(ms: seq<Migration>, base: Schema, k: nat, db: Db)
    requires DistinctIds(ms) && k < |ms| && AtStep(ms, base, k, db)
    ensures var body := RunBody(Up, ms[k], db); body.Done? && AtStep(ms, base, k + 1, body.db)
  {
    TableKeys(ms, k, k);
  }

  /** The upward loop over the migrations from `k` on. */
  lemma {:induction false} UpLoop(ms: seq<Migration>, base: Schema, k: nat, list: seq<Migration>, i: nat, db: Db,
      faults: seq<Fault>)
    requires DistinctIds(ms) && i <= |list| && k + |list| <= |ms|
    requires forall j :: 0 <= j < |list| ==> list[j] == ms[k + j]
    requires AtStep(ms, base, k + i, db)
    ensures var o := Loop(Up, db, list, i, faults);
            AtStep(ms, base, k + o.completed + Unreported(list, o, faults), o.db)
    ensures var o := Loop(Up, db, list, i, faults); o.completed < |list| ==> FaultAt(faults, o.completed) != NoFault
    decreases |list| - i
  {
    if i < |list| {
      assert list[i] == ms[k + i];
      StepForward(ms, base, k + i, db);
      if FaultAt(faults, i) == NoFault {
        UpLoop(ms, base, k, list, i + 1, RunBody(Up, list[i], db).db, faults);
      }
    }
  }

  /** Removing the row of the last applied migration and running its `down` goes one step back. */
  lemma StepBack(ms: seq<Migration>, base: Schema, k: nat, db: Db)
    requires DistinctIds(ms) && 0 < k <= |ms| && AtStep(ms, base, k, db) && Inverts(ms[k - 1])
    ensures AtStep(ms, base, k - 1, RunBody(Down, ms[k - 1], db).db)
  {
    TableKeys(ms, k - 1, k - 1);
    assert TableOf(ms, k) - {ms[k - 1].id} == TableOf(ms, k - 1);
    assert ms[k - 1].down(ms[k - 1].up(SchemaOf(ms, base, k - 1))) == SchemaOf(ms, base, k - 1);
  }

  lemma {:induction false} DownLoop(ms: seq<Migration>, base: Schema, k: nat, list: seq<Migration>, i: nat, db: Db,
      faults: seq<Fault>)
    requires DistinctIds(ms) && (forall m :: m in ms ==> Inverts(m))
    requires |list| <= k <= |ms| && i <= |list|
    requires forall j :: 0 <= j < |list| ==> list[j] == ms[k - 1 - j]
    requires AtStep(ms, base, k - i, db)
    ensures var o := Loop(Down, db, list, i, faults);
            AtStep(ms, base, k - o.completed - Unreported(list, o, faults), o.db)
    ensures var o := Loop(Down, db, list, i, faults); o.completed < |list| ==> FaultAt(faults, o.completed) != NoFault
    decreases |list| - i
  {
    if i < |list| {
      assert list[i] == ms[k - 1 - i];
      StepBack(ms, base, k - i, db);
      if FaultAt(faults, i) == NoFault {
        DownLoop(ms, base, k, list, i + 1, RunBody(Down, list[i], db).db, faults);
      }
    }
  }

  lemma SliceIsPrefix<T>(s: seq<T>, count: int)
    ensures |Slice(s, count)| <= |s| && forall j :: 0 <= j < |Slice(s, count)| ==> Slice(s, count)[j] == s[j]
    ensures 0 <= count <= |s| ==> |Slice(s, count)| == count
  {
  }

  /** At step `k` the pending list holds the next migrations in order. */
  lemma PendingWork(ms: seq<Migration>, base: Schema, k: nat, db: Db, count: Option<int>)
    requires DistinctIds(ms) && AtStep(ms, base, k, db)
    ensures var list := PendingList(ms, db, count);
            k + |list| <= |ms| && forall j :: 0 <= j < |list| ==> list[j] == ms[k + j]
  {
    assert ms[0..] == ms;
    PendingIsRest(ms, k, 0);
    if count.Some? {
      SliceIsPrefix(ms[k..], count.value);
    }
  }

  /** At step `k` the rollback list holds the last applied migrations, latest first. */
  lemma RollbackWork(ms: seq<Migration>, base: Schema, k: nat, db: Db, count: int)
    requires DistinctIds(ms) && AtStep(ms, base, k, db)
    ensures var list := RollbackList(ms, db, count);
            |list| <= k && forall j :: 0 <= j < |list| ==> list[j] == ms[k - 1 - j]
    ensures 0 <= count <= k ==> |RollbackList(ms, db, count)| == count
  {
    assert ms[..|ms|] == ms;
    AppliedIsPrefix(ms, k, |ms|);
    SliceIsPrefix(LatestFirst(ms[..k]), count);
  }

  // ---------------------------------------------------------------- main results

  /** `up` from step `k`: whatever fails, the database is again at a step; it has moved by the
      reported migrations, which are the next ones in order, and by one more exactly when a
      COMMIT took effect without being acknowledged. */
  lemma UpStaysInStep(ms: seq<Migration>, base: Schema, k: nat, db: Db, count: Option<int>, faults: seq<Fault>)
    requires DistinctIds(ms) && AtStep(ms, base, k, db)
    ensures var o := RunUp(ms, db, count, faults);
            var list := PendingList(ms, db, count);
            && k + |list| <= |ms| && (forall j :: 0 <= j < |list| ==> list[j] == ms[k + j])
            && AtStep(ms, base, k + o.completed + Unreported(list, o, faults), o.db)
  {
    PendingWork(ms, base, k, db, count);
    UpLoop(ms, base, k, PendingList(ms, db, count), 0, db, faults);
  }

  /** `down` from step `k` likewise goes back through the last applied migrations. */
  lemma DownStaysInStep(ms: seq<Migration>, base: Schema, k: nat, db: Db, count: int, faults: seq<Fault>)
    requires DistinctIds(ms) && (forall m :: m in ms ==> Inverts(m)) && AtStep(ms, base, k, db)
    ensures var o := RunDown(ms, db, count, faults);
            var list := RollbackList(ms, db, count);
            && |list| <= k && (forall j :: 0 <= j < |list| ==> list[j] == ms[k - 1 - j])
            && AtStep(ms, base, k - o.completed - Unreported(list, o, faults), o.db)
  {
    RollbackWork(ms, base, k, db, count);
    DownLoop(ms, base, k, RollbackList(ms, db, count), 0, db, faults);
  }

  datatype Command = UpCmd(count: Option<int>, faults: seq<Fault>) | DownCmd(steps: int, faults: seq<Fault>)

  function RunCommand(ms: seq<Migration>, db: Db, c: Command): Db {
    match c
    case UpCmd(count, faults) => RunUp(ms, db, count, faults).db
    case DownCmd(count, faults) => RunDown(ms, db, count, faults).db
  }

  function RunCommands(ms: seq<Migration>, db: Db, cs: seq<Command>): Db {
    if cs == [] then db else RunCommand(ms, RunCommands(ms, db, cs[..|cs| - 1]), cs[|cs| - 1])
  }

  /** Over every sequence of commands with failures at arbitrary points the applied migrations
      stay a prefix of the registered list and the schema is the fold of that prefix. */
  lemma {:induction false} AlwaysAtSomeStep(ms: seq<Migration>, base: Schema, cs: seq<Command>) returns (k: nat)
    requires DistinctIds(ms) && forall m :: m in ms ==> Inverts(m)
    ensures AtStep(ms, base, k, RunCommands(ms, Db(base, map[]), cs))
  {
    if cs == [] {
      k := 0;
    } else {
      var before := cs[..|cs| - 1];
      var db := RunCommands(ms, Db(base, map[]), before);
      k := AlwaysAtSomeStep(ms, base, before);
      match cs[|cs| - 1] {
        case UpCmd(count, faults) =>
          UpStaysInStep(ms, base, k, db, count, faults);
          var o := RunUp(ms, db, count, faults);
          k := k + o.completed + Unreported(PendingList(ms, db, count), o, faults);
        case DownCmd(count, faults) =>
          DownStaysInStep(ms, base, k, db, count, faults);
          var o := RunDown(ms, db, count, faults);
          k := k - o.completed - Unreported(RollbackList(ms, db, count), o, faults);
      }
    }
  }

  /** Without faults `down(n)` goes back exactly `n` steps. */
  lemma DownGoesBack(ms: seq<Migration>, base: Schema, k: nat, db: Db, n: nat)
    requires DistinctIds(ms) && (forall m :: m in ms ==> Inverts(m)) && AtStep(ms, base, k, db) && n <= k
    ensures AtStep(ms, base, k - n, RunDown(ms, db, n, []).db)
  {
    RollbackWork(ms, base, k, db, n);
    DownLoop(ms, base, k, RollbackList(ms, db, n), 0, db, []);
  }

  lemma StepsDiffer(ms: seq<Migration>, base: Schema, k: nat, db: Db, db': Db)
    requires DistinctIds(ms) && AtStep(ms, base, k, db) && AtStep(ms, base, k + 1, db')
    ensures db != db'
  {
    TableKeys(ms, k, k);
    TableKeys(ms, k + 1, k);
  }

  /** From `n` steps later, `n` steps back restore the database and one step less does not. */
  lemma BackTo(ms: seq<Migration>, base: Schema, k: nat, db: Db, n: nat, later: Db)
    requires DistinctIds(ms) && (forall m :: m in ms ==> Inverts(m))
    requires AtStep(ms, base, k, db) && AtStep(ms, base, k + n, later)
    ensures RunDown(ms, later, n, []).db == db
    ensures n > 0 ==> RunDown(ms, later, n - 1, []).db != db
  {
    DownGoesBack(ms, base, k + n, later, n);
    if n > 0 {
      DownGoesBack(ms, base, k + n, later, n - 1);
      StepsDiffer(ms, base, k, db, RunDown(ms, later, n - 1, []).db);
    }
  }

  /** Rolling back what `up` reports restores the database exactly when no COMMIT took effect
      unacknowledged; otherwise one step more restores it. */
  lemma DownUndoesUp(ms: seq<Migration>, base: Schema, k: nat, db: Db, count: Option<int>, faults: seq<Fault>)
    requires DistinctIds(ms) && (forall m :: m in ms ==> Inverts(m)) && AtStep(ms, base, k, db)
    ensures var o := RunUp(ms, db, count, faults);
            var extra := Unreported(PendingList(ms, db, count), o, faults);
            && (RunDown(ms, o.db, o.completed, []).db == db <==> extra == 0)
            && RunDown(ms, o.db, o.completed + extra, []).db == db
  {
    UpStaysInStep(ms, base, k, db, count, faults);
    var o := RunUp(ms, db, count, faults);
    var extra := Unreported(PendingList(ms, db, count), o, faults);
    BackTo(ms, base, k, db, o.completed + extra, o.db);
  }

  lemma LostAckStops(ms: seq<Migration>, base: Schema, k: nat, db: Db)
    requires DistinctIds(ms) && AtStep(ms, base, k, db) && k < |ms|
    ensures var o := RunUp(ms, db, None, [LostAck]);
            o.completed == 0 && Unreported(PendingList(ms, db, None), o, [LostAck]) == 1
  {
    PendingIsRest(ms, k, 0);
    assert ms[0..] == ms;
    assert PendingList(ms, db, None) == ms[k..];
  }

  /** Losing the acknowledgement of the first pending migration: nothing is reported, and rolling
      back what was reported leaves the migration applied. */
  lemma LostAckIsNotUndone(ms: seq<Migration>, base: Schema, k: nat, db: Db)
    requires DistinctIds(ms) && (forall m :: m in ms ==> Inverts(m)) && AtStep(ms, base, k, db) && k < |ms|
    ensures var o := RunUp(ms, db, None, [LostAck]);
            o.completed == 0 && RunDown(ms, o.db, o.completed, []).db != db
  {
    LostAckStops(ms, base, k, db);
    DownUndoesUp(ms, base, k, db, None, [LostAck]);
  }
}
