/** Drift and ordering checks of `src/db/driftDetector.ts`, and what they say about the states the
    runner can reach. */
module MigrationDrift {
  import opened Results
  import opened Migrations
  import opened Decimal

  /** A row of `schema_migrations` as `getAppliedMigrations` returns it. */
  datatype Row = Row(id: string, name: string)

  // ---------------------------------------------------------------- detectDrift

  datatype DriftError = MissingFromRegistry(id: string) | NameMismatch(id: string)

  datatype DriftWarning = OutOfOrder(id: string, appliedAt: nat, registeredAt: nat)

  /** `new Map(registered.map(...)).get(id)`: the last entry with that id. */
  function LastWithId(ms: seq<Migration>, id: string): Option<Migration> {
    if ms == [] then None
    else if ms[|ms| - 1].id == id then Some(ms[|ms| - 1])
    else LastWithId(ms[..|ms| - 1], id)
  }

  /** `registeredIds.indexOf(id)`. */
  function IndexOf(ms: seq<Migration>, id: string, from: nat): Option<nat>
    requires from <= |ms|
    decreases |ms| - from
  {
    if from == |ms| then None else if ms[from].id == id then Some(from) else IndexOf(ms, id, from + 1)
  }

  function RowError(ms: seq<Migration>, row: Row): seq<DriftError> {
    match LastWithId(ms, row.id)
    case None => [MissingFromRegistry(row.id)]
    case Some(m) => if m.name != row.name then [NameMismatch(row.id)] else []
  }

  function RowWarning(ms: seq<Migration>, row: Row, i: nat): seq<DriftWarning> {
    match IndexOf(ms, row.id, 0)
    case None => []
    case Some(k) => if k != i then [OutOfOrder(row.id, i, k)] else []
  }

  /** What the first `n` steps of a loop add, in order. */
  function Gather<T>(add: nat -> seq<T>, n: nat): seq<T> {
    if n == 0 then [] else Gather(add, n - 1) + add(n - 1)
  }

  lemma {:induction false} GatherNone<T>(add: nat -> seq<T>, n: nat, i: nat)
    requires i < n && Gather(add, n) == []
    ensures add(i) == []
  {
    EmptyConcat(Gather(add, n - 1), add(n - 1));
    if i < n - 1 {
      GatherNone(add, n - 1, i);
    }
  }

  lemma {:induction false} GatherSome<T>(add: nat -> seq<T>, n: nat) returns (i: nat)
    requires Gather(add, n) != []
    ensures i < n && add(i) != []
  {
    EmptyConcat(Gather(add, n - 1), add(n - 1));
    if add(n - 1) != [] {
      i := n - 1;
    } else {
      i := GatherSome(add, n - 1);
    }
  }

  lemma EmptyConcat<T>(a: seq<T>, b: seq<T>)
    ensures a + b == [] <==> a == [] && b == []
  {
    assert |a + b| == |a| + |b|;
  }

  function ErrorsOf(ms: seq<Migration>, rows: seq<Row>): nat -> seq<DriftError> {
    (i: nat) => if i < |rows| then RowError(ms, rows[i]) else []
  }

  function WarningsOf(ms: seq<Migration>, rows: seq<Row>): nat -> seq<DriftWarning> {
    (i: nat) => if i < |rows| then RowWarning(ms, rows[i], i) else []
  }

  function DriftErrors(ms: seq<Migration>, rows: seq<Row>): seq<DriftError> {
    Gather(ErrorsOf(ms, rows), |rows|)
  }

  function DriftWarnings(ms: seq<Migration>, rows: seq<Row>): seq<DriftWarning> {
    Gather(WarningsOf(ms, rows), |rows|)
  }

  /** `detectDrift`. */
  method DetectDrift(ms: seq<Migration>, rows: seq<Row>)
      returns (hasDrift: bool, errors: seq<DriftError>, warnings: seq<DriftWarning>)
    ensures errors == DriftErrors(ms, rows) && warnings == DriftWarnings(ms, rows)
    ensures hasDrift <==> errors != []
  {
    errors, warnings := [], [];
    for i := 0 to |rows|
      invariant errors == Gather(ErrorsOf(ms, rows), i)
    {
      errors := errors + RowError(ms, rows[i]);
    }
    for i := 0 to |rows|
      invariant warnings == Gather(WarningsOf(ms, rows), i)
    {
      warnings := warnings + RowWarning(ms, rows[i], i);
    }
    hasDrift := errors != [];
  }

  /** The applied rows are the first registered migrations, names included. */
  predicate IsPrefix(ms: seq<Migration>, rows: seq<Row>) {
    |rows| <= |ms| && forall i :: 0 <= i < |rows| ==> rows[i] == Row(ms[i].id, ms[i].name)
  }

  predicate Clean(ms: seq<Migration>, rows: seq<Row>) {
    DriftErrors(ms, rows) == [] && DriftWarnings(ms, rows) == []
  }

  lemma {:induction false} LastWithIdFinds(ms: seq<Migration>, id: string)
    ensures match LastWithId(ms, id)
            case None => forall i :: 0 <= i < |ms| ==> ms[i].id != id
            case Some(m) => m in ms && m.id == id
  {
    if ms != [] && ms[|ms| - 1].id != id {
      LastWithIdFinds(ms[..|ms| - 1], id);
    }
  }

  lemma {:induction false} IndexOfFinds(ms: seq<Migration>, id: string, from: nat)
    requires from <= |ms|
    ensures match IndexOf(ms, id, from)
            case None => forall i :: from <= i < |ms| ==> ms[i].id != id
            case Some(k) => from <= k < |ms| && ms[k].id == id
    decreases |ms| - from
  {
    if from < |ms| && ms[from].id != id {
      IndexOfFinds(ms, id, from + 1);
    }
  }

  lemma RowIsInPlace(ms: seq<Migration>, row: Row, i: nat)
    requires DistinctIds(ms)
    ensures RowError(ms, row) == [] && RowWarning(ms, row, i) == [] <==> i < |ms| && row == Row(ms[i].id, ms[i].name)
  {
    LastWithIdFinds(ms, row.id);
    IndexOfFinds(ms, row.id, 0);
  }

  /** With distinct ids nothing is reported, neither error nor warning, exactly when the applied
      rows are a prefix of the registered migrations. */
  lemma CleanIffPrefix(ms: seq<Migration>, rows: seq<Row>)
    requires DistinctIds(ms)
    ensures Clean(ms, rows) <==> IsPrefix(ms, rows)
  {
    var n := |rows|;
    if Clean(ms, rows) {
      forall i | 0 <= i < n
        ensures i < |ms| && rows[i] == Row(ms[i].id, ms[i].name)
      {
        GatherNone(ErrorsOf(ms, rows), n, i);
        GatherNone(WarningsOf(ms, rows), n, i);
        RowIsInPlace(ms, rows[i], i);
      }
      assert n > 0 ==> rows[n - 1] == Row(ms[n - 1].id, ms[n - 1].name);
    } else {
      var i: nat;
      if DriftErrors(ms, rows) != [] {
        i := GatherSome(ErrorsOf(ms, rows), n);
      } else {
        i := GatherSome(WarningsOf(ms, rows), n);
      }
      RowIsInPlace(ms, rows[i], i);
    }
  }

  // ---------------------------------------------------------------- validateMigrationOrder

  /** `String(i + 1).padStart(3, "0")` for the migration at position `i`. */
  function ExpectedId(i: nat): string {
    PadStart(ToString(i + 1), 3)
  }

  /** The format check on ids: three or more digits. */
  predicate IdFormat(id: string) {
    |id| >= 3 && AllDigits(id)
  }

  predicate Sequential(ms: seq<Migration>) {
    forall i :: 0 <= i < |ms| ==> ms[i].id == ExpectedId(i)
  }

  datatype OrderError = BadFormat(i: nat) | NotSequential(i: nat) | Duplicate(id: string)

  lemma ExpectedIdValue(i: nat)
    ensures IdFormat(ExpectedId(i)) && ParseInt(ExpectedId(i)) == i + 1
  {
    ToStringDigits(i + 1);
    PadStartKeepsValue(ToString(i + 1), 3);
  }

  lemma SequentialIsDistinct(ms: seq<Migration>)
    requires Sequential(ms)
    ensures DistinctIds(ms)
  {
    forall i, j | 0 <= i < j < |ms|
      ensures ms[i].id != ms[j].id
    {
      ExpectedIdValue(i);
      ExpectedIdValue(j);
    }
  }

  /** `validateMigrationOrder`: it reports no error exactly when the ids are 001, 002, 003 and so
      on; the format and duplicate checks never add anything of their own. */
  method ValidateMigrationOrder(ms: seq<Migration>) returns (errors: seq<OrderError>)
    ensures errors == [] <==> Sequential(ms)
  {
    errors := [];
    var seen: map<string, nat> := map[];
    for i := 0 to |ms|
      invariant errors == [] <==> forall k :: 0 <= k < i ==> ms[k].id == ExpectedId(k)
      invariant forall id :: id in seen ==> exists k :: 0 <= k < i && ms[k].id == id
      invariant errors == [] ==> forall id :: id in seen ==> seen[id] == 1
    {
      ExpectedIdValue(i);
      if ms[i].id in seen && errors == [] && ms[i].id == ExpectedId(i) {
        ghost var k :| 0 <= k < i && ms[k].id == ms[i].id;
        ExpectedIdValue(k);
        assert false;
      }
      seen := seen[ms[i].id := (if ms[i].id in seen then seen[ms[i].id] else 0) + 1];
      if !IdFormat(ms[i].id) {
        errors := errors + [BadFormat(i)];
      }
      if ms[i].id != ExpectedId(i) {
        errors := errors + [NotSequential(i)];
      }
    }
    var ids := seen.Keys;
    while ids != {}
      invariant ids <= seen.Keys
      invariant errors == [] <==> Sequential(ms)
      invariant errors == [] ==> forall id :: id in seen ==> seen[id] == 1
    {
      var id :| id in ids;
      if seen[id] > 1 {
        errors := errors + [Duplicate(id)];
      }
      ids := ids - {id};
    }
  }

  // ---------------------------------------------------------------- ORDER BY id

  /** Text order of the database. */
  predicate Less(a: string, b: string) {
    b != [] && (a == [] || a[0] < b[0] || (a[0] == b[0] && Less(a[1..], b[1..])))
  }

  lemma {:induction false} LessIsStrict(a: string, b: string)
    ensures !(Less(a, b) && Less(b, a))
    ensures Less(a, b) ==> a != b
  {
    if a != [] && b != [] {
      LessIsStrict(a[1..], b[1..]);
    }
  }

  predicate SortedById(rows: seq<Row>) {
    forall i, j :: 0 <= i < j < |rows| ==> Less(rows[i].id, rows[j].id)
  }

  /** `rows` is the table read with ORDER BY id. */
  ghost predicate ReadOrdered(table: map<string, string>, rows: seq<Row>) {
    SortedById(rows) && forall r :: r in rows <==> r.id in table && table[r.id] == r.name
  }

  /** A table can be read in order in only one way. */
  lemma {:induction false} SortedIsUnique(xs: seq<Row>, ys: seq<Row>)
    requires SortedById(xs) && SortedById(ys) && forall r :: r in xs <==> r in ys
    ensures xs == ys
  {
    assert |xs| > 0 ==> xs[0] in ys;
    assert |ys| > 0 ==> ys[0] in xs;
    if |xs| > 0 && |ys| > 0 {
      var j :| 0 <= j < |ys| && ys[j] == xs[0];
      var i :| 0 <= i < |xs| && xs[i] == ys[0];
      LessIsStrict(xs[0].id, ys[0].id);
      assert xs[0] == ys[0];
      forall r
        ensures r in xs[1..] <==> r in ys[1..]
      {
        TailMembers(xs, r);
        TailMembers(ys, r);
      }
      SortedIsUnique(xs[1..], ys[1..]);
      assert xs == [xs[0]] + xs[1..] && ys == [ys[0]] + ys[1..];
    }
  }

  lemma TailMembers(xs: seq<Row>, r: Row)
    requires xs != [] && SortedById(xs)
    ensures r in xs[1..] <==> r in xs && r != xs[0]
  {
    if r in xs[1..] {
      var i :| 1 <= i < |xs| && xs[i] == r;
      LessIsStrict(xs[0].id, xs[i].id);
    }
    if r in xs && r != xs[0] {
      var i :| 0 <= i < |xs| && xs[i] == r;
      assert xs[1..][i - 1] == r;
    }
  }

  lemma ThreeDigitsCompare(s: string, t: string)
    requires AllDigits(s) && AllDigits(t) && |s| == |t| == 3 && ParseInt(s) < ParseInt(t)
    ensures Less(s, t)
  {
    ThreeDigitValue(s);
    ThreeDigitValue(t);
    assert s[1..][1..] == [s[2]] && t[1..][1..] == [t[2]];
    assert s[2] < t[2] ==> Less([s[2]], [t[2]]);
    assert s[1] < t[1] || (s[1] == t[1] && s[2] < t[2]) ==> Less(s[1..], t[1..]);
  }

  lemma ThreeDigitValue(s: string)
    requires AllDigits(s) && |s| == 3
    ensures ParseInt(s) == 100 * DigitValue(s[0]) + 10 * DigitValue(s[1]) + DigitValue(s[2])
  {
    assert s[..2][..1] == s[..1] && s[..1][..0] == [];
    assert ParseInt(s[..1]) == DigitValue(s[0]);
    assert ParseInt(s[..2]) == 10 * DigitValue(s[0]) + DigitValue(s[1]);
  }

  lemma ExpectedIdsSorted(i: nat, j: nat)
    requires i < j < 999
    ensures Less(ExpectedId(i), ExpectedId(j))
  {
    ExpectedIdValue(i);
    ExpectedIdValue(j);
    ToStringDigits(i + 1);
    ToStringDigits(j + 1);
    assert Pow10(3) == 1000;
    ToStringLength(i + 1, 3);
    ToStringLength(j + 1, 3);
    PadStartKeepsValue(ToString(i + 1), 3);
    PadStartKeepsValue(ToString(j + 1), 3);
    ThreeDigitsCompare(ExpectedId(i), ExpectedId(j));
  }

  /** The thousandth id sorts before its predecessor: "1000" comes before "999". */
  lemma ThousandthIsOutOfOrder()
    ensures !Less(ExpectedId(998), ExpectedId(999))
  {
    assert ToString(999) == "999" && ToString(1000) == "1000";
  }

  lemma {:induction false} TableContents(ms: seq<Migration>, k: nat, r: Row)
    requires DistinctIds(ms) && k <= |ms|
    ensures r.id in TableOf(ms, k) && TableOf(ms, k)[r.id] == r.name <==>
            exists i :: 0 <= i < k && r == Row(ms[i].id, ms[i].name)
  {
    if k > 0 {
      TableContents(ms, k - 1, r);
    }
  }

  function FirstRows(ms: seq<Migration>, k: nat): seq<Row>
    requires k <= |ms|
  {
    seq(k, i requires 0 <= i < k => Row(ms[i].id, ms[i].name))
  }

  /** For a validated list the drift check on the ordered table is clean in every state the
      runner reaches with at most 999 migrations applied, and in none with more. */
  lemma DriftCleanExactlyUpTo999(ms: seq<Migration>, base: Schema, k: nat, db: Db, rows: seq<Row>)
    requires Sequential(ms) && AtStep(ms, base, k, db) && ReadOrdered(db.table, rows)
    ensures Clean(ms, rows) <==> k <= 999
  {
    SequentialIsDistinct(ms);
    CleanIffPrefix(ms, rows);
    forall r
      ensures r in rows <==> exists i :: 0 <= i < k && r == Row(ms[i].id, ms[i].name)
    {
      TableContents(ms, k, r);
    }
    if k <= 999 {
      var first := FirstRows(ms, k);
      forall i, j | 0 <= i < j < |first|
        ensures Less(first[i].id, first[j].id)
      {
        ExpectedIdsSorted(i, j);
      }
      forall r
        ensures r in rows <==> r in first
      {
        if r in first {
          var i :| 0 <= i < k && first[i] == r;
        }
        if r in rows {
          var i :| 0 <= i < k && r == Row(ms[i].id, ms[i].name);
          assert first[i] == r;
        }
      }
      SortedIsUnique(rows, first);
    } else {
      PrefixIsSorted(ms, rows, 998);
      ThousandthIsOutOfOrder();
    }
  }

  lemma PrefixIsSorted(ms: seq<Migration>, rows: seq<Row>, i: nat)
    requires DistinctIds(ms) && SortedById(rows)
    requires i + 1 < |ms| && Row(ms[i + 1].id, ms[i + 1].name) in rows
    ensures IsPrefix(ms, rows) ==> Less(ms[i].id, ms[i + 1].id)
  {
    if IsPrefix(ms, rows) {
      var j :| 0 <= j < |rows| && rows[j] == Row(ms[i + 1].id, ms[i + 1].name);
      assert j == i + 1;
      assert Less(rows[i].id, rows[i + 1].id);
    }
  }
}
