/** Which differences of two peer-input matrices are regressions (`classify` in `scripts/gen_json_matrix.py`). */
module Ratchet {
  import opened Options

  /** One case row: the four flags say whether decoding throws. */
  datatype Row = Row(present: string, hint: nat, absent: bool, onNull: bool, wrongType: bool, oversized: bool)

  datatype Test = Test(baseline: Option<string>, rows: map<string, Row>, consts: map<string, nat>, skeleton: string)

  datatype Matrix = Matrix(prefix: string, tests: map<string, Test>, tail: string)

  datatype Kind = Null | Absent

  datatype Regression = Regression(test: string, key: string, kind: Kind)

  datatype Column = AbsentColumn | NullColumn | WrongTypeColumn | OversizedColumn

  datatype Stale =
    | HarnessDiffers
    | OnlyCommitted(test: string)
    | OnlyGenerated(test: string)
    | BaselineChanged(test: string)
    | ConstChanged(test: string, name: string)
    | FieldRemoved(test: string, key: string)
    | FieldAdded(test: string, key: string)
    | PresentChanged(test: string, key: string)
    | HintChanged(test: string, key: string)
    | ColumnMoved(test: string, key: string, column: Column)

  predicate NullFragile(row: Row)
  {
    !row.absent && row.onNull
  }

  function Flag(row: Row, column: Column): bool
  {
    match column
    case AbsentColumn => row.absent
    case NullColumn => row.onNull
    case WrongTypeColumn => row.wrongType
    case OversizedColumn => row.oversized
  }

  predicate Has(m: Matrix, test: string, key: string)
  {
    test in m.tests && key in m.tests[test].rows
  }

  function RowAt(m: Matrix, test: string, key: string): Row
    requires Has(m, test, key)
  {
    m.tests[test].rows[key]
  }

  predicate FragileAt(m: Matrix, test: string, key: string)
  {
    Has(m, test, key) && NullFragile(RowAt(m, test, key))
  }

  /**
   * The rule: a row regressed when it is null-fragile now and was not before (a missing row was
   * not), or when it is in both matrices and its member became required.
   */
  predicate IsRegression(committed: Matrix, generated: Matrix, r: Regression)
  {
    match r.kind
    case Null => FragileAt(generated, r.test, r.key) && !FragileAt(committed, r.test, r.key)
    case Absent =>
      && Has(committed, r.test, r.key) && Has(generated, r.test, r.key)
      && !RowAt(committed, r.test, r.key).absent && RowAt(generated, r.test, r.key).absent
  }

  function ConstOf(consts: map<string, nat>, name: string): Option<nat>
  {
    if name in consts then Some(consts[name]) else None
  }

  predicate ConstDiffers(committed: Test, generated: Test, name: string)
  {
    ConstOf(committed.consts, name) != ConstOf(generated.consts, name)
  }

  // ---------------------------------------------------------------- what is only stale

  /** A moved flag that is no regression: everything except the two moves that record a new way to throw. */
  predicate StaleMove(was: Row, now: Row, column: Column)
  {
    && Flag(was, column) != Flag(now, column)
    && !(column == AbsentColumn && (now.absent || NullFragile(now)))
    && !(column == NullColumn && NullFragile(now))
  }

  predicate StaleTest(was: Test, now: Test, note: Stale)
  {
    match note
    case BaselineChanged(_) => was.baseline != now.baseline
    case ConstChanged(_, name) => ConstDiffers(was, now, name)
    case FieldRemoved(_, key) => key in was.rows && key !in now.rows
    case FieldAdded(_, key) => key !in was.rows && key in now.rows && !NullFragile(now.rows[key])
    case PresentChanged(_, key) => key in was.rows && key in now.rows && was.rows[key].present != now.rows[key].present
    case HintChanged(_, key) => key in was.rows && key in now.rows && was.rows[key].hint != now.rows[key].hint
    case ColumnMoved(_, key, column) => key in was.rows && key in now.rows && StaleMove(was.rows[key], now.rows[key], column)
    case _ => false
  }

  predicate HarnessChanged(committed: Matrix, generated: Matrix)
  {
    || committed.prefix != generated.prefix
    || (committed.tests.Keys == generated.tests.Keys && committed.tail != generated.tail)
    || exists t | t in committed.tests :: t in generated.tests && committed.tests[t].skeleton != generated.tests[t].skeleton
  }

  predicate IsStale(committed: Matrix, generated: Matrix, note: Stale)
  {
    match note
    case HarnessDiffers => HarnessChanged(committed, generated)
    case OnlyCommitted(t) => t in committed.tests && t !in generated.tests
    case OnlyGenerated(t) => t !in committed.tests && t in generated.tests
    case _ =>
      note.test in generated.tests && note.test in committed.tests && StaleTest(committed.tests[note.test], generated.tests[note.test], note)
  }

  /** Nothing to report about a row means the row did not change. */
  lemma QuietRow(committed: Matrix, generated: Matrix, test: string, key: string)
    requires Has(committed, test, key) && Has(generated, test, key)
    requires forall r :: !IsRegression(committed, generated, r)
    requires forall note :: !IsStale(committed, generated, note)
    ensures RowAt(committed, test, key) == RowAt(generated, test, key)
  {
    assert !IsRegression(committed, generated, Regression(test, key, Null));
    assert !IsRegression(committed, generated, Regression(test, key, Absent));
    assert !IsStale(committed, generated, PresentChanged(test, key));
    assert !IsStale(committed, generated, HintChanged(test, key));
    assert !IsStale(committed, generated, ColumnMoved(test, key, AbsentColumn));
    assert !IsStale(committed, generated, ColumnMoved(test, key, NullColumn));
    assert !IsStale(committed, generated, ColumnMoved(test, key, WrongTypeColumn));
    assert !IsStale(committed, generated, ColumnMoved(test, key, OversizedColumn));
  }

  lemma QuietTest(committed: Matrix, generated: Matrix, test: string)
    requires test in committed.tests && test in generated.tests
    requires forall r :: !IsRegression(committed, generated, r)
    requires forall note :: !IsStale(committed, generated, note)
    ensures committed.tests[test] == generated.tests[test]
  {
    var was, now := committed.tests[test], generated.tests[test];
    assert !IsStale(committed, generated, HarnessDiffers);
    assert !IsStale(committed, generated, BaselineChanged(test));
    forall name ensures ConstOf(was.consts, name) == ConstOf(now.consts, name) {
      assert !IsStale(committed, generated, ConstChanged(test, name));
    }
    SameConsts(was.consts, now.consts);
    forall key ensures key in was.rows <==> key in now.rows {
      assert !IsStale(committed, generated, FieldRemoved(test, key));
      assert !IsStale(committed, generated, FieldAdded(test, key));
      assert !IsRegression(committed, generated, Regression(test, key, Null));
    }
    forall key | key in was.rows ensures was.rows[key] == now.rows[key] {
      QuietRow(committed, generated, test, key);
      assert RowAt(committed, test, key) == was.rows[key];
    }
    assert was.rows == now.rows;
  }

  lemma SameConsts(was: map<string, nat>, now: map<string, nat>)
    requires forall name :: ConstOf(was, name) == ConstOf(now, name)
    ensures was == now
  {
    forall name ensures name in was <==> name in now { assert ConstOf(was, name) == ConstOf(now, name); }
    forall name | name in was ensures was[name] == now[name] { assert ConstOf(was, name) == ConstOf(now, name); }
  }

  /** No difference goes unreported: both lists are empty exactly for equal matrices. */
  lemma NothingReportedIffEqual(committed: Matrix, generated: Matrix)
    ensures (forall r :: !IsRegression(committed, generated, r)) && (forall note :: !IsStale(committed, generated, note))
       <==> committed == generated
  {
    if (forall r :: !IsRegression(committed, generated, r)) && (forall note :: !IsStale(committed, generated, note)) {
      forall t ensures t in committed.tests <==> t in generated.tests {
        assert !IsStale(committed, generated, OnlyCommitted(t));
        assert !IsStale(committed, generated, OnlyGenerated(t));
      }
      forall t | t in committed.tests ensures committed.tests[t] == generated.tests[t] { QuietTest(committed, generated, t); }
      assert committed.tests == generated.tests;
      assert !IsStale(committed, generated, HarnessDiffers);
    }
  }

  // ---------------------------------------------------------------- classify

  /** The report on one test or row: what it contains, exactly, each regression once. */
  ghost predicate Distinct(regressions: seq<Regression>)
  {
    forall i, j | 0 <= i < j < |regressions| :: regressions[i] != regressions[j]
  }

  lemma DistinctTogether(a: seq<Regression>, b: seq<Regression>)
    requires Distinct(a) && Distinct(b) && forall r | r in a :: r !in b
    ensures Distinct(a + b)
  {
    var all := a + b;
    forall i, j | 0 <= i < j < |all| ensures all[i] != all[j] {
      if i < |a| && |a| <= j {
        assert all[i] in a && all[j] == b[j - |a|] && all[j] in b;
      }
    }
  }

  const COLUMNS: seq<Column> := [AbsentColumn, NullColumn, WrongTypeColumn, OversizedColumn]

  function Position(column: Column): (p: nat)
    ensures p < |COLUMNS| && COLUMNS[p] == column
  {
    match column
    case AbsentColumn => 0
    case NullColumn => 1
    case WrongTypeColumn => 2
    case OversizedColumn => 3
  }

  /** A row of both matrices. */
  predicate RowRegressed(prev: Row, row: Row, kind: Kind)
  {
    match kind
    case Null => NullFragile(row) && !NullFragile(prev)
    case Absent => !prev.absent && row.absent
  }

  predicate RowStale(test: string, key: string, prev: Row, row: Row, note: Stale)
  {
    || (note == PresentChanged(test, key) && prev.present != row.present)
    || (note == HintChanged(test, key) && prev.hint != row.hint)
    || (note.ColumnMoved? && note == ColumnMoved(test, key, note.column) && StaleMove(prev, row, note.column))
  }

  /** Whether the first `i` columns have shown the regression. */
  predicate ShownBy(prev: Row, row: Row, kind: Kind, i: nat)
  {
    RowRegressed(prev, row, kind) && i > 0 && (i == 1 ==> row.absent || (prev.absent && prev.onNull))
  }

  /** One column of one row: what the chain of cases appends. */
  method ClassifyColumn(test: string, key: string, prev: Row, row: Row, i: nat)
    returns (regression: Option<Regression>, stale: Option<Stale>)
    requires i < |COLUMNS|
    ensures forall kind :: ShownBy(prev, row, kind, i + 1) <==> (ShownBy(prev, row, kind, i) || regression == Some(Regression(test, key, kind)))
    ensures regression.Some? ==> regression.value.test == test && regression.value.key == key && !ShownBy(prev, row, regression.value.kind, i)
    ensures stale.Some? <==> StaleMove(prev, row, COLUMNS[i])
    ensures stale.Some? ==> stale.value == ColumnMoved(test, key, COLUMNS[i])
  {
    regression, stale := None, None;
    var column := COLUMNS[i];
    var becameFragile := NullFragile(row) && !NullFragile(prev);
    var was, now := Flag(prev, column), Flag(row, column);
    if was == now { return; }
    if column == AbsentColumn && becameFragile {
      if prev.onNull { regression := Some(Regression(test, key, Null)); }
    } else if !now {
      stale := Some(ColumnMoved(test, key, column));
    } else if column == AbsentColumn {
      regression := Some(Regression(test, key, Absent));
    } else if column == NullColumn && !row.absent {
      regression := Some(Regression(test, key, Null));
    } else {
      stale := Some(ColumnMoved(test, key, column));
    }
  }

  method ClassifyRow(test: string, key: string, prev: Row, row: Row) returns (regressions: seq<Regression>,
          stale: seq<Stale>)
    ensures Distinct(regressions)
    ensures forall r :: r in regressions <==> (r.test == test && r.key == key && RowRegressed(prev, row, r.kind))
    ensures forall note :: note in stale <==> RowStale(test, key, prev, row, note)
  {
    hide StaleMove, RowRegressed;
    regressions, stale := [], [];
    if prev.present != row.present { stale := stale + [PresentChanged(test, key)]; }
    if prev.hint != row.hint { stale := stale + [HintChanged(test, key)]; }
    for i := 0 to |COLUMNS|
      invariant Distinct(regressions)
      invariant forall r :: r in regressions <==> (r.test == test && r.key == key && ShownBy(prev, row, r.kind, i))
      invariant forall note :: note in stale <==> (RowStale(test, key, prev, row, note) && (note.ColumnMoved? ==> Position(note.column) < i))
    {
      var regression, moved := ClassifyColumn(test, key, prev, row, i);
      if regression.Some? { regressions := regressions + [regression.value]; }
      if moved.Some? { stale := stale + [moved.value]; }
    }
  }

  /** Rows that appear for the first time: fragile ones regress, in a known test the others are stale. */
  method ClassifyAdded(test: string, added: map<string, Row>) returns (regressions: seq<Regression>, stale: seq<Stale>)
    ensures Distinct(regressions)
    ensures forall r :: r in regressions <==> (r.test == test && r.kind == Null && r.key in added && NullFragile(added[r.key]))
    ensures forall note :: note in stale <==> (note.FieldAdded? && note.test == test && note.key in added && !NullFragile(added[note.key]))
  {
    regressions, stale := [], [];
    var todo := added.Keys;
    while todo != {}
      invariant todo <= added.Keys && Distinct(regressions)
      invariant forall r :: r in regressions <==> (r.test == test && r.kind == Null && r.key in added.Keys - todo && NullFragile(added[r.key]))
      invariant forall note :: note in stale <==>
        (note.FieldAdded? && note.test == test && note.key in added.Keys - todo && !NullFragile(added[note.key]))
      decreases todo
    {
      var key :| key in todo;
      todo := todo - {key};
      if NullFragile(added[key]) {
        regressions := regressions + [Regression(test, key, Null)];
      } else {
        stale := stale + [FieldAdded(test, key)];
      }
    }
  }

  method ChangedConsts(test: string, was: Test, now: Test) returns (stale: seq<Stale>)
    ensures forall note :: note in stale <==> (note.ConstChanged? && note.test == test && ConstDiffers(was, now, note.name))
  {
    stale := [];
    var names := was.consts.Keys + now.consts.Keys;
    var todo := names;
    while todo != {}
      invariant todo <= names
      invariant forall note :: note in stale <==> (note.ConstChanged? && note.test == test && note.name in names - todo && ConstDiffers(was, now, note.name))
      decreases todo
    {
      var name :| name in todo;
      todo := todo - {name};
      if ConstDiffers(was, now, name) { stale := stale + [ConstChanged(test, name)]; }
    }
  }

  method RemovedFields(test: string, was: Test, now: Test) returns (stale: seq<Stale>)
    ensures forall note :: note in stale <==> (note.FieldRemoved? && note.test == test && note.key in was.rows && note.key !in now.rows)
  {
    stale := [];
    var todo := was.rows.Keys;
    while todo != {}
      invariant todo <= was.rows.Keys
      invariant forall note :: note in stale <==>
        (note.FieldRemoved? && note.test == test && note.key in was.rows.Keys - todo && note.key !in now.rows)
      decreases todo
    {
      var key :| key in todo;
      todo := todo - {key};
      if key !in now.rows { stale := stale + [FieldRemoved(test, key)]; }
    }
  }

  predicate SharedRegression(test: string, was: Test, now: Test, r: Regression)
  {
    r.test == test && r.key in was.rows && r.key in now.rows && RowRegressed(was.rows[r.key], now.rows[r.key], r.kind)
  }

  predicate SharedStale(test: string, was: Test, now: Test, note: Stale)
  {
    && (note.PresentChanged? || note.HintChanged? || note.ColumnMoved?)
    && note.test == test && note.key in was.rows && note.key in now.rows
    && RowStale(test, note.key, was.rows[note.key], now.rows[note.key], note)
  }

  method SharedRows(test: string, was: Test, now: Test) returns (regressions: seq<Regression>, stale: seq<Stale>)
    ensures Distinct(regressions)
    ensures forall r :: r in regressions <==> SharedRegression(test, was, now, r)
    ensures forall note :: note in stale <==> SharedStale(test, was, now, note)
  {
    hide RowRegressed, RowStale;
    regressions, stale := [], [];
    var todo := was.rows.Keys;
    while todo != {}
      invariant todo <= was.rows.Keys && Distinct(regressions)
      invariant forall r :: r in regressions <==> (SharedRegression(test, was, now, r) && r.key !in todo)
      invariant forall note :: note in stale <==> (SharedStale(test, was, now, note) && note.key !in todo)
      decreases todo
    {
      var key :| key in todo;
      todo := todo - {key};
      if key in now.rows {
        var rs, ns := ClassifyRow(test, key, was.rows[key], now.rows[key]);
        DistinctTogether(regressions, rs);
        forall note | RowStale(test, key, was.rows[key], now.rows[key], note) ensures SharedStale(test, was, now, note) && note.key == key {
          RowStaleShape(test, key, was.rows[key], now.rows[key], note);
        }
        regressions, stale := regressions + rs, stale + ns;
      }
    }
  }

  lemma RowStaleShape(test: string, key: string, prev: Row, row: Row, note: Stale)
    requires RowStale(test, key, prev, row, note)
    ensures (note.PresentChanged? || note.HintChanged? || note.ColumnMoved?) && note.test == test && note.key == key
  {}

  /** A test of both matrices. */
  method ClassifyTest(test: string, was: Test, now: Test) returns (regressions: seq<Regression>, stale: seq<Stale>)
    ensures Distinct(regressions)
    ensures forall r :: r in regressions <==> TestRegression(test, was, now, r)
    ensures forall note :: note in stale <==> (!note.HarnessDiffers? && note.test == test && StaleTest(was, now, note))
  {
    stale := if was.baseline != now.baseline then [BaselineChanged(test)] else [];
    var consts := ChangedConsts(test, was, now);
    var removed := RemovedFields(test, was, now);
    var added := map key | key in now.rows && key !in was.rows :: now.rows[key];
    var addedRegressions, addedStale := ClassifyAdded(test, added);
    var sharedRegressions, sharedStale := SharedRows(test, was, now);
    stale := stale + consts + removed + addedStale + sharedStale;
    regressions := sharedRegressions + addedRegressions;
    DistinctTogether(sharedRegressions, addedRegressions);
    forall r ensures r in regressions <==> TestRegression(test, was, now, r) {
      RegressionSplits(test, was, now, r);
    }
    hide StaleMove;
    forall note ensures note in stale <==> (!note.HarnessDiffers? && note.test == test && StaleTest(was, now, note)) {
      assert note in sharedStale <==> SharedStale(test, was, now, note);
    }
  }

  predicate TestRegression(test: string, was: Test, now: Test, r: Regression)
  {
    && r.test == test && r.key in now.rows
    && match r.kind
       case Null => NullFragile(now.rows[r.key]) && (r.key in was.rows ==> !NullFragile(was.rows[r.key]))
       case Absent => r.key in was.rows && !was.rows[r.key].absent && now.rows[r.key].absent
  }

  /** A regression is either in a row of both tests or a new fragile row. */
  lemma RegressionSplits(test: string, was: Test, now: Test, r: Regression)
    ensures TestRegression(test, was, now, r) <==>
      || SharedRegression(test, was, now, r)
      || (r.test == test && r.kind == Null && r.key in now.rows && r.key !in was.rows && NullFragile(now.rows[r.key]))
  {}

  method OnlyInCommitted(committed: Matrix, generated: Matrix) returns (stale: seq<Stale>)
    ensures forall note :: note in stale <==> (note.OnlyCommitted? && IsStale(committed, generated, note))
  {
    stale := [];
    var todo := committed.tests.Keys;
    while todo != {}
      invariant todo <= committed.tests.Keys
      invariant forall note :: note in stale <==> (note.OnlyCommitted? && IsStale(committed, generated, note) && note.test !in todo)
      decreases todo
    {
      var test :| test in todo;
      todo := todo - {test};
      if test !in generated.tests { stale := stale + [OnlyCommitted(test)]; }
    }
  }

  /** One test of the generated matrix: the rule, restricted to that test. */
  method ClassifyGenerated(committed: Matrix, generated: Matrix, test: string) returns (regressions: seq<Regression>,
          stale: seq<Stale>)
    requires test in generated.tests
    ensures Distinct(regressions)
    ensures forall r :: r in regressions <==> (r.test == test && IsRegression(committed, generated, r))
    ensures forall note :: note in stale <==> (!note.HarnessDiffers? && !note.OnlyCommitted? && note.test == test && IsStale(committed, generated, note))
  {
    var now := generated.tests[test];
    if test !in committed.tests {
      regressions, stale := ClassifyAdded(test, now.rows);
      stale := [OnlyGenerated(test)];
    } else {
      hide StaleTest, NullFragile;
      regressions, stale := ClassifyTest(test, committed.tests[test], now);
    }
  }

  predicate SkeletonChanged(committed: Matrix, generated: Matrix, test: string)
  {
    test in committed.tests && test in generated.tests && committed.tests[test].skeleton != generated.tests[test].skeleton
  }

  /** All differences, sorted by direction: each regression once and everything else as stale. */
  method Classify(committed: Matrix, generated: Matrix) returns (regressions: seq<Regression>, stale: seq<Stale>)
    ensures Distinct(regressions)
    ensures forall r :: r in regressions <==> IsRegression(committed, generated, r)
    ensures forall note :: note in stale <==> IsStale(committed, generated, note)
  {
    hide StaleTest, NullFragile;
    regressions := [];
    var harness := committed.prefix != generated.prefix;
    if committed.tests.Keys == generated.tests.Keys && committed.tail != generated.tail { harness := true; }
    ghost var changed := harness;
    stale := OnlyInCommitted(committed, generated);
    var todo := generated.tests.Keys;
    while todo != {}
      invariant todo <= generated.tests.Keys && Distinct(regressions)
      invariant forall r :: r in regressions <==> (r.test !in todo && IsRegression(committed, generated, r))
      invariant forall note :: note in stale <==>
        (!note.HarnessDiffers? && (note.OnlyCommitted? || note.test !in todo) && IsStale(committed, generated, note))
      invariant harness <==> (changed || exists t :: t !in todo && SkeletonChanged(committed, generated, t))
      decreases todo
    {
      var test :| test in todo;
      todo := todo - {test};
      harness := harness || (test in committed.tests && committed.tests[test].skeleton != generated.tests[test].skeleton);
      assert SkeletonChanged(committed, generated, test) ==> harness;
      var rs, ns := ClassifyGenerated(committed, generated, test);
      DistinctTogether(regressions, rs);
      regressions, stale := regressions + rs, stale + ns;
    }
    assert (exists t :: SkeletonChanged(committed, generated, t)) <==>
           (exists t | t in committed.tests :: t in generated.tests && committed.tests[t].skeleton != generated.tests[t].skeleton) by {
      forall t | SkeletonChanged(committed, generated, t) ensures t in committed.tests {}
      forall t | t in committed.tests && t in generated.tests && committed.tests[t].skeleton != generated.tests[t].skeleton
        ensures SkeletonChanged(committed, generated, t) {}
    }
    if harness { stale := stale + [HarnessDiffers]; }
  }
}
