/** The dispatcher between the handlers and the database (db_driver.rs):
    `find` with its filter-kind assertion, the query text it prepares and the
    row decoding loop; the `insert`/`update`/`delete` loops that stop at the
    first failed statement; and `join_find`, which renders joined rows as
    column-name to text maps. */
module DbDriver {
  import opened Results
  import opened Text
  import opened Filters
  import opened TableModels
  import TN = TableNames
  import opened SqliteConn

  // ---------------------------------------------------------------------------
  // The filter-kind assertion

  /** The table a filter's variant belongs to. */
  function FilterKind(f: Filter): TN.Table {
    match f
    case OnUsers(_) => TN.Users
    case OnStudentAccount(_) => TN.StudentAccount
    case OnTeacherAccount(_) => TN.TeacherAccount
    case OnCourses(_) => TN.Courses
    case OnDepartments(_) => TN.Departments
    case OnStudentCourses(_) => TN.StudentCourses
  }

  /** The `assert_eq!` `find` makes before querying table `t`: every filter is
      of `t`'s variant; otherwise the process panics. */
  predicate FiltersMatch(t: TN.Table, filters: seq<Filter>) {
    forall i :: 0 <= i < |filters| ==> FilterKind(filters[i]) == t
  }

  // ---------------------------------------------------------------------------
  // The query text `find_*` prepares

  function Renderings(filters: seq<Filter>): (r: seq<string>)
    ensures |r| == |filters|
    ensures forall i :: 0 <= i < |filters| ==> r[i] == FilterToSql(filters[i])
  {
    seq(|filters|, i requires 0 <= i < |filters| => FilterToSql(filters[i]))
  }

  /** The renderings in input order joined by the associativity's separator. */
  function WhereClause(filters: seq<Filter>, assoc: Associativity): string {
    JoinWith(Renderings(filters), AssociativityText(assoc))
  }

  /** The conditions the engine evaluates for the filters. */
  function Conditions(filters: seq<Filter>): (r: seq<Condition>)
    ensures |r| == |filters|
    ensures forall i :: 0 <= i < |filters| ==> r[i] == FilterCondition(filters[i])
  {
    seq(|filters|, i requires 0 <= i < |filters| => FilterCondition(filters[i]))
  }

  /** `find_users` and the five others: an unconditional query without
      filters, a WHERE clause with them; a missing associativity means AND. */
  function FindSql(t: TN.Table, filters: seq<Filter>, assoc: Option<Associativity>): (r: string)
    ensures StartsWith(r, "SELECT * FROM " + TN.SchemaName(t))
  {
    var base := "SELECT * FROM " + TN.SchemaName(t);
    if filters == [] then base else base + " WHERE " + WhereClause(filters, assoc.GetOr(And))
  }

  /** The query has a WHERE clause exactly when there are filters, and the
      clause is the text of the conditions the engine evaluates, in input
      order; a missing associativity reads as AND. */
  lemma FindSqlShape(t: TN.Table, filters: seq<Filter>, assoc: Option<Associativity>)
    ensures filters == [] ==> FindSql(t, filters, assoc) == "SELECT * FROM " + TN.SchemaName(t)
    ensures filters != [] ==>
      FindSql(t, filters, assoc) == "SELECT * FROM " + TN.SchemaName(t) + " WHERE "
        + JoinWith(seq(|filters|, i requires 0 <= i < |filters| => ConditionText(Conditions(filters)[i])),
                   AssociativityText(assoc.GetOr(And)))
    ensures FindSql(t, filters, None) == FindSql(t, filters, Some(And))
  {
    var texts := seq(|filters|, i requires 0 <= i < |filters| => ConditionText(Conditions(filters)[i]));
    forall i | 0 <= i < |filters|
      ensures texts[i] == Renderings(filters)[i]
    {
      ToSqlRendersCondition(filters[i]);
    }
    assert texts == Renderings(filters);
  }

  /** One more filter adds one separator and its rendering at the end. */
  lemma WhereClauseAppend(filters: seq<Filter>, f: Filter, assoc: Associativity)
    requires filters != []
    ensures WhereClause(filters + [f], assoc) == WhereClause(filters, assoc) + AssociativityText(assoc) + FilterToSql(f)
  {
    assert Renderings(filters + [f]) == Renderings(filters) + [FilterToSql(f)];
    JoinWithAppend(Renderings(filters), FilterToSql(f), AssociativityText(assoc));
  }

  // ---------------------------------------------------------------------------
  // Reading a row: rusqlite's `row.get::<_, T>(k)`

  const I32Min := -0x8000_0000
  const I32Max := 0x7fff_ffff

  predicate FitsI32(n: int) {
    I32Min <= n <= I32Max
  }

  /** `i32` accepts an INTEGER value in range. */
  function GetI32(cells: seq<Value>, k: nat): (r: Result<int>)
    ensures r.Ok? <==> k < |cells| && cells[k].Integer? && FitsI32(cells[k].i)
    ensures r.Ok? ==> r.value == cells[k].i
    ensures k < |cells| && cells[k].Integer? && !FitsI32(cells[k].i) ==> r == Err(Decode(IntegralValueOutOfRange(k)))
  {
    if k >= |cells| then Err(Decode(InvalidColumnIndex(k)))
    else match cells[k]
      case Integer(n) => if FitsI32(n) then Ok(n) else Err(Decode(IntegralValueOutOfRange(k)))
      case _ => Err(Decode(InvalidColumnType(k)))
  }

  /** `String` accepts TEXT only. */
  function GetText(cells: seq<Value>, k: nat): (r: Result<string>)
    ensures r.Ok? <==> k < |cells| && cells[k].TextValue?
    ensures r.Ok? ==> r.value == cells[k].s
  {
    if k >= |cells| then Err(Decode(InvalidColumnIndex(k)))
    else match cells[k]
      case TextValue(s) => Ok(s)
      case _ => Err(Decode(InvalidColumnType(k)))
  }

  /** `bool` accepts an INTEGER and reads it as `value != 0`. */
  function GetBool(cells: seq<Value>, k: nat): (r: Result<bool>)
    ensures r.Ok? <==> k < |cells| && cells[k].Integer?
    ensures r.Ok? ==> r.value == (cells[k].i != 0)
  {
    if k >= |cells| then Err(Decode(InvalidColumnIndex(k)))
    else match cells[k]
      case Integer(n) => Ok(n != 0)
      case _ => Err(Decode(InvalidColumnType(k)))
  }

  /** `f32` accepts REAL and INTEGER; the narrowing to single precision is not
      modelled. */
  function GetReal(cells: seq<Value>, k: nat): (r: Result<real>)
    ensures r.Ok? <==> k < |cells| && (cells[k].Real? || cells[k].Integer?)
    ensures r.Ok? && cells[k].Real? ==> r.value == cells[k].x
    ensures r.Ok? && cells[k].Integer? ==> r.value == cells[k].i as real
  {
    if k >= |cells| then Err(Decode(InvalidColumnIndex(k)))
    else match cells[k]
      case Real(x) => Ok(x)
      case Integer(n) => Ok(n as real)
      case _ => Err(Decode(InvalidColumnType(k)))
  }

  /** The loop body of each `find_*`: the fields read from columns in
      declared order, the first failing `row.get` aborting. */
  function DecodeRow(t: TN.Table, cells: seq<Value>): (r: Result<ReceiverType>)
    ensures r.Ok? ==> KindOf(r.value) == t
    ensures r.Err? ==> r.error.Decode?
  {
    match t
    case Users =>
      var id :- GetI32(cells, 0);
      var username :- GetText(cells, 1);
      var password :- GetText(cells, 2);
      var email :- GetText(cells, 3);
      var phone :- GetText(cells, 4);
      var verified :- GetBool(cells, 5);
      var suspended :- GetBool(cells, 6);
      var forcenewpw :- GetBool(cells, 7);
      var role :- GetText(cells, 8);
      Ok(UserRow(User(id, username, password, email, phone, verified, suspended, forcenewpw, role)))
    case StudentAccount =>
      var id :- GetI32(cells, 0);
      var studentId :- GetI32(cells, 1);
      var advisorId :- GetI32(cells, 2);
      var discipline :- GetText(cells, 3);
      var enrollment :- GetText(cells, 4);
      var cgpa :- GetReal(cells, 5);
      var canGrad :- GetBool(cells, 6);
      var curCredit :- GetI32(cells, 7);
      var cumCredit :- GetI32(cells, 8);
      Ok(StudentAccountRow(TableModels.StudentAccount(id, studentId, advisorId, discipline, enrollment,
                                                      cgpa, canGrad, curCredit, cumCredit)))
    case TeacherAccount =>
      var id :- GetI32(cells, 0);
      var teacherId :- GetI32(cells, 1);
      var deptId :- GetI32(cells, 2);
      Ok(TeacherAccountRow(TableModels.TeacherAccount(id, teacherId, deptId)))
    case Courses =>
      var id :- GetI32(cells, 0);
      var teacherId :- GetI32(cells, 1);
      var course :- GetText(cells, 2);
      var courseNr :- GetText(cells, 3);
      var description :- GetText(cells, 4);
      var crCost :- GetI32(cells, 5);
      var timeslots :- GetText(cells, 6);
      Ok(CourseRow(TableModels.Courses(id, teacherId, course, courseNr, description, crCost, timeslots)))
    case StudentCourses =>
      var studentId :- GetI32(cells, 0);
      var courseId :- GetI32(cells, 1);
      var grade :- GetReal(cells, 2);
      var semester :- GetText(cells, 3);
      Ok(StudentCourseRow(StudentCourse(studentId, courseId, grade, semester)))
    case Departments =>
      var id :- GetI32(cells, 0);
      var name :- GetText(cells, 1);
      Ok(DepartmentRow(TableModels.Departments(id, name)))
  }

  /** Every integer field of the record fits the `i32` the source reads it into. */
  predicate FitsRow(r: ReceiverType) {
    match r
    case UserRow(u) => FitsI32(u.id)
    case StudentAccountRow(s) =>
      FitsI32(s.id) && FitsI32(s.studentId) && FitsI32(s.advisorId) && FitsI32(s.curCredit) && FitsI32(s.cumCredit)
    case TeacherAccountRow(t) => FitsI32(t.id) && FitsI32(t.teacherId) && FitsI32(t.deptId)
    case CourseRow(c) => FitsI32(c.id) && FitsI32(c.teacherId) && FitsI32(c.crCost)
    case StudentCourseRow(e) => FitsI32(e.studentId) && FitsI32(e.courseId)
    case DepartmentRow(d) => FitsI32(d.id)
  }

  /** A stored record reads back as itself exactly when its integers fit
      `i32`; otherwise the read fails on a range error and on nothing else. */
  lemma DecodeEncodedRow(r: ReceiverType)
    ensures DecodeRow(KindOf(r), EncodeRow(r)).Ok? <==> FitsRow(r)
    ensures FitsRow(r) ==> DecodeRow(KindOf(r), EncodeRow(r)) == Ok(r)
    ensures !FitsRow(r) ==>
      DecodeRow(KindOf(r), EncodeRow(r)).error.Decode? &&
      DecodeRow(KindOf(r), EncodeRow(r)).error.decode.IntegralValueOutOfRange?
  {
    var cells := EncodeRow(r);
    match r
    case UserRow(u) =>
    case StudentAccountRow(s) =>
    case TeacherAccountRow(t) =>
    case CourseRow(c) =>
    case StudentCourseRow(e) =>
    case DepartmentRow(d) =>
  }

  // ---------------------------------------------------------------------------
  // The cursor

  /** One call of `rows.next()`: a row, or an error advancing the cursor. */
  datatype Step = Next(cells: seq<Value>) | StepFailed

  /** `while let Some(row) = rows.next().unwrap_or(None)`: a cursor error ends
      the scan as if the rows had run out; a decoding error aborts `find`. */
  function ScanSpec(t: TN.Table, steps: seq<Step>): (r: Result<seq<ReceiverType>>)
    ensures r.Ok? ==> |r.value| <= |steps| && forall i :: 0 <= i < |r.value| ==> KindOf(r.value[i]) == t
    ensures r.Err? ==> r.error.Decode?
  {
    if steps == [] then Ok([])
    else match steps[0]
      case StepFailed => Ok([])
      case Next(cells) =>
        match DecodeRow(t, cells)
        case Err(e) => Err(e)
        case Ok(r) =>
          match ScanSpec(t, steps[1..])
          case Err(e) => Err(e)
          case Ok(rs) => Ok([r] + rs)
  }

  /** The records a scan already holds in front of what the rest yields. */
  function Prefixed(acc: seq<ReceiverType>, rest: Result<seq<ReceiverType>>): Result<seq<ReceiverType>> {
    match rest
    case Err(e) => Err(e)
    case Ok(rs) => Ok(acc + rs)
  }

  lemma PrefixedNothing(rest: Result<seq<ReceiverType>>)
    ensures Prefixed([], rest) == rest
  {
    if rest.Ok? {
      assert [] + rest.value == rest.value;
    }
  }

  lemma PrefixedTwice(acc: seq<ReceiverType>, more: seq<ReceiverType>, rest: Result<seq<ReceiverType>>)
    ensures Prefixed(acc, Prefixed(more, rest)) == Prefixed(acc + more, rest)
  {
    if rest.Ok? {
      assert acc + (more + rest.value) == (acc + more) + rest.value;
    }
  }

  /** The cursor over a result set, failing at call `fault` if that comes
      before the end. */
  function Cursor(rows: seq<seq<Value>>, fault: Option<nat>): (steps: seq<Step>)
    ensures fault.None? || fault.value >= |rows| ==> |steps| == |rows|
    ensures forall i :: 0 <= i < |steps| && (fault.None? || i != fault.value) ==> i < |rows| && steps[i] == Next(rows[i])
  {
    var n := if fault.Some? && fault.value < |rows| then fault.value else |rows|;
    var prefix := seq(n, i requires 0 <= i < n => Next(rows[i]));
    if n < |rows| then prefix + [StepFailed] else prefix
  }

  /** Records of kind `t` whose integers fit, encoded and scanned, come back
      unchanged and in order. */
  lemma {:induction false} ScanEncodedRows(t: TN.Table, rs: seq<ReceiverType>)
    requires forall i :: 0 <= i < |rs| ==> KindOf(rs[i]) == t && FitsRow(rs[i])
    ensures ScanSpec(t, Cursor(EncodeRows(rs), None)) == Ok(rs)
  {
    if rs != [] {
      var steps := Cursor(EncodeRows(rs), None);
      assert steps[1..] == Cursor(EncodeRows(rs[1..]), None);
      DecodeEncodedRow(rs[0]);
      ScanEncodedRows(t, rs[1..]);
      assert [rs[0]] + rs[1..] == rs;
    }
  }

  /** A cursor error ends the scan: the records read before it are the result
      and whatever the cursor would have yielded after it is never looked at. */
  lemma {:induction false} ScanStopsAtCursorError(t: TN.Table, before: seq<seq<Value>>, after: seq<Step>)
    requires forall i :: 0 <= i < |before| ==> DecodeRow(t, before[i]).Ok?
    ensures ScanSpec(t, seq(|before|, i requires 0 <= i < |before| => Next(before[i])) + [StepFailed] + after)
         == Ok(seq(|before|, i requires 0 <= i < |before| => DecodeRow(t, before[i]).value))
  {
    var steps := seq(|before|, i requires 0 <= i < |before| => Next(before[i])) + [StepFailed] + after;
    if before != [] {
      var tail := seq(|before[1..]|, i requires 0 <= i < |before[1..]| => Next(before[1..][i])) + [StepFailed] + after;
      assert steps[1..] == tail;
      ScanStopsAtCursorError(t, before[1..], after);
      var decoded := seq(|before|, i requires 0 <= i < |before| => DecodeRow(t, before[i]).value);
      var rest := seq(|before[1..]|, i requires 0 <= i < |before[1..]| => DecodeRow(t, before[1..][i]).value);
      assert decoded == [decoded[0]] + rest;
    } else {
      assert steps[0] == StepFailed;
    }
  }

  /** The `while let` loop of each `find_*`. */
  method Scan(t: TN.Table, steps: seq<Step>) returns (r: Result<seq<ReceiverType>>)
    ensures r == ScanSpec(t, steps)
  {
    var acc: seq<ReceiverType> := [];
    var i := 0;
    assert steps[0..] == steps;
    PrefixedNothing(ScanSpec(t, steps));
    while i < |steps| && steps[i].Next?
      invariant 0 <= i <= |steps|
      invariant ScanSpec(t, steps) == Prefixed(acc, ScanSpec(t, steps[i..]))
    {
      var row :- DecodeRow(t, steps[i].cells);
      assert steps[i..][1..] == steps[i + 1..];
      assert ScanSpec(t, steps[i..]) == Prefixed([row], ScanSpec(t, steps[i + 1..]));
      PrefixedTwice(acc, [row], ScanSpec(t, steps[i + 1..]));
      acc := acc + [row];
      i := i + 1;
    }
    assert ScanSpec(t, steps[i..]) == Ok([]);
    assert acc + [] == acc;
    r := Ok(acc);
  }

  // ---------------------------------------------------------------------------
  // What `find` returns

  /** `find` on store `st`: the query the filters describe, then the scan of
      its result set with a cursor that may fail at call `fault`. */
  function FindSpec(st: Store, t: TN.Table, filters: seq<Filter>, assoc: Option<Associativity>, fault: Option<nat>)
    : (r: Result<seq<ReceiverType>>)
    ensures r.Ok? ==> forall i :: 0 <= i < |r.value| ==> KindOf(r.value[i]) == t
    ensures r.Err? ==> r.error.Decode? || (r.error.StorageFailure? && r.error.store.NoSuchColumn?)
    ensures MissingColumn(t, Conditions(filters)).Some? ==> r.Err? && r.error.StorageFailure?
  {
    match Select(st, t, Conditions(filters), assoc.GetOr(And))
    case Err(e) => Err(e)
    case Ok(rows) => ScanSpec(t, Cursor(rows, fault))
  }

  /** Every integer in the table fits `i32`. */
  predicate TableFits(st: Store, t: TN.Table) {
    forall i :: 0 <= i < |TableRows(st, t)| ==> FitsRow(TableRows(st, t)[i])
  }

  /** Without cursor errors, `find` returns exactly the records of table `t`
      that the filters select, in table order, all of `t`'s kind; a filter
      naming a column `t` lacks fails the query instead. */
  lemma FindReturnsSelection(st: Store, t: TN.Table, filters: seq<Filter>, assoc: Option<Associativity>)
    requires TableFits(st, t)
    ensures var r := FindSpec(st, t, filters, assoc, None);
      && (r.Ok? <==> MissingColumn(t, Conditions(filters)).None?)
      && (r.Ok? ==>
            && r == SelectRecords(st, t, Conditions(filters), assoc.GetOr(And))
            && (forall x :: x in r.value <==> x in TableRows(st, t) && Selected(x, Conditions(filters), assoc.GetOr(And)))
            && (forall i :: 0 <= i < |r.value| ==> KindOf(r.value[i]) == t))
  {
    var conds, a := Conditions(filters), assoc.GetOr(And);
    if MissingColumn(t, conds).None? {
      var rows := TableRows(st, t);
      var rs := SelectWhere(rows, conds, a);
      forall i | 0 <= i < |rs|
        ensures KindOf(rs[i]) == t && FitsRow(rs[i])
      {
        assert rs[i] in rows;
      }
      ScanEncodedRows(t, rs);
    }
  }

  /** A cursor error at call `k` cuts the result down to the first `k`
      selected records, without an error. */
  lemma FindTruncatesOnCursorError(st: Store, t: TN.Table, filters: seq<Filter>, assoc: Option<Associativity>, k: nat)
    requires TableFits(st, t)
    requires MissingColumn(t, Conditions(filters)).None?
    ensures var all := SelectWhere(TableRows(st, t), Conditions(filters), assoc.GetOr(And));
      FindSpec(st, t, filters, assoc, Some(k)) == Ok(if k < |all| then all[..k] else all)
  {
    var conds, a := Conditions(filters), assoc.GetOr(And);
    var rows := TableRows(st, t);
    var all := SelectWhere(rows, conds, a);
    forall i | 0 <= i < |all|
      ensures KindOf(all[i]) == t && FitsRow(all[i])
    {
      assert all[i] in rows;
    }
    if k < |all| {
      ScanTruncated(t, all, k);
    } else {
      var cells := EncodeRows(all);
      assert Cursor(cells, Some(k)) == Cursor(cells, None);
      ScanEncodedRows(t, all);
    }
  }

  /** Scanning the encoded rows with a cursor error at call `k` yields the first `k`. */
  lemma ScanTruncated(t: TN.Table, all: seq<ReceiverType>, k: nat)
    requires forall i :: 0 <= i < |all| ==> KindOf(all[i]) == t && FitsRow(all[i])
    requires k < |all|
    ensures ScanSpec(t, Cursor(EncodeRows(all), Some(k))) == Ok(all[..k])
  {
    var cells := EncodeRows(all);
    var before := cells[..k];
    forall i | 0 <= i < |before|
      ensures DecodeRow(t, before[i]) == Ok(all[i])
    {
      DecodeEncodedRow(all[i]);
    }
    assert Cursor(cells, Some(k)) == seq(|before|, i requires 0 <= i < |before| => Next(before[i])) + [StepFailed] + [];
    ScanStopsAtCursorError(t, before, []);
    assert seq(|before|, i requires 0 <= i < |before| => DecodeRow(t, before[i]).value) == all[..k];
  }

  // ---------------------------------------------------------------------------
  // Writing a batch

  /** `insert`, `update` and `delete`: the records in order, each through its
      own kind's statement, stopping at the first failure with the earlier
      writes kept. */
  function ApplyAll(st: Store, data: seq<ReceiverType>, a: Action): (ex: Executed)
    ensures ex.outcome.Fail? ==> ex.outcome.error.StorageFailure? && ex.outcome.error.store.UniqueViolation?
    ensures (forall i :: 0 <= i < |data| ==> !data[i].UserRow?) ==> ex.store.users == st.users
    decreases |data|
  {
    if data == [] then Executed(st, Pass)
    else
      var ex := Exec(st, data[0], a);
      if ex.outcome.Fail? then ex else ApplyAll(ex.store, data[1..], a)
  }

  /** One step of a batch from position `i`. */
  lemma ApplyAllStep(st: Store, data: seq<ReceiverType>, i: nat, a: Action)
    requires i < |data|
    ensures var ex := Exec(st, data[i], a);
      ApplyAll(st, data[i..], a) == if ex.outcome.Fail? then ex else ApplyAll(ex.store, data[i + 1..], a)
  {
    assert data[i..][0] == data[i] && data[i..][1..] == data[i + 1..];
  }

  /** A batch splits at any point: the second part runs on what the first
      left, unless the first already failed. */
  lemma {:induction false} ApplyAllSplits(st: Store, xs: seq<ReceiverType>, ys: seq<ReceiverType>, a: Action)
    ensures var first := ApplyAll(st, xs, a);
      ApplyAll(st, xs + ys, a) == if first.outcome.Fail? then first else ApplyAll(first.store, ys, a)
    decreases |xs|
  {
    if xs != [] {
      assert (xs + ys)[0] == xs[0];
      assert (xs + ys)[1..] == xs[1..] + ys;
      var ex := Exec(st, xs[0], a);
      if ex.outcome.Pass? {
        ApplyAllSplits(ex.store, xs[1..], ys, a);
      }
    } else {
      assert xs + ys == ys;
    }
  }

  /** A refused statement leaves the store as it was. */
  lemma RefusedStatementKeepsStore(st: Store, r: ReceiverType, a: Action)
    ensures Exec(st, r, a).outcome.Fail? ==> Exec(st, r, a).store == st
  {
    match r
    case UserRow(u) =>
      match a {
        case Insert =>
        case Update =>
          match UserById(st.users, u.id) {
            case None =>
            case Some(_) =>
          }
        case Delete =>
      }
    case _ =>
  }

  /** The batch keeps the declared constraints, whether it finishes or stops. */
  lemma {:induction false} ApplyAllKeepsValid(st: Store, data: seq<ReceiverType>, a: Action)
    requires Valid(st)
    ensures Valid(ApplyAll(st, data, a).store)
    decreases |data|
  {
    if data != [] {
      ExecPreservesValid(st, data[0], a);
      ApplyAllKeepsValid(Exec(st, data[0], a).store, data[1..], a);
    }
  }

  // ---------------------------------------------------------------------------
  // `join_find`

  /** `"SELECT * FROM {} WHERE {}"` over `Table::join`; the WHERE is written
      even without filters. */
  function JoinSql(a: TN.Table, b: TN.Table, filters: seq<Filter>, j: Join, assoc: Option<Associativity>): (r: string)
    ensures StartsWith(r, "SELECT * FROM " + TN.JoinTables(a, b, j) + " WHERE ")
  {
    "SELECT * FROM " + TN.JoinTables(a, b, j) + " WHERE " + WhereClause(filters, assoc.GetOr(And))
  }

  /** A table the join text names under a name the schema lacks. */
  predicate MisnamedInJoin(t: TN.Table) {
    t == TN.StudentAccount || t == TN.TeacherAccount
  }

  /** The first condition whose column the joined tables do not name exactly once. */
  function JoinColumnError(a: TN.Table, b: TN.Table, conds: seq<Condition>): (r: Option<StoreError>)
    ensures r.None? <==> forall i :: 0 <= i < |conds| && conds[i].Equals? ==>
      (conds[i].column in Columns(a)) != (conds[i].column in Columns(b))
  {
    if conds == [] then None
    else
      var rest := JoinColumnError(a, b, conds[1..]);
      assert forall i :: 1 <= i < |conds| ==> conds[i] == conds[1..][i - 1];
      match conds[0]
      case AlwaysTrue => rest
      case Equals(col, _) =>
        if col in Columns(a) && col in Columns(b) then Some(AmbiguousColumn(col))
        else if col !in Columns(a) && col !in Columns(b) then Some(NoSuchColumn(col))
        else rest
  }

  /** Why preparing the join text fails, in the order the engine finds it:
      the bare `WHERE ` first, then the table names, then the columns. */
  function PrepareJoin(a: TN.Table, b: TN.Table, filters: seq<Filter>): (r: Option<StoreError>)
    ensures r.None? <==>
      (&& filters != [] && !MisnamedInJoin(a) && !MisnamedInJoin(b)
       && forall i :: 0 <= i < |filters| && FilterCondition(filters[i]).Equals? ==>
            (FilterCondition(filters[i]).column in Columns(a)) != (FilterCondition(filters[i]).column in Columns(b)))
  {
    if filters == [] then Some(IncompleteStatement)
    else if MisnamedInJoin(a) then Some(NoSuchTable(TN.TableText(a)))
    else if MisnamedInJoin(b) then Some(NoSuchTable(TN.TableText(b)))
    else JoinColumnError(a, b, Conditions(filters))
  }

  /** The join text ends in a bare WHERE without filters, and names the
      STUDENT_ACCOUNT and TEACHER_ACCOUNT tables by the plural names, so
      preparing it fails in those cases, whatever the rest is. */
  lemma JoinPreparationFails(a: TN.Table, b: TN.Table, filters: seq<Filter>, j: Join, assoc: Option<Associativity>)
    ensures filters == [] ==>
      PrepareJoin(a, b, filters) == Some(IncompleteStatement) &&
      JoinSql(a, b, filters, j, assoc) == "SELECT * FROM " + TN.JoinTables(a, b, j) + " WHERE "
    ensures filters != [] && (MisnamedInJoin(a) || MisnamedInJoin(b)) ==>
      PrepareJoin(a, b, filters).Some? && PrepareJoin(a, b, filters).value.NoSuchTable?
    ensures PrepareJoin(a, b, filters).None? ==>
      && filters != [] && !MisnamedInJoin(a) && !MisnamedInJoin(b)
      && TN.TableText(a) == "\"" + TN.SchemaName(a) + "\"" && TN.TableText(b) == "\"" + TN.SchemaName(b) + "\""
  {
    if PrepareJoin(a, b, filters).None? {
      TN.TableTextNamesSchemaTable(a);
      TN.TableTextNamesSchemaTable(b);
    }
  }

  /** A cell as `join_find` prints it; a column index past the row reads as NULL. */
  function CellText(cells: seq<Value>, i: nat): string {
    if i >= |cells| then "NULL"
    else match cells[i]
      case Null => "NULL"
      case Integer(n) => IntText(n)
      case Real(x) => FloatText(x)
      case TextValue(s) => s
  }

  /** The map after the first `n` columns were inserted. */
  function RowMapUpTo(cols: seq<string>, cells: seq<Value>, n: nat): map<string, string>
    requires n <= |cols|
  {
    if n == 0 then map[] else RowMapUpTo(cols, cells, n - 1)[cols[n - 1] := CellText(cells, n - 1)]
  }

  /** The map holds every column name, and a name the join yields twice
      holds the value of its last column: later inserts overwrite. */
  lemma RowMapLastWins(cols: seq<string>, cells: seq<Value>, n: nat)
    requires n <= |cols|
    ensures forall name :: name in RowMapUpTo(cols, cells, n) <==> name in cols[..n]
    ensures forall k :: 0 <= k < n && (forall m :: k < m < n ==> cols[m] != cols[k]) ==>
      RowMapUpTo(cols, cells, n)[cols[k]] == CellText(cells, k)
  {
    forall name {
      RowMapKey(cols, cells, n, name);
    }
    forall k | 0 <= k < n && (forall m :: k < m < n ==> cols[m] != cols[k]) {
      RowMapValue(cols, cells, n, k);
    }
  }

  lemma {:induction false} RowMapKey(cols: seq<string>, cells: seq<Value>, n: nat, name: string)
    requires n <= |cols|
    ensures name in RowMapUpTo(cols, cells, n) <==> name in cols[..n]
  {
    if n > 0 {
      RowMapKey(cols, cells, n - 1, name);
      assert cols[..n] == cols[..n - 1] + [cols[n - 1]];
    }
  }

  lemma {:induction false} RowMapValue(cols: seq<string>, cells: seq<Value>, n: nat, k: nat)
    requires k < n <= |cols|
    requires forall m :: k < m < n ==> cols[m] != cols[k]
    ensures cols[k] in RowMapUpTo(cols, cells, n) && RowMapUpTo(cols, cells, n)[cols[k]] == CellText(cells, k)
  {
    if k < n - 1 {
      RowMapValue(cols, cells, n - 1, k);
      assert cols[n - 1] != cols[k];
    }
  }

  /** The columns `SELECT *` yields for the join: both tables', in order. */
  function JoinColumns(a: TN.Table, b: TN.Table): seq<string> {
    Columns(a) + Columns(b)
  }

  /** The rows `join_find` returns for the engine's cursor: a failed step
      becomes one empty map (`unwrap_or_default`), and since the cursor
      resets itself after a failed step, the rows end there. */
  function JoinRowsSpec(cols: seq<string>, steps: seq<Step>): seq<map<string, string>> {
    if steps == [] then []
    else match steps[0]
      case StepFailed => [map[]]
      case Next(cells) => [RowMapUpTo(cols, cells, |cols|)] + JoinRowsSpec(cols, steps[1..])
  }

  /** The join rows render the steps one to one up to and including the
      first failed step, and end there; without a failed step there is one
      row per step. */
  lemma {:induction false} JoinRowsStopAtFailure(cols: seq<string>, steps: seq<Step>)
    ensures var r := JoinRowsSpec(cols, steps);
      && |r| <= |steps|
      && (forall i :: 0 <= i < |r| ==>
            r[i] == (if steps[i].StepFailed? then map[] else RowMapUpTo(cols, steps[i].cells, |cols|)))
      && (forall i :: 0 <= i < |r| - 1 ==> steps[i].Next?)
      && (|r| < |steps| ==> |r| > 0 && steps[|r| - 1].StepFailed?)
      && ((forall i :: 0 <= i < |steps| ==> steps[i].Next?) ==> |r| == |steps|)
  {
    if steps != [] && steps[0].Next? {
      var rest := steps[1..];
      JoinRowsStopAtFailure(cols, rest);
      var r := JoinRowsSpec(cols, steps);
      var tail := JoinRowsSpec(cols, rest);
      assert r == [RowMapUpTo(cols, steps[0].cells, |cols|)] + tail;
      forall i | 0 <= i < |r|
        ensures r[i] == (if steps[i].StepFailed? then map[] else RowMapUpTo(cols, steps[i].cells, |cols|))
      {
        if i > 0 {
          assert r[i] == tail[i - 1] && steps[i] == rest[i - 1];
        }
      }
      forall i | 0 <= i < |r| - 1
        ensures steps[i].Next?
      {
        if i > 0 {
          assert steps[i] == rest[i - 1];
        }
      }
      if |r| < |steps| {
        assert steps[|r| - 1] == rest[|tail| - 1];
      }
      if forall i :: 0 <= i < |steps| ==> steps[i].Next? {
        forall i | 0 <= i < |rest|
          ensures rest[i].Next?
        {
          assert rest[i] == steps[i + 1];
        }
      }
    }
  }

  /** One step of the join rows from position `i`. */
  lemma JoinRowsStep(cols: seq<string>, steps: seq<Step>, i: nat)
    requires i < |steps|
    ensures JoinRowsSpec(cols, steps[i..]) ==
      if steps[i].StepFailed? then [map[]]
      else [RowMapUpTo(cols, steps[i].cells, |cols|)] + JoinRowsSpec(cols, steps[i + 1..])
  {
    assert steps[i..][0] == steps[i] && steps[i..][1..] == steps[i + 1..];
  }

  /** `rows.map(..).collect()` over the cursor: one rendered map per row,
      and a failed step adds an empty map and ends the rows. */
  method JoinRows(cols: seq<string>, steps: seq<Step>) returns (out: seq<map<string, string>>)
    ensures out == JoinRowsSpec(cols, steps)
  {
    out := [];
    var i := 0;
    while i < |steps|
      invariant 0 <= i <= |steps|
      invariant JoinRowsSpec(cols, steps) == out + JoinRowsSpec(cols, steps[i..])
    {
      JoinRowsStep(cols, steps, i);
      if steps[i].StepFailed? {
        out := out + [map[]];
        return;
      }
      var hm := RenderRow(cols, steps[i].cells);
      out := out + [hm];
      i := i + 1;
    }
    assert steps[i..] == [];
  }

  /** The row closure of `join_find`: one insert per column, in order. */
  method RenderRow(cols: seq<string>, cells: seq<Value>) returns (hm: map<string, string>)
    ensures hm == RowMapUpTo(cols, cells, |cols|)
  {
    hm := map[];
    for i := 0 to |cols|
      invariant hm == RowMapUpTo(cols, cells, i)
    {
      hm := hm[cols[i] := CellText(cells, i)];
    }
  }

  // ---------------------------------------------------------------------------
  // The driver

  /** `DbDriver`: owns the connection. */
  class Driver {
    const c: DatabaseConnection

    /** `init`: open the database and create the tables. */
    constructor (persisted: Store)
      ensures fresh(c) && c.State() == persisted
    {
      c := new DatabaseConnection(persisted);
    }

    /** `find`. The kind assertion is the caller's obligation. */
    method Find(t: TN.Table, filters: seq<Filter>, assoc: Option<Associativity>, fault: Option<nat>)
      returns (r: Result<seq<ReceiverType>>)
      requires FiltersMatch(t, filters)
      ensures r == FindSpec(c.State(), t, filters, assoc, fault)
    {
      var q := c.Query(t, Conditions(filters), assoc.GetOr(And));
      if q.Err? {
        return Err(q.error);
      }
      r := Scan(t, Cursor(q.value, fault));
    }

    /** `insert`, `update` and `delete`. */
    method Apply(data: seq<ReceiverType>, a: Action) returns (res: Outcome)
      modifies c
      ensures Executed(c.State(), res) == ApplyAll(old(c.State()), data, a)
    {
      res := Pass;
      var i := 0;
      while i < |data|
        invariant 0 <= i <= |data|
        invariant res == Pass
        invariant ApplyAll(old(c.State()), data, a) == ApplyAll(c.State(), data[i..], a)
      {
        ApplyAllStep(c.State(), data, i, a);
        res := c.Execute(data[i], a);
        if res.Fail? {
          return;
        }
        i := i + 1;
      }
    }

    /** `join_find`, with the engine's joined result set as `steps`. A
        statement that does not prepare panics at `unwrap`. */
    method JoinFind(a: TN.Table, b: TN.Table, filters: seq<Filter>, j: Join, assoc: Option<Associativity>,
                    steps: seq<Step>)
      returns (r: Result<seq<map<string, string>>>)
      ensures PrepareJoin(a, b, filters).Some? ==> r == Err(Aborted(PrepareJoin(a, b, filters).value))
      ensures PrepareJoin(a, b, filters).None? ==> r == Ok(JoinRowsSpec(JoinColumns(a, b), steps))
    {
      var failure := PrepareJoin(a, b, filters);
      if failure.Some? {
        return Err(Aborted(failure.value));
      }
      var rows := JoinRows(JoinColumns(a, b), steps);
      r := Ok(rows);
    }
  }
}
