/** The database the record layer talks to (sqlite_conn.rs): the six tables of
    `create_tables`, their UNIQUE and AUTOINCREMENT columns, and the nine
    triggers, as in-memory tables and post-write hooks. Statements are executed
    by their meaning (record and action), not by parsing their text; the text
    is `TableModels.ToSql`. Foreign keys are declared by the schema but SQLite
    does not enforce them unless asked to, and the source never asks, so the
    model does not enforce them either. */
module SqliteConn {
  import opened Results
  import opened Text
  import opened Filters
  import opened TableModels
  import TN = TableNames

  // ---------------------------------------------------------------------------
  // Sequences of rows

  /** No two rows share a value of `key`. */
  predicate DistinctBy<T, K(==)>(s: seq<T>, key: T -> K) {
    forall i, j :: 0 <= i < j < |s| ==> key(s[i]) != key(s[j])
  }

  /** Every row's `key` is at most `bound` (the AUTOINCREMENT counter). */
  predicate AtMost<T(==,!new)>(s: seq<T>, key: T -> int, bound: int) {
    forall x :: x in s ==> key(x) <= bound
  }

  predicate HasKey<T, K(==)>(s: seq<T>, key: T -> K, k: K) {
    exists i :: 0 <= i < |s| && key(s[i]) == k
  }

  /** `DELETE ... WHERE key = k`: the rows whose key differs, in order. */
  function RemoveWhere<T(==,!new), K(==)>(s: seq<T>, key: T -> K, k: K): (r: seq<T>)
    ensures |r| <= |s|
    ensures forall x :: x in r <==> x in s && key(x) != k
    ensures !HasKey(s, key, k) ==> r == s
  {
    if s == [] then []
    else (if key(s[0]) == k then [] else [s[0]]) + RemoveWhere(s[1..], key, k)
  }

  /** `UPDATE ... WHERE key = k` setting every column: matching rows become `row`. */
  function ReplaceWhere<T, K(==)>(s: seq<T>, key: T -> K, k: K, row: T): (r: seq<T>)
    ensures |r| == |s|
    ensures forall i :: 0 <= i < |s| ==> r[i] == (if key(s[i]) == k then row else s[i])
  {
    seq(|s|, i requires 0 <= i < |s| => if key(s[i]) == k then row else s[i])
  }

  lemma {:induction false} RemoveWhereDistinct<T(!new), K, J>(s: seq<T>, key: T -> K, k: K, other: T -> J)
    requires DistinctBy(s, other)
    ensures DistinctBy(RemoveWhere(s, key, k), other)
  {
    if s != [] {
      var rest := RemoveWhere(s[1..], key, k);
      RemoveWhereDistinct(s[1..], key, k, other);
      if key(s[0]) != k {
        forall j | 0 <= j < |rest|
          ensures other(s[0]) != other(rest[j])
        {
          assert rest[j] in s[1..];
          var m :| 0 <= m < |s[1..]| && s[1..][m] == rest[j];
          assert s[m + 1] == rest[j];
        }
        assert RemoveWhere(s, key, k) == [s[0]] + rest;
      }
    }
  }

  lemma ReplaceWhereDistinct<T, K, J>(s: seq<T>, key: T -> K, k: K, row: T, other: T -> J)
    requires DistinctBy(s, key) && DistinctBy(s, other)
    requires forall i :: 0 <= i < |s| && key(s[i]) != k ==> other(s[i]) != other(row)
    ensures DistinctBy(ReplaceWhere(s, key, k, row), other)
  {
  }

  lemma AppendDistinct<T(!new), J>(s: seq<T>, row: T, other: T -> J)
    requires DistinctBy(s, other)
    requires forall x :: x in s ==> other(x) != other(row)
    ensures DistinctBy(s + [row], other)
  {
    var r := s + [row];
    forall i, j | 0 <= i < j < |r|
      ensures other(r[i]) != other(r[j])
    {
      if j == |s| {
        assert r[i] in s;
      }
    }
  }

  lemma ReplaceWhereAtMost<T(!new), K>(s: seq<T>, key: T -> K, k: K, row: T, id: T -> int, bound: int)
    requires AtMost(s, id, bound)
    requires forall i :: 0 <= i < |s| && key(s[i]) == k ==> id(row) <= bound
    ensures AtMost(ReplaceWhere(s, key, k, row), id, bound)
  {
    var r := ReplaceWhere(s, key, k, row);
    forall x | x in r
      ensures id(x) <= bound
    {
      var i :| 0 <= i < |r| && r[i] == x;
      assert s[i] in s;
    }
  }

  lemma AppendAtMost<T(!new)>(s: seq<T>, row: T, id: T -> int, bound: int)
    requires AtMost(s, id, bound) && id(row) == bound + 1
    ensures AtMost(s + [row], id, bound + 1)
    ensures forall x :: x in s ==> id(x) != id(row)
  {
  }

  // ---------------------------------------------------------------------------
  // Keys of the rows

  function UserId(u: User): int { u.id }
  function UserEmail(u: User): string { u.email }
  function AccountId(a: StudentAccount): int { a.id }
  function AccountStudent(a: StudentAccount): int { a.studentId }
  function TeacherAccountId(t: TeacherAccount): int { t.id }
  function AccountTeacher(t: TeacherAccount): int { t.teacherId }
  function CourseRowId(c: Courses): int { c.id }
  function EnrolmentKey(e: StudentCourse): (int, int) { (e.studentId, e.courseId) }
  function DepartmentId(d: Departments): int { d.id }

  // ---------------------------------------------------------------------------
  // Tables and their constraints

  /** The six tables in row order, and the AUTOINCREMENT counter of each table
      that has one (the largest id the table ever handed out). */
  datatype Store = Store(
    users: seq<User>,
    studentAccounts: seq<StudentAccount>,
    teacherAccounts: seq<TeacherAccount>,
    courses: seq<Courses>,
    studentCourses: seq<StudentCourse>,
    departments: seq<Departments>,
    userSeq: int,
    studentAccountSeq: int,
    teacherAccountSeq: int,
    courseSeq: int,
    departmentSeq: int)

  const EmptyStore := Store([], [], [], [], [], [], 0, 0, 0, 0, 0)

  predicate UsersValid(users: seq<User>, counter: int) {
    DistinctBy(users, UserId) && AtMost(users, UserId, counter) && DistinctBy(users, UserEmail)
  }

  predicate StudentAccountsValid(accounts: seq<StudentAccount>, counter: int) {
    && DistinctBy(accounts, AccountId) && AtMost(accounts, AccountId, counter)
    && DistinctBy(accounts, AccountStudent)
  }

  predicate TeacherAccountsValid(accounts: seq<TeacherAccount>, counter: int) {
    && DistinctBy(accounts, TeacherAccountId) && AtMost(accounts, TeacherAccountId, counter)
    && DistinctBy(accounts, AccountTeacher)
  }

  /** What `create_tables` declares and the store keeps: ids unique and never
      above their counter; USERS.email, STUDENT_ACCOUNT.student_id and
      TEACHER_ACCOUNT.teacher_id UNIQUE. STUDENT_COURSES has no key. */
  predicate Valid(st: Store) {
    && UsersValid(st.users, st.userSeq)
    && StudentAccountsValid(st.studentAccounts, st.studentAccountSeq)
    && TeacherAccountsValid(st.teacherAccounts, st.teacherAccountSeq)
    && DistinctBy(st.courses, CourseRowId) && AtMost(st.courses, CourseRowId, st.courseSeq)
    && DistinctBy(st.departments, DepartmentId)
    && AtMost(st.departments, DepartmentId, st.departmentSeq)
  }

  // ---------------------------------------------------------------------------
  // Triggers on USERS

  /** The row `INSERT OR REPLACE INTO STUDENT_ACCOUNT` writes for a new student. */
  function DefaultStudentAccount(id: int, studentId: int): StudentAccount {
    StudentAccount(id, studentId, 0, "", "", 0.0, false, 0, 0)
  }

  /** `INSERT OR REPLACE` of a fresh student account for `uid`: the row that
      clashes on the UNIQUE student_id goes, a default row with the next id comes. */
  function ProvisionStudent(st: Store, uid: int): (r: Store)
    ensures r == st.(studentAccounts := r.studentAccounts, studentAccountSeq := st.studentAccountSeq + 1)
    ensures forall x :: x in r.studentAccounts <==>
      (x in st.studentAccounts && x.studentId != uid) || x == DefaultStudentAccount(st.studentAccountSeq + 1, uid)
  {
    var id := st.studentAccountSeq + 1;
    st.(studentAccounts := RemoveWhere(st.studentAccounts, AccountStudent, uid)
                           + [DefaultStudentAccount(id, uid)],
        studentAccountSeq := id)
  }

  function ProvisionTeacher(st: Store, uid: int): (r: Store)
    ensures r == st.(teacherAccounts := r.teacherAccounts, teacherAccountSeq := st.teacherAccountSeq + 1)
    ensures forall x :: x in r.teacherAccounts <==>
      (x in st.teacherAccounts && x.teacherId != uid) || x == TeacherAccount(st.teacherAccountSeq + 1, uid, 0)
  {
    var id := st.teacherAccountSeq + 1;
    st.(teacherAccounts := RemoveWhere(st.teacherAccounts, AccountTeacher, uid)
                           + [TeacherAccount(id, uid, 0)],
        teacherAccountSeq := id)
  }

  function DropStudentAccount(st: Store, uid: int): Store {
    st.(studentAccounts := RemoveWhere(st.studentAccounts, AccountStudent, uid))
  }

  function DropTeacherAccount(st: Store, uid: int): Store {
    st.(teacherAccounts := RemoveWhere(st.teacherAccounts, AccountTeacher, uid))
  }

  /** The user triggers write the two account tables and their counters, nothing else. */
  predicate TriggerFrame(st: Store, r: Store) {
    r == st.(studentAccounts := r.studentAccounts, teacherAccounts := r.teacherAccounts,
             studentAccountSeq := r.studentAccountSeq, teacherAccountSeq := r.teacherAccountSeq)
  }

  /** Every student account after the write was there before, and no id was taken. */
  predicate NoStudentAccountAdded(st: Store, r: Store) {
    r.studentAccountSeq == st.studentAccountSeq
    && forall a :: a in r.studentAccounts ==> a in st.studentAccounts
  }

  predicate NoTeacherAccountAdded(st: Store, r: Store) {
    r.teacherAccountSeq == st.teacherAccountSeq
    && forall t :: t in r.teacherAccounts ==> t in st.teacherAccounts
  }

  /** `manage_student_account_insert`, `manage_teacher_account_insert` and
      `handle_admin_role`: the role is compared exactly, as SQL `=` on text does. */
  function AfterUserInsert(st: Store, uid: int, role: string): (r: Store)
    ensures TriggerFrame(st, r)
    ensures role != "student" ==> NoStudentAccountAdded(st, r)
    ensures role != "teacher" ==> NoTeacherAccountAdded(st, r)
  {
    if role == "student" then DropTeacherAccount(ProvisionStudent(st, uid), uid)
    else if role == "teacher" then DropStudentAccount(ProvisionTeacher(st, uid), uid)
    else if role == "admin" then DropTeacherAccount(DropStudentAccount(st, uid), uid)
    else st
  }

  /** `manage_student_account_update` and `manage_teacher_account_update`;
      there is no update trigger for admins. */
  function AfterUserUpdate(st: Store, uid: int, role: string): (r: Store)
    ensures TriggerFrame(st, r)
    ensures role != "student" ==> NoStudentAccountAdded(st, r)
    ensures role != "teacher" ==> NoTeacherAccountAdded(st, r)
  {
    if role == "student" then DropTeacherAccount(ProvisionStudent(st, uid), uid)
    else if role == "teacher" then DropStudentAccount(ProvisionTeacher(st, uid), uid)
    else st
  }

  /** `clear_accounts_on_delete`. */
  function AfterUserDelete(st: Store, uid: int): (r: Store)
    ensures r == st.(studentAccounts := r.studentAccounts, teacherAccounts := r.teacherAccounts)
    ensures NoStudentAccountAdded(st, r) && NoTeacherAccountAdded(st, r)
    ensures forall a :: a in r.studentAccounts ==> a.studentId != uid
    ensures forall t :: t in r.teacherAccounts ==> t.teacherId != uid
  {
    DropTeacherAccount(DropStudentAccount(st, uid), uid)
  }

  // ---------------------------------------------------------------------------
  // Triggers on STUDENT_COURSES

  /** Credit cost of every course with id `cid`: the rows one enrolment row
      joins with on `course_id = id`. */
  function CostsOf(courses: seq<Courses>, cid: int): seq<int> {
    if courses == [] then []
    else (if courses[0].id == cid then [courses[0].crCost] else []) + CostsOf(courses[1..], cid)
  }

  /** One enrolment row's part of the two sums: grade times credits and
      credits, over the joined courses, counted only when the grade is set. */
  function PointsOf(grade: real, costs: seq<int>): real {
    if costs == [] || grade < 0.0 then 0.0
    else grade * costs[0] as real + PointsOf(grade, costs[1..])
  }

  function CreditsOf(grade: real, costs: seq<int>): int {
    if costs == [] || grade < 0.0 then 0
    else costs[0] + CreditsOf(grade, costs[1..])
  }

  /** SUM(CASE WHEN grade >= 0 THEN grade * cr_cost ELSE 0 END) over the
      student's rows joined with COURSES. */
  function GradePoints(scs: seq<StudentCourse>, courses: seq<Courses>, sid: int): real {
    if scs == [] then 0.0
    else
      (if scs[0].studentId == sid then PointsOf(scs[0].grade, CostsOf(courses, scs[0].courseId)) else 0.0)
      + GradePoints(scs[1..], courses, sid)
  }

  /** SUM(CASE WHEN grade >= 0 THEN cr_cost ELSE 0 END) over the same join. */
  function GradedCredits(scs: seq<StudentCourse>, courses: seq<Courses>, sid: int): int {
    if scs == [] then 0
    else
      (if scs[0].studentId == sid then CreditsOf(scs[0].grade, CostsOf(courses, scs[0].courseId)) else 0)
      + GradedCredits(scs[1..], courses, sid)
  }

  /** COALESCE(points / NULLIF(credits, 0), 0.0). */
  function CgpaOf(st: Store, sid: int): real {
    var credits := GradedCredits(st.studentCourses, st.courses, sid);
    if credits == 0 then 0.0 else GradePoints(st.studentCourses, st.courses, sid) / credits as real
  }

  /** can_grad: at least 120 graded credits. */
  function CanGraduate(st: Store, sid: int): bool {
    GradedCredits(st.studentCourses, st.courses, sid) >= 120
  }

  /** `update_student_cgpa_*`: writes the standing of student `sid` into the
      STUDENT_ACCOUNT row whose `id` column, not `student_id`, equals `sid`. */
  function RecomputeStanding(st: Store, sid: int): (r: Store)
    ensures r == st.(studentAccounts := r.studentAccounts)
    ensures |r.studentAccounts| == |st.studentAccounts|
    ensures forall i :: 0 <= i < |st.studentAccounts| ==>
      r.studentAccounts[i] == st.studentAccounts[i].(cgpa := r.studentAccounts[i].cgpa, canGrad := r.studentAccounts[i].canGrad)
    ensures forall i :: 0 <= i < |st.studentAccounts| && st.studentAccounts[i].id != sid ==>
      r.studentAccounts[i] == st.studentAccounts[i]
  {
    var cgpa, canGrad := CgpaOf(st, sid), CanGraduate(st, sid);
    st.(studentAccounts := seq(|st.studentAccounts|, i requires 0 <= i < |st.studentAccounts| =>
          var a := st.studentAccounts[i];
          if a.id == sid then a.(cgpa := cgpa, canGrad := canGrad) else a))
  }

  // ---------------------------------------------------------------------------
  // Statements

  datatype Executed = Executed(store: Store, outcome: Outcome)

  function Refuse(st: Store, table: string, column: string): Executed {
    Executed(st, Fail(StorageFailure(UniqueViolation(table, column))))
  }

  /** A user statement writes USERS, and the account tables through its
      triggers; courses, enrolments and departments stay as they were. */
  predicate UserWriteFrame(st: Store, s: Store) {
    s == st.(users := s.users, userSeq := s.userSeq, studentAccounts := s.studentAccounts,
             teacherAccounts := s.teacherAccounts, studentAccountSeq := s.studentAccountSeq,
             teacherAccountSeq := s.teacherAccountSeq)
  }

  /** The first user row with id `id`. */
  function UserById(users: seq<User>, id: int): (r: Option<User>)
    ensures r.Some? ==> r.value in users && r.value.id == id
    ensures r.None? <==> !HasKey(users, UserId, id)
  {
    if users == [] then None
    else if users[0].id == id then Some(users[0])
    else
      var r := UserById(users[1..], id);
      assert forall i :: 1 <= i < |users| ==> users[i] == users[1..][i - 1];
      r
  }

  /** Another user than `id` already has `email`. */
  predicate EmailTaken(users: seq<User>, email: string, id: int) {
    exists i :: 0 <= i < |users| && users[i].email == email && users[i].id != id
  }

  predicate StudentTaken(accounts: seq<StudentAccount>, studentId: int, id: int) {
    exists i :: 0 <= i < |accounts| && accounts[i].studentId == studentId && accounts[i].id != id
  }

  predicate TeacherTaken(accounts: seq<TeacherAccount>, teacherId: int, id: int) {
    exists i :: 0 <= i < |accounts| && accounts[i].teacherId == teacherId && accounts[i].id != id
  }

  /** A user statement. The inserted row takes the next AUTOINCREMENT id; an
      update whose record has an empty password leaves the stored one. */
  function ExecUser(st: Store, u: User, a: Action): (ex: Executed)
    ensures UserWriteFrame(st, ex.store)
    ensures ex.outcome.Fail? ==> ex.outcome.error == StorageFailure(UniqueViolation("USERS", "email"))
  {
    match a
    case Insert => InsertUser(st, u)
    case Update => UpdateUser(st, u)
    case Delete => DeleteUser(st, u.id)
  }

  function InsertUser(st: Store, u: User): (ex: Executed)
    ensures UserWriteFrame(st, ex.store)
    ensures ex.outcome.Fail? ==> ex.outcome.error == StorageFailure(UniqueViolation("USERS", "email"))
  {
    var id := st.userSeq + 1;
    if EmailTaken(st.users, u.email, id) then Refuse(st, "USERS", "email")
    else
      var st1 := st.(users := st.users + [u.(id := id)], userSeq := id);
      Executed(AfterUserInsert(st1, id, u.role), Pass)
  }

  function UpdateUser(st: Store, u: User): (ex: Executed)
    ensures UserWriteFrame(st, ex.store) && ex.store.userSeq == st.userSeq
    ensures ex.outcome.Fail? ==> ex.outcome.error == StorageFailure(UniqueViolation("USERS", "email"))
  {
    match UserById(st.users, u.id)
    case None => Executed(st, Pass)
    case Some(stored) =>
      if EmailTaken(st.users, u.email, u.id) then Refuse(st, "USERS", "email")
      else
        var row := if u.password == "" then u.(password := stored.password) else u;
        var st1 := st.(users := ReplaceWhere(st.users, UserId, u.id, row));
        Executed(AfterUserUpdate(st1, u.id, u.role), Pass)
  }

  function DeleteUser(st: Store, id: int): (ex: Executed)
    ensures UserWriteFrame(st, ex.store) && ex.store.userSeq == st.userSeq
    ensures ex.outcome == Pass
  {
    if !HasKey(st.users, UserId, id) then Executed(st, Pass)
    else
      var st1 := st.(users := RemoveWhere(st.users, UserId, id));
      Executed(AfterUserDelete(st1, id), Pass)
  }

  function ExecStudentAccount(st: Store, s: StudentAccount, a: Action): (ex: Executed)
    ensures ex.store == st.(studentAccounts := ex.store.studentAccounts, studentAccountSeq := ex.store.studentAccountSeq)
    ensures ex.outcome.Fail? ==> ex.outcome.error == StorageFailure(UniqueViolation("STUDENT_ACCOUNT", "student_id"))
  {
    match a
    case Insert =>
      var id := st.studentAccountSeq + 1;
      if StudentTaken(st.studentAccounts, s.studentId, id) then Refuse(st, "STUDENT_ACCOUNT", "student_id")
      else Executed(st.(studentAccounts := st.studentAccounts + [s.(id := id)], studentAccountSeq := id), Pass)
    case Update =>
      if !HasKey(st.studentAccounts, AccountId, s.id) then Executed(st, Pass)
      else if StudentTaken(st.studentAccounts, s.studentId, s.id) then Refuse(st, "STUDENT_ACCOUNT", "student_id")
      else Executed(st.(studentAccounts := ReplaceWhere(st.studentAccounts, AccountId, s.id, s)), Pass)
    case Delete =>
      Executed(st.(studentAccounts := RemoveWhere(st.studentAccounts, AccountId, s.id)), Pass)
  }

  function ExecTeacherAccount(st: Store, t: TeacherAccount, a: Action): (ex: Executed)
    ensures ex.store == st.(teacherAccounts := ex.store.teacherAccounts, teacherAccountSeq := ex.store.teacherAccountSeq)
    ensures ex.outcome.Fail? ==> ex.outcome.error == StorageFailure(UniqueViolation("TEACHER_ACCOUNT", "teacher_id"))
  {
    match a
    case Insert =>
      var id := st.teacherAccountSeq + 1;
      if TeacherTaken(st.teacherAccounts, t.teacherId, id) then Refuse(st, "TEACHER_ACCOUNT", "teacher_id")
      else Executed(st.(teacherAccounts := st.teacherAccounts + [t.(id := id)], teacherAccountSeq := id), Pass)
    case Update =>
      if !HasKey(st.teacherAccounts, TeacherAccountId, t.id) then Executed(st, Pass)
      else if TeacherTaken(st.teacherAccounts, t.teacherId, t.id) then Refuse(st, "TEACHER_ACCOUNT", "teacher_id")
      else Executed(st.(teacherAccounts := ReplaceWhere(st.teacherAccounts, TeacherAccountId, t.id, t)), Pass)
    case Delete =>
      Executed(st.(teacherAccounts := RemoveWhere(st.teacherAccounts, TeacherAccountId, t.id)), Pass)
  }

  function ExecCourse(st: Store, c: Courses, a: Action): (ex: Executed)
    ensures ex.outcome == Pass
    ensures ex.store == st.(courses := ex.store.courses, courseSeq := ex.store.courseSeq)
  {
    match a
    case Insert =>
      var id := st.courseSeq + 1;
      Executed(st.(courses := st.courses + [c.(id := id)], courseSeq := id), Pass)
    case Update => Executed(st.(courses := ReplaceWhere(st.courses, CourseRowId, c.id, c)), Pass)
    case Delete => Executed(st.(courses := RemoveWhere(st.courses, CourseRowId, c.id)), Pass)
  }

  /** An enrolment statement; the standing is recomputed after an insert, and
      after an update or delete that touched at least one row (the triggers
      run once per affected row, each time for the same student and each
      overwriting the last, so once on the final table is the same). */
  function ExecStudentCourse(st: Store, e: StudentCourse, a: Action): (ex: Executed)
    ensures ex.outcome == Pass
    ensures ex.store == st.(studentCourses := ex.store.studentCourses, studentAccounts := ex.store.studentAccounts)
  {
    var key := EnrolmentKey(e);
    match a
    case Insert =>
      Executed(RecomputeStanding(st.(studentCourses := st.studentCourses + [e]), e.studentId), Pass)
    case Update =>
      var st1 := st.(studentCourses := ReplaceWhere(st.studentCourses, EnrolmentKey, key, e));
      Executed(if HasKey(st.studentCourses, EnrolmentKey, key) then RecomputeStanding(st1, e.studentId) else st1, Pass)
    case Delete =>
      var st1 := st.(studentCourses := RemoveWhere(st.studentCourses, EnrolmentKey, key));
      Executed(if HasKey(st.studentCourses, EnrolmentKey, key) then RecomputeStanding(st1, e.studentId) else st1, Pass)
  }

  function ExecDepartment(st: Store, d: Departments, a: Action): (ex: Executed)
    ensures ex.outcome == Pass
    ensures ex.store == st.(departments := ex.store.departments, departmentSeq := ex.store.departmentSeq)
  {
    match a
    case Insert =>
      var id := st.departmentSeq + 1;
      Executed(st.(departments := st.departments + [d.(id := id)], departmentSeq := id), Pass)
    case Update => Executed(st.(departments := ReplaceWhere(st.departments, DepartmentId, d.id, d)), Pass)
    case Delete => Executed(st.(departments := RemoveWhere(st.departments, DepartmentId, d.id)), Pass)
  }

  /** `connection.execute(&record.to_sql(action))`, triggers included. A
      refused statement leaves every table as it was. */
  function Exec(st: Store, r: ReceiverType, a: Action): (ex: Executed)
    ensures ex.outcome.Fail? ==> ex.outcome.error.StorageFailure? && ex.outcome.error.store.UniqueViolation?
    ensures !r.UserRow? ==> ex.store.users == st.users && ex.store.userSeq == st.userSeq
    ensures !r.CourseRow? ==> ex.store.courses == st.courses && ex.store.courseSeq == st.courseSeq
    ensures !r.DepartmentRow? ==> ex.store.departments == st.departments && ex.store.departmentSeq == st.departmentSeq
    ensures !r.StudentCourseRow? ==> ex.store.studentCourses == st.studentCourses
  {
    match r
    case UserRow(u) => ExecUser(st, u, a)
    case StudentAccountRow(s) => ExecStudentAccount(st, s, a)
    case TeacherAccountRow(t) => ExecTeacherAccount(st, t, a)
    case CourseRow(c) => ExecCourse(st, c, a)
    case StudentCourseRow(e) => ExecStudentCourse(st, e, a)
    case DepartmentRow(d) => ExecDepartment(st, d, a)
  }

  // ---------------------------------------------------------------------------
  // Reading rows

  /** A column value as SQLite stores it; BOOLEAN columns hold 1 or 0. */
  datatype Value = Null | Integer(i: int) | Real(x: real) | TextValue(s: string)

  function BoolValue(b: bool): Value {
    Integer(if b then 1 else 0)
  }

  function KindOf(r: ReceiverType): TN.Table {
    match r
    case UserRow(_) => TN.Users
    case StudentAccountRow(_) => TN.StudentAccount
    case TeacherAccountRow(_) => TN.TeacherAccount
    case CourseRow(_) => TN.Courses
    case StudentCourseRow(_) => TN.StudentCourses
    case DepartmentRow(_) => TN.Departments
  }

  /** The columns of each table in declared order (sqlite_conn.rs:19-79). */
  function Columns(t: TN.Table): seq<string> {
    match t
    case Users =>
      ["id", "username", "password", "email", "phone", "verified", "suspended", "forcenewpw", "role"]
    case StudentAccount =>
      ["id", "student_id", "advisor_id", "discipline", "enrollment", "cgpa", "can_grad",
       "cur_credit", "cum_credit"]
    case TeacherAccount => ["id", "teacher_id", "dept_id"]
    case Courses => ["id", "teacher_id", "course", "course_nr", "description", "cr_cost", "timeslots"]
    case StudentCourses => ["student_id", "course_id", "grade", "semester"]
    case Departments => ["id", "name"]
  }

  /** A stored row, its values in column order. */
  function EncodeRow(r: ReceiverType): (row: seq<Value>)
    ensures |row| == |Columns(KindOf(r))|
  {
    match r
    case UserRow(u) =>
      [Integer(u.id), TextValue(u.username), TextValue(u.password), TextValue(u.email),
       TextValue(u.phone), BoolValue(u.verified), BoolValue(u.suspended), BoolValue(u.forcenewpw),
       TextValue(u.role)]
    case StudentAccountRow(s) =>
      [Integer(s.id), Integer(s.studentId), Integer(s.advisorId), TextValue(s.discipline),
       TextValue(s.enrollment), Real(s.cgpa), BoolValue(s.canGrad), Integer(s.curCredit),
       Integer(s.cumCredit)]
    case TeacherAccountRow(t) => [Integer(t.id), Integer(t.teacherId), Integer(t.deptId)]
    case CourseRow(c) =>
      [Integer(c.id), Integer(c.teacherId), TextValue(c.course), TextValue(c.courseNr),
       TextValue(c.description), Integer(c.crCost), TextValue(c.timeslots)]
    case StudentCourseRow(e) =>
      [Integer(e.studentId), Integer(e.courseId), Real(e.grade), TextValue(e.semester)]
    case DepartmentRow(d) => [Integer(d.id), TextValue(d.name)]
  }

  /** The rows of one table, in order. */
  function TableRows(st: Store, t: TN.Table): (rows: seq<ReceiverType>)
    ensures forall i :: 0 <= i < |rows| ==> KindOf(rows[i]) == t
  {
    match t
    case Users => seq(|st.users|, i requires 0 <= i < |st.users| => UserRow(st.users[i]))
    case StudentAccount =>
      seq(|st.studentAccounts|, i requires 0 <= i < |st.studentAccounts| => StudentAccountRow(st.studentAccounts[i]))
    case TeacherAccount =>
      seq(|st.teacherAccounts|, i requires 0 <= i < |st.teacherAccounts| => TeacherAccountRow(st.teacherAccounts[i]))
    case Courses => seq(|st.courses|, i requires 0 <= i < |st.courses| => CourseRow(st.courses[i]))
    case StudentCourses =>
      seq(|st.studentCourses|, i requires 0 <= i < |st.studentCourses| => StudentCourseRow(st.studentCourses[i]))
    case Departments =>
      seq(|st.departments|, i requires 0 <= i < |st.departments| => DepartmentRow(st.departments[i]))
  }

  /** Position of a column, if the table has it. */
  function ColumnIndex(cols: seq<string>, name: string): (r: Option<nat>)
    ensures r.Some? ==> r.value < |cols| && cols[r.value] == name
    ensures r.None? <==> name !in cols
  {
    if cols == [] then None
    else if cols[0] == name then Some(0)
    else match ColumnIndex(cols[1..], name)
      case Some(k) => Some(k + 1)
      case None => None
  }

  /** `value = literal` as SQLite compares them: numbers by value, booleans as
      1 and 0, text by its characters; NULL equals nothing. A column is never
      compared with a literal of another class: each filter variant pairs its
      column with a literal of the column's declared type. */
  predicate Compare(v: Value, l: Literal) {
    match (v, l)
    case (Integer(n), IntLit(m)) => n == m
    case (Integer(n), BoolLit(b)) => n == (if b then 1 else 0)
    case (Integer(n), RealLit(x)) => n as real == x
    case (Real(y), IntLit(m)) => y == m as real
    case (Real(y), RealLit(x)) => y == x
    case (Real(y), BoolLit(b)) => y == (if b then 1.0 else 0.0)
    case (TextValue(s), TextLit(t)) => s == t
    case _ => false
  }

  /** The first condition naming a column the table lacks: preparing the
      query fails with "no such column". */
  function MissingColumn(t: TN.Table, conds: seq<Condition>): (r: Option<string>)
    ensures r.Some? ==> r.value !in Columns(t)
    ensures r.None? <==> forall i :: 0 <= i < |conds| && conds[i].Equals? ==> conds[i].column in Columns(t)
  {
    if conds == [] then None
    else if conds[0].Equals? && conds[0].column !in Columns(t) then Some(conds[0].column)
    else
      var r := MissingColumn(t, conds[1..]);
      assert forall i :: 1 <= i < |conds| ==> conds[i] == conds[1..][i - 1];
      r
  }

  predicate Holds(c: Condition, r: ReceiverType) {
    match c
    case AlwaysTrue => true
    case Equals(col, l) =>
      match ColumnIndex(Columns(KindOf(r)), col)
      case Some(k) => Compare(EncodeRow(r)[k], l)
      case None => false
  }

  /** The WHERE clause: no conditions select every row; otherwise all of them
      (AND) or any of them (OR) must hold. */
  predicate Selected(r: ReceiverType, conds: seq<Condition>, assoc: Associativity) {
    if conds == [] then true
    else if assoc == And then forall i :: 0 <= i < |conds| ==> Holds(conds[i], r)
    else exists i :: 0 <= i < |conds| && Holds(conds[i], r)
  }

  function SelectWhere(rows: seq<ReceiverType>, conds: seq<Condition>, assoc: Associativity): (r: seq<ReceiverType>)
    ensures forall x :: x in r <==> x in rows && Selected(x, conds, assoc)
  {
    if rows == [] then []
    else (if Selected(rows[0], conds, assoc) then [rows[0]] else []) + SelectWhere(rows[1..], conds, assoc)
  }

  /** `SELECT * FROM t [WHERE ...]`: the matching records in table order, or
      the preparation error. */
  function SelectRecords(st: Store, t: TN.Table, conds: seq<Condition>, assoc: Associativity): Result<seq<ReceiverType>> {
    match MissingColumn(t, conds)
    case Some(col) => Err(StorageFailure(NoSuchColumn(col)))
    case None => Ok(SelectWhere(TableRows(st, t), conds, assoc))
  }

  function EncodeRows(rs: seq<ReceiverType>): (rows: seq<seq<Value>>)
    ensures |rows| == |rs|
    ensures forall i :: 0 <= i < |rs| ==> rows[i] == EncodeRow(rs[i])
  {
    seq(|rs|, i requires 0 <= i < |rs| => EncodeRow(rs[i]))
  }

  /** The cells a query yields. */
  function Select(st: Store, t: TN.Table, conds: seq<Condition>, assoc: Associativity): (r: Result<seq<seq<Value>>>)
    ensures r.Ok? <==> forall i :: 0 <= i < |conds| && conds[i].Equals? ==> conds[i].column in Columns(t)
    ensures r.Err? ==> r.error.StorageFailure? && r.error.store.NoSuchColumn? && r.error.store.column !in Columns(t)
  {
    match SelectRecords(st, t, conds, assoc)
    case Err(e) => Err(e)
    case Ok(rs) => Ok(EncodeRows(rs))
  }

  // ---------------------------------------------------------------------------
  // The connection

  /** `DatabaseConnection`: the open database, its tables as fields. */
  class DatabaseConnection {
    var users: seq<User>
    var studentAccounts: seq<StudentAccount>
    var teacherAccounts: seq<TeacherAccount>
    var courses: seq<Courses>
    var studentCourses: seq<StudentCourse>
    var departments: seq<Departments>
    var userSeq: int
    var studentAccountSeq: int
    var teacherAccountSeq: int
    var courseSeq: int
    var departmentSeq: int

    function State(): Store
      reads this
    {
      Store(users, studentAccounts, teacherAccounts, courses, studentCourses, departments,
            userSeq, studentAccountSeq, teacherAccountSeq, courseSeq, departmentSeq)
    }

    /** `new` followed by `create_tables`: opening the database file finds
        whatever it held (`persisted`); `CREATE TABLE IF NOT EXISTS` keeps it. */
    constructor (persisted: Store)
      ensures State() == persisted
    {
      users, studentAccounts, teacherAccounts := persisted.users, persisted.studentAccounts, persisted.teacherAccounts;
      courses, studentCourses, departments := persisted.courses, persisted.studentCourses, persisted.departments;
      userSeq, studentAccountSeq, teacherAccountSeq := persisted.userSeq, persisted.studentAccountSeq, persisted.teacherAccountSeq;
      courseSeq, departmentSeq := persisted.courseSeq, persisted.departmentSeq;
    }

    /** Runs one statement with its triggers. */
    method Execute(r: ReceiverType, a: Action) returns (res: Outcome)
      modifies this
      ensures Executed(State(), res) == Exec(old(State()), r, a)
    {
      match r
      case UserRow(u) => res := ExecuteUser(u, a);
      case StudentAccountRow(s) => res := ExecuteStudentAccount(s, a);
      case TeacherAccountRow(t) => res := ExecuteTeacherAccount(t, a);
      case CourseRow(c) =>
        match a {
          case Insert => courseSeq := courseSeq + 1; courses := courses + [c.(id := courseSeq)];
          case Update => courses := ReplaceWhere(courses, CourseRowId, c.id, c);
          case Delete => courses := RemoveWhere(courses, CourseRowId, c.id);
        }
        res := Pass;
      case StudentCourseRow(e) => res := ExecuteStudentCourse(e, a);
      case DepartmentRow(d) =>
        match a {
          case Insert => departmentSeq := departmentSeq + 1; departments := departments + [d.(id := departmentSeq)];
          case Update => departments := ReplaceWhere(departments, DepartmentId, d.id, d);
          case Delete => departments := RemoveWhere(departments, DepartmentId, d.id);
        }
        res := Pass;
    }

    method ExecuteUser(u: User, a: Action) returns (res: Outcome)
      modifies this
      ensures Executed(State(), res) == ExecUser(old(State()), u, a)
    {
      match a
      case Insert => res := ExecuteUserInsert(u);
      case Update => res := ExecuteUserUpdate(u);
      case Delete => res := ExecuteUserDelete(u.id);
    }

    method ExecuteUserInsert(u: User) returns (res: Outcome)
      modifies this
      ensures Executed(State(), res) == InsertUser(old(State()), u)
    {
      ghost var st := State();
      var id := userSeq + 1;
      if EmailTaken(users, u.email, id) {
        assert InsertUser(st, u) == Refuse(st, "USERS", "email");
        return Fail(StorageFailure(UniqueViolation("USERS", "email")));
      }
      ghost var st1 := st.(users := st.users + [u.(id := id)], userSeq := id);
      assert InsertUser(st, u) == Executed(AfterUserInsert(st1, id, u.role), Pass);
      users, userSeq := users + [u.(id := id)], id;
      assert State() == st1;
      OnUserInserted(id, u.role);
      res := Pass;
    }

    method ExecuteUserUpdate(u: User) returns (res: Outcome)
      modifies this
      ensures Executed(State(), res) == UpdateUser(old(State()), u)
    {
      var found := UserById(users, u.id);
      if found.None? {
        return Pass;
      }
      if EmailTaken(users, u.email, u.id) {
        return Fail(StorageFailure(UniqueViolation("USERS", "email")));
      }
      var row := if u.password == "" then u.(password := found.value.password) else u;
      users := ReplaceWhere(users, UserId, u.id, row);
      OnUserUpdated(u.id, u.role);
      res := Pass;
    }

    method ExecuteUserDelete(id: int) returns (res: Outcome)
      modifies this
      ensures Executed(State(), res) == DeleteUser(old(State()), id)
    {
      if HasKey(users, UserId, id) {
        users := RemoveWhere(users, UserId, id);
        OnUserDeleted(id);
      }
      res := Pass;
    }

    method ExecuteStudentAccount(s: StudentAccount, a: Action) returns (res: Outcome)
      modifies this
      ensures Executed(State(), res) == ExecStudentAccount(old(State()), s, a)
    {
      res := Pass;
      match a {
      case Insert =>
        var id := studentAccountSeq + 1;
        if StudentTaken(studentAccounts, s.studentId, id) {
          res := Fail(StorageFailure(UniqueViolation("STUDENT_ACCOUNT", "student_id")));
        } else {
          studentAccounts, studentAccountSeq := studentAccounts + [s.(id := id)], id;
        }
      case Update =>
        if HasKey(studentAccounts, AccountId, s.id) {
          if StudentTaken(studentAccounts, s.studentId, s.id) {
            res := Fail(StorageFailure(UniqueViolation("STUDENT_ACCOUNT", "student_id")));
          } else {
            studentAccounts := ReplaceWhere(studentAccounts, AccountId, s.id, s);
          }
        }
      case Delete =>
        studentAccounts := RemoveWhere(studentAccounts, AccountId, s.id);
      }
    }

    method ExecuteTeacherAccount(t: TeacherAccount, a: Action) returns (res: Outcome)
      modifies this
      ensures Executed(State(), res) == ExecTeacherAccount(old(State()), t, a)
    {
      res := Pass;
      match a {
      case Insert =>
        var id := teacherAccountSeq + 1;
        if TeacherTaken(teacherAccounts, t.teacherId, id) {
          res := Fail(StorageFailure(UniqueViolation("TEACHER_ACCOUNT", "teacher_id")));
        } else {
          teacherAccounts, teacherAccountSeq := teacherAccounts + [t.(id := id)], id;
        }
      case Update =>
        if HasKey(teacherAccounts, TeacherAccountId, t.id) {
          if TeacherTaken(teacherAccounts, t.teacherId, t.id) {
            res := Fail(StorageFailure(UniqueViolation("TEACHER_ACCOUNT", "teacher_id")));
          } else {
            teacherAccounts := ReplaceWhere(teacherAccounts, TeacherAccountId, t.id, t);
          }
        }
      case Delete =>
        teacherAccounts := RemoveWhere(teacherAccounts, TeacherAccountId, t.id);
      }
    }

    method ExecuteStudentCourse(e: StudentCourse, a: Action) returns (res: Outcome)
      modifies this
      ensures Executed(State(), res) == ExecStudentCourse(old(State()), e, a)
    {
      var key := EnrolmentKey(e);
      var touched := a == Insert || HasKey(studentCourses, EnrolmentKey, key);
      match a {
        case Insert => studentCourses := studentCourses + [e];
        case Update => studentCourses := ReplaceWhere(studentCourses, EnrolmentKey, key, e);
        case Delete => studentCourses := RemoveWhere(studentCourses, EnrolmentKey, key);
      }
      if touched {
        OnEnrolmentChanged(e.studentId);
      }
      res := Pass;
    }

    /** The AFTER INSERT triggers on USERS. */
    method OnUserInserted(uid: int, role: string)
      modifies this
      ensures State() == AfterUserInsert(old(State()), uid, role)
    {
      if role == "student" {
        ProvisionStudentAccount(uid);
        teacherAccounts := RemoveWhere(teacherAccounts, AccountTeacher, uid);
      } else if role == "teacher" {
        ProvisionTeacherAccount(uid);
        studentAccounts := RemoveWhere(studentAccounts, AccountStudent, uid);
      } else if role == "admin" {
        studentAccounts := RemoveWhere(studentAccounts, AccountStudent, uid);
        teacherAccounts := RemoveWhere(teacherAccounts, AccountTeacher, uid);
      }
    }

    /** The AFTER UPDATE triggers on USERS. */
    method OnUserUpdated(uid: int, role: string)
      modifies this
      ensures State() == AfterUserUpdate(old(State()), uid, role)
    {
      if role == "student" {
        ProvisionStudentAccount(uid);
        teacherAccounts := RemoveWhere(teacherAccounts, AccountTeacher, uid);
      } else if role == "teacher" {
        ProvisionTeacherAccount(uid);
        studentAccounts := RemoveWhere(studentAccounts, AccountStudent, uid);
      }
    }

    /** `clear_accounts_on_delete`. */
    method OnUserDeleted(uid: int)
      modifies this
      ensures State() == AfterUserDelete(old(State()), uid)
    {
      studentAccounts := RemoveWhere(studentAccounts, AccountStudent, uid);
      teacherAccounts := RemoveWhere(teacherAccounts, AccountTeacher, uid);
    }

    method ProvisionStudentAccount(uid: int)
      modifies this
      ensures State() == ProvisionStudent(old(State()), uid)
    {
      studentAccountSeq := studentAccountSeq + 1;
      studentAccounts := RemoveWhere(studentAccounts, AccountStudent, uid)
                         + [DefaultStudentAccount(studentAccountSeq, uid)];
    }

    method ProvisionTeacherAccount(uid: int)
      modifies this
      ensures State() == ProvisionTeacher(old(State()), uid)
    {
      teacherAccountSeq := teacherAccountSeq + 1;
      teacherAccounts := RemoveWhere(teacherAccounts, AccountTeacher, uid)
                         + [TeacherAccount(teacherAccountSeq, uid, 0)];
    }

    /** The `update_student_cgpa_*` triggers. */
    method OnEnrolmentChanged(sid: int)
      modifies this
      ensures State() == RecomputeStanding(old(State()), sid)
    {
      var cgpa := CgpaOf(State(), sid);
      var canGrad := CanGraduate(State(), sid);
      var accounts := studentAccounts;
      var i := 0;
      while i < |accounts|
        invariant 0 <= i <= |accounts|
        invariant |accounts| == |studentAccounts|
        invariant forall k :: 0 <= k < |accounts| ==>
          accounts[k] == (if k < i && studentAccounts[k].id == sid
                          then studentAccounts[k].(cgpa := cgpa, canGrad := canGrad)
                          else studentAccounts[k])
      {
        if accounts[i].id == sid {
          accounts := accounts[i := accounts[i].(cgpa := cgpa, canGrad := canGrad)];
        }
        i := i + 1;
      }
      studentAccounts := accounts;
    }

    /** Preparing and running a query; the rows come back in table order. */
    method Query(t: TN.Table, conds: seq<Condition>, assoc: Associativity) returns (rows: Result<seq<seq<Value>>>)
      ensures rows == Select(State(), t, conds, assoc)
    {
      rows := Select(State(), t, conds, assoc);
    }
  }

  // ---------------------------------------------------------------------------
  // What the statements and triggers guarantee

  lemma ProvisionStudentValid(st: Store, uid: int)
    requires Valid(st)
    ensures Valid(ProvisionStudent(st, uid))
  {
    var kept := RemoveWhere(st.studentAccounts, AccountStudent, uid);
    var row := DefaultStudentAccount(st.studentAccountSeq + 1, uid);
    RemoveWhereDistinct(st.studentAccounts, AccountStudent, uid, AccountId);
    RemoveWhereDistinct(st.studentAccounts, AccountStudent, uid, AccountStudent);
    AppendAtMost(kept, row, AccountId, st.studentAccountSeq);
    AppendDistinct(kept, row, AccountId);
    AppendDistinct(kept, row, AccountStudent);
  }

  lemma ProvisionTeacherValid(st: Store, uid: int)
    requires Valid(st)
    ensures Valid(ProvisionTeacher(st, uid))
  {
    var kept := RemoveWhere(st.teacherAccounts, AccountTeacher, uid);
    var row := TeacherAccount(st.teacherAccountSeq + 1, uid, 0);
    RemoveWhereDistinct(st.teacherAccounts, AccountTeacher, uid, TeacherAccountId);
    RemoveWhereDistinct(st.teacherAccounts, AccountTeacher, uid, AccountTeacher);
    AppendAtMost(kept, row, TeacherAccountId, st.teacherAccountSeq);
    AppendDistinct(kept, row, TeacherAccountId);
    AppendDistinct(kept, row, AccountTeacher);
  }

  lemma DropAccountsValid(st: Store, uid: int)
    requires Valid(st)
    ensures Valid(DropStudentAccount(st, uid)) && Valid(DropTeacherAccount(st, uid))
  {
    RemoveWhereDistinct(st.studentAccounts, AccountStudent, uid, AccountId);
    RemoveWhereDistinct(st.studentAccounts, AccountStudent, uid, AccountStudent);
    RemoveWhereDistinct(st.teacherAccounts, AccountTeacher, uid, TeacherAccountId);
    RemoveWhereDistinct(st.teacherAccounts, AccountTeacher, uid, AccountTeacher);
  }

  lemma AfterUserWriteValid(st: Store, uid: int, role: string)
    requires Valid(st)
    ensures Valid(AfterUserInsert(st, uid, role))
    ensures Valid(AfterUserUpdate(st, uid, role))
    ensures Valid(AfterUserDelete(st, uid))
  {
    DropAccountsValid(st, uid);
    DropAccountsValid(DropStudentAccount(st, uid), uid);
    if role == "student" {
      ProvisionStudentValid(st, uid);
      DropAccountsValid(ProvisionStudent(st, uid), uid);
    } else if role == "teacher" {
      ProvisionTeacherValid(st, uid);
      DropAccountsValid(ProvisionTeacher(st, uid), uid);
    }
  }

  lemma RecomputeStandingValid(st: Store, sid: int)
    requires Valid(st)
    ensures Valid(RecomputeStanding(st, sid))
  {
    var st1 := RecomputeStanding(st, sid);
    assert forall i :: 0 <= i < |st.studentAccounts| ==>
      st1.studentAccounts[i].id == st.studentAccounts[i].id
      && st1.studentAccounts[i].studentId == st.studentAccounts[i].studentId;
    forall x | x in st1.studentAccounts
      ensures AccountId(x) <= st1.studentAccountSeq
    {
      var i :| 0 <= i < |st1.studentAccounts| && st1.studentAccounts[i] == x;
      assert st.studentAccounts[i] in st.studentAccounts;
    }
  }

  lemma UserStatementValid(st: Store, u: User, a: Action)
    requires Valid(st)
    ensures Valid(ExecUser(st, u, a).store)
  {
    match a
    case Insert => InsertUserValid(st, u);
    case Update => UpdateUserValid(st, u);
    case Delete => DeleteUserValid(st, u.id);
  }

  lemma InsertUserValid(st: Store, u: User)
    requires Valid(st)
    ensures Valid(InsertUser(st, u).store)
  {
    var id := st.userSeq + 1;
    if !EmailTaken(st.users, u.email, id) {
      var row := u.(id := id);
      AppendAtMost(st.users, row, UserId, st.userSeq);
      AppendDistinct(st.users, row, UserId);
      forall x | x in st.users
        ensures UserEmail(x) != UserEmail(row)
      {
        var i :| 0 <= i < |st.users| && st.users[i] == x;
      }
      AppendDistinct(st.users, row, UserEmail);
      assert UsersValid(st.users + [row], id);
      var st1 := st.(users := st.users + [row], userSeq := id);
      AfterUserWriteValid(st1, id, u.role);
    }
  }

  lemma UpdateUserValid(st: Store, u: User)
    requires Valid(st)
    ensures Valid(UpdateUser(st, u).store)
  {
    var found := UserById(st.users, u.id);
    if found.Some? && !EmailTaken(st.users, u.email, u.id) {
      var row := if u.password == "" then u.(password := found.value.password) else u;
      var users := ReplaceWhere(st.users, UserId, u.id, row);
      ReplaceWhereDistinct(st.users, UserId, u.id, row, UserId);
      ReplaceWhereDistinct(st.users, UserId, u.id, row, UserEmail);
      assert found.value in st.users;
      ReplaceWhereAtMost(st.users, UserId, u.id, row, UserId, st.userSeq);
      assert UsersValid(users, st.userSeq);
      AfterUserWriteValid(st.(users := users), u.id, u.role);
    }
  }

  lemma DeleteUserValid(st: Store, id: int)
    requires Valid(st)
    ensures Valid(DeleteUser(st, id).store)
  {
    if HasKey(st.users, UserId, id) {
      var users := RemoveWhere(st.users, UserId, id);
      RemoveWhereDistinct(st.users, UserId, id, UserId);
      RemoveWhereDistinct(st.users, UserId, id, UserEmail);
      assert UsersValid(users, st.userSeq);
      AfterUserWriteValid(st.(users := users), id, "");
    }
  }

  lemma AccountStatementValid(st: Store, r: ReceiverType, a: Action)
    requires Valid(st)
    requires r.StudentAccountRow? || r.TeacherAccountRow?
    ensures Valid(Exec(st, r, a).store)
  {
    if r.StudentAccountRow? {
      StudentAccountStatementValid(st, r.account, a);
    } else {
      TeacherAccountStatementValid(st, r.teacher, a);
    }
  }

  lemma StudentAccountStatementValid(st: Store, s: StudentAccount, a: Action)
    requires Valid(st)
    ensures Valid(Exec(st, StudentAccountRow(s), a).store)
  {
    match a {
    case Insert =>
      var row := s.(id := st.studentAccountSeq + 1);
      if !StudentTaken(st.studentAccounts, s.studentId, row.id) {
        AppendAtMost(st.studentAccounts, row, AccountId, st.studentAccountSeq);
        AppendDistinct(st.studentAccounts, row, AccountId);
        forall x | x in st.studentAccounts
          ensures AccountStudent(x) != AccountStudent(row)
        {
          var i :| 0 <= i < |st.studentAccounts| && st.studentAccounts[i] == x;
        }
        AppendDistinct(st.studentAccounts, row, AccountStudent);
      }
    case Update =>
      if HasKey(st.studentAccounts, AccountId, s.id) && !StudentTaken(st.studentAccounts, s.studentId, s.id) {
        ReplaceWhereDistinct(st.studentAccounts, AccountId, s.id, s, AccountId);
        ReplaceWhereDistinct(st.studentAccounts, AccountId, s.id, s, AccountStudent);
        var i :| 0 <= i < |st.studentAccounts| && AccountId(st.studentAccounts[i]) == s.id;
        assert st.studentAccounts[i] in st.studentAccounts;
        ReplaceWhereAtMost(st.studentAccounts, AccountId, s.id, s, AccountId, st.studentAccountSeq);
      }
    case Delete =>
      RemoveWhereDistinct(st.studentAccounts, AccountId, s.id, AccountId);
      RemoveWhereDistinct(st.studentAccounts, AccountId, s.id, AccountStudent);
    }
  }

  lemma TeacherAccountStatementValid(st: Store, t: TeacherAccount, a: Action)
    requires Valid(st)
    ensures Valid(Exec(st, TeacherAccountRow(t), a).store)
  {
    match a {
    case Insert =>
      var row := t.(id := st.teacherAccountSeq + 1);
      if !TeacherTaken(st.teacherAccounts, t.teacherId, row.id) {
        AppendAtMost(st.teacherAccounts, row, TeacherAccountId, st.teacherAccountSeq);
        AppendDistinct(st.teacherAccounts, row, TeacherAccountId);
        forall x | x in st.teacherAccounts
          ensures AccountTeacher(x) != AccountTeacher(row)
        {
          var i :| 0 <= i < |st.teacherAccounts| && st.teacherAccounts[i] == x;
        }
        AppendDistinct(st.teacherAccounts, row, AccountTeacher);
      }
    case Update =>
      if HasKey(st.teacherAccounts, TeacherAccountId, t.id) && !TeacherTaken(st.teacherAccounts, t.teacherId, t.id) {
        ReplaceWhereDistinct(st.teacherAccounts, TeacherAccountId, t.id, t, TeacherAccountId);
        ReplaceWhereDistinct(st.teacherAccounts, TeacherAccountId, t.id, t, AccountTeacher);
        var i :| 0 <= i < |st.teacherAccounts| && TeacherAccountId(st.teacherAccounts[i]) == t.id;
        assert st.teacherAccounts[i] in st.teacherAccounts;
        ReplaceWhereAtMost(st.teacherAccounts, TeacherAccountId, t.id, t, TeacherAccountId, st.teacherAccountSeq);
      }
    case Delete =>
      RemoveWhereDistinct(st.teacherAccounts, TeacherAccountId, t.id, TeacherAccountId);
      RemoveWhereDistinct(st.teacherAccounts, TeacherAccountId, t.id, AccountTeacher);
    }
  }

  lemma OtherStatementValid(st: Store, r: ReceiverType, a: Action)
    requires Valid(st)
    requires r.CourseRow? || r.StudentCourseRow? || r.DepartmentRow?
    ensures Valid(Exec(st, r, a).store)
  {
    match r
    case CourseRow(c) =>
      match a {
      case Insert =>
        AppendAtMost(st.courses, c.(id := st.courseSeq + 1), CourseRowId, st.courseSeq);
        AppendDistinct(st.courses, c.(id := st.courseSeq + 1), CourseRowId);
      case Update =>
        ReplaceWhereDistinct(st.courses, CourseRowId, c.id, c, CourseRowId);
        ReplaceWhereAtMost(st.courses, CourseRowId, c.id, c, CourseRowId, st.courseSeq);
      case Delete =>
        RemoveWhereDistinct(st.courses, CourseRowId, c.id, CourseRowId);
      }
    case DepartmentRow(d) =>
      match a {
      case Insert =>
        AppendAtMost(st.departments, d.(id := st.departmentSeq + 1), DepartmentId, st.departmentSeq);
        AppendDistinct(st.departments, d.(id := st.departmentSeq + 1), DepartmentId);
      case Update =>
        ReplaceWhereDistinct(st.departments, DepartmentId, d.id, d, DepartmentId);
        ReplaceWhereAtMost(st.departments, DepartmentId, d.id, d, DepartmentId, st.departmentSeq);
      case Delete =>
        RemoveWhereDistinct(st.departments, DepartmentId, d.id, DepartmentId);
      }
    case StudentCourseRow(e) =>
      var key := EnrolmentKey(e);
      var st1 := match a
        case Insert => st.(studentCourses := st.studentCourses + [e])
        case Update => st.(studentCourses := ReplaceWhere(st.studentCourses, EnrolmentKey, key, e))
        case Delete => st.(studentCourses := RemoveWhere(st.studentCourses, EnrolmentKey, key));
      assert Valid(st1);
      RecomputeStandingValid(st1, e.studentId);
  }

  /** Every statement keeps the declared constraints: unique ids below their
      counters, unique email, one student account per student and one teacher
      account per teacher. A statement that would break one is refused. */
  lemma ExecPreservesValid(st: Store, r: ReceiverType, a: Action)
    requires Valid(st)
    ensures Valid(Exec(st, r, a).store)
  {
    match r
    case UserRow(u) => UserStatementValid(st, u, a);
    case StudentAccountRow(_) => AccountStatementValid(st, r, a);
    case TeacherAccountRow(_) => AccountStatementValid(st, r, a);
    case _ => OtherStatementValid(st, r, a);
  }

  // ---------------------------------------------------------------------------
  // What the USERS triggers leave behind

  /** A user inserted with role 'student' ends with exactly one student
      account, the default row under the next account id, and no teacher
      account; every other user's accounts are kept. An update to role
      'student' does the same, resetting an existing account. */
  lemma StudentRoleProvisions(st: Store, uid: int)
    ensures var s := AfterUserInsert(st, uid, "student");
      && DefaultStudentAccount(st.studentAccountSeq + 1, uid) in s.studentAccounts
      && (forall a :: a in s.studentAccounts && a.studentId == uid ==>
            a == DefaultStudentAccount(st.studentAccountSeq + 1, uid))
      && (forall t :: t in s.teacherAccounts ==> t.teacherId != uid)
      && (forall a: StudentAccount :: a.studentId != uid ==> (a in s.studentAccounts <==> a in st.studentAccounts))
      && (forall t: TeacherAccount :: t.teacherId != uid ==> (t in s.teacherAccounts <==> t in st.teacherAccounts))
      && s.users == st.users && s.studentCourses == st.studentCourses
      && AfterUserUpdate(st, uid, "student") == s
  {
  }

  lemma TeacherRoleProvisions(st: Store, uid: int)
    ensures var s := AfterUserInsert(st, uid, "teacher");
      && TeacherAccount(st.teacherAccountSeq + 1, uid, 0) in s.teacherAccounts
      && (forall t :: t in s.teacherAccounts && t.teacherId == uid ==>
            t == TeacherAccount(st.teacherAccountSeq + 1, uid, 0))
      && (forall a :: a in s.studentAccounts ==> a.studentId != uid)
      && (forall a: StudentAccount :: a.studentId != uid ==> (a in s.studentAccounts <==> a in st.studentAccounts))
      && (forall t: TeacherAccount :: t.teacherId != uid ==> (t in s.teacherAccounts <==> t in st.teacherAccounts))
      && s.users == st.users && s.studentCourses == st.studentCourses
      && AfterUserUpdate(st, uid, "teacher") == s
  {
  }

  /** Inserting an admin removes any account keyed by its id; updating a user
      to 'admin' (or any role other than 'student' and 'teacher') fires
      nothing, so the old accounts stay. */
  lemma AdminRoleTriggers(st: Store, uid: int, role: string)
    requires role != "student" && role != "teacher"
    ensures role == "admin" ==>
      && (forall a :: a in AfterUserInsert(st, uid, role).studentAccounts <==>
            a in st.studentAccounts && a.studentId != uid)
      && (forall t :: t in AfterUserInsert(st, uid, role).teacherAccounts <==>
            t in st.teacherAccounts && t.teacherId != uid)
    ensures role != "admin" ==> AfterUserInsert(st, uid, role) == st
    ensures AfterUserUpdate(st, uid, role) == st
  {
  }

  /** Deleting a user leaves no account keyed by its id. */
  lemma DeleteClearsAccounts(st: Store, uid: int)
    ensures forall a :: a in AfterUserDelete(st, uid).studentAccounts <==>
      a in st.studentAccounts && a.studentId != uid
    ensures forall t :: t in AfterUserDelete(st, uid).teacherAccounts <==>
      t in st.teacherAccounts && t.teacherId != uid
  {
  }

  /** A new user takes the next AUTOINCREMENT id, which no stored user has,
      goes to the end of the table, and the statement is refused exactly when
      another user already has the email. */
  lemma InsertUserTakesFreshId(st: Store, u: User)
    requires Valid(st)
    ensures var ex := InsertUser(st, u);
      && (ex.outcome.Pass? <==> forall x :: x in st.users ==> x.email != u.email)
      && (ex.outcome.Pass? ==>
            && ex.store.users == st.users + [u.(id := st.userSeq + 1)]
            && ex.store.userSeq == st.userSeq + 1
            && forall x :: x in st.users ==> x.id != st.userSeq + 1)
      && (ex.outcome.Fail? ==> ex.store == st)
  {
    var id := st.userSeq + 1;
    assert AtMost(st.users, UserId, st.userSeq);
    if EmailTaken(st.users, u.email, id) {
      var i :| 0 <= i < |st.users| && st.users[i].email == u.email && st.users[i].id != id;
      assert st.users[i] in st.users;
    } else {
      forall x | x in st.users
        ensures x.email != u.email
      {
        var i :| 0 <= i < |st.users| && st.users[i] == x;
      }
    }
  }

  /** The INSERT statements leave the id out, so what the record carries there
      does not matter. */
  lemma InsertIgnoresId(st: Store, r: ReceiverType, id: int)
    ensures Exec(st, WithId(r, id), Insert) == Exec(st, r, Insert)
  {
  }

  /** An update of a missing user changes nothing; an update keeps the stored
      password when the record's password is empty. */
  lemma UpdateUserKeepsPassword(st: Store, u: User)
    requires Valid(st)
    ensures !HasKey(st.users, UserId, u.id) ==> UpdateUser(st, u) == Executed(st, Pass)
    ensures UpdateUser(st, u).outcome.Pass? && HasKey(st.users, UserId, u.id) ==>
      forall x :: x in UpdateUser(st, u).store.users && x.id == u.id ==>
        x.email == u.email && x.role == u.role &&
        (u.password != "" ==> x.password == u.password) &&
        (u.password == "" ==> exists y :: y in st.users && y.id == u.id && x.password == y.password)
  {
    match UserById(st.users, u.id)
    case None =>
    case Some(stored) =>
      if !EmailTaken(st.users, u.email, u.id) {
        var row := if u.password == "" then u.(password := stored.password) else u;
        var users := ReplaceWhere(st.users, UserId, u.id, row);
        assert UpdateUser(st, u).store.users == users;
        forall x | x in users && x.id == u.id
          ensures x == row
        {
          var i :| 0 <= i < |users| && users[i] == x;
        }
      }
  }

  /** STUDENT_COURSES has no key: the same enrolment may be inserted twice. */
  lemma EnrolmentsMayRepeat(st: Store, e: StudentCourse)
    ensures var ex := ExecStudentCourse(st, e, Insert);
      ex.outcome.Pass? && ex.store.studentCourses == st.studentCourses + [e]
  {
  }

  // ---------------------------------------------------------------------------
  // Standing

  /** One enrolment's points are its grade times its credits, both zero while
      the grade is unset (negative). */
  lemma {:induction false} PointsAreGradeTimesCredits(grade: real, costs: seq<int>)
    ensures PointsOf(grade, costs) == (if grade < 0.0 then 0.0 else grade * CreditsOf(grade, costs) as real)
  {
    if costs != [] && grade >= 0.0 {
      PointsAreGradeTimesCredits(grade, costs[1..]);
      var c, rest := costs[0] as real, CreditsOf(grade, costs[1..]) as real;
      assert grade * (c + rest) == grade * c + grade * rest;
    }
  }

  predicate CostsNonNegative(courses: seq<Courses>) {
    forall i :: 0 <= i < |courses| ==> courses[i].crCost >= 0
  }

  predicate GradesAtMost(scs: seq<StudentCourse>, top: real) {
    forall i :: 0 <= i < |scs| ==> scs[i].grade <= top
  }

  lemma {:induction false} CostsOfNonNegative(courses: seq<Courses>, cid: int)
    requires CostsNonNegative(courses)
    ensures forall i :: 0 <= i < |CostsOf(courses, cid)| ==> CostsOf(courses, cid)[i] >= 0
  {
    if courses != [] {
      assert CostsNonNegative(courses[1..]) by {
        forall i | 0 <= i < |courses[1..]| ensures courses[1..][i].crCost >= 0 {
          assert courses[1..][i] == courses[i + 1];
        }
      }
      CostsOfNonNegative(courses[1..], cid);
    }
  }

  lemma {:induction false} CreditsOfNonNegative(grade: real, costs: seq<int>)
    requires forall i :: 0 <= i < |costs| ==> costs[i] >= 0
    ensures CreditsOf(grade, costs) >= 0
  {
    if costs != [] && grade >= 0.0 {
      CreditsOfNonNegative(grade, costs[1..]);
    }
  }

  lemma ScaleMonotone(x: real, y: real, c: real)
    requires x <= y && 0.0 <= c
    ensures x * c <= y * c
  {
    assert y * c - x * c == (y - x) * c;
  }

  /** One enrolment row of the student: its credits are never negative and
      its points lie between 0 and the top grade times its credits. */
  lemma RowStandingBounded(e: StudentCourse, courses: seq<Courses>, top: real)
    requires CostsNonNegative(courses) && e.grade <= top
    ensures CreditsOf(e.grade, CostsOf(courses, e.courseId)) >= 0
    ensures 0.0 <= PointsOf(e.grade, CostsOf(courses, e.courseId))
                <= top * CreditsOf(e.grade, CostsOf(courses, e.courseId)) as real
  {
    var costs := CostsOf(courses, e.courseId);
    CostsOfNonNegative(courses, e.courseId);
    CreditsOfNonNegative(e.grade, costs);
    PointsAreGradeTimesCredits(e.grade, costs);
    var c := CreditsOf(e.grade, costs) as real;
    if e.grade >= 0.0 {
      ScaleMonotone(0.0, e.grade, c);
      ScaleMonotone(e.grade, top, c);
    } else {
      assert CreditsOf(e.grade, costs) == 0;
    }
  }

  /** Over a student's enrolments the graded credits are never negative and
      the grade points lie between 0 and the top grade times the credits. */
  lemma {:induction false} StandingSumsBounded(scs: seq<StudentCourse>, courses: seq<Courses>, sid: int, top: real)
    requires CostsNonNegative(courses) && GradesAtMost(scs, top)
    ensures GradedCredits(scs, courses, sid) >= 0
    ensures 0.0 <= GradePoints(scs, courses, sid) <= top * GradedCredits(scs, courses, sid) as real
  {
    if scs != [] {
      assert GradesAtMost(scs[1..], top) by {
        forall i | 0 <= i < |scs[1..]| ensures scs[1..][i].grade <= top {
          assert scs[1..][i] == scs[i + 1];
        }
      }
      StandingSumsBounded(scs[1..], courses, sid, top);
      if scs[0].studentId == sid {
        var e := scs[0];
        RowStandingBounded(e, courses, top);
        var c := CreditsOf(e.grade, CostsOf(courses, e.courseId)) as real;
        var restC := GradedCredits(scs[1..], courses, sid) as real;
        assert top * (c + restC) == top * c + top * restC;
      }
    }
  }

  /** The recorded cgpa is the weighted mean of the set grades, so it lies
      between 0 and the top grade. */
  lemma CgpaWithinGrades(st: Store, sid: int, top: real)
    requires CostsNonNegative(st.courses) && GradesAtMost(st.studentCourses, top)
    ensures 0.0 <= CgpaOf(st, sid)
    ensures 0.0 <= top ==> CgpaOf(st, sid) <= top
  {
    StandingSumsBounded(st.studentCourses, st.courses, sid, top);
    var credits := GradedCredits(st.studentCourses, st.courses, sid) as real;
    var points := GradePoints(st.studentCourses, st.courses, sid);
    if credits != 0.0 {
      DivAtMost(points, credits, top);
    }
  }

  lemma DivAtMost(p: real, c: real, t: real)
    requires c > 0.0 && p <= t * c
    ensures p / c <= t
  {
    var q := p / c;
    assert q * c == p;
    if q > t {
      assert (q - t) * c > 0.0;
    }
  }

  /** The standing triggers write the student's cgpa and can_grad, computed
      over the tables they leave behind, into the account whose id equals
      `sid`, and change nothing else. */
  lemma RecomputeStandingWrites(st: Store, sid: int)
    ensures var s := RecomputeStanding(st, sid);
      && s == st.(studentAccounts := s.studentAccounts)
      && |s.studentAccounts| == |st.studentAccounts|
      && forall i :: 0 <= i < |s.studentAccounts| ==>
           s.studentAccounts[i] ==
             if st.studentAccounts[i].id != sid then st.studentAccounts[i]
             else st.studentAccounts[i].(cgpa := CgpaOf(s, sid),
                                         canGrad := GradedCredits(s.studentCourses, s.courses, sid) >= 120)
  {
    var s := RecomputeStanding(st, sid);
    assert CgpaOf(s, sid) == CgpaOf(st, sid);
  }

  /** Every enrolment INSERT, UPDATE and DELETE succeeds (with the intended
      can_grad sum). An INSERT, and an UPDATE or DELETE that matched its
      (student_id, course_id) key, fires the trigger: the account whose id
      equals the student id then carries the cgpa and can_grad over the new
      table. Every other account, and every other table, is as it was. */
  lemma EnrolmentWriteRecordsStanding(st: Store, e: StudentCourse, a: Action)
    ensures var ex := ExecStudentCourse(st, e, a);
      var s := ex.store;
      var fires := a == Insert || HasKey(st.studentCourses, EnrolmentKey, EnrolmentKey(e));
      && ex.outcome == Pass
      && s == st.(studentCourses := s.studentCourses, studentAccounts := s.studentAccounts)
      && (a == Insert ==> s.studentCourses == st.studentCourses + [e])
      && (a == Update ==> s.studentCourses == ReplaceWhere(st.studentCourses, EnrolmentKey, EnrolmentKey(e), e))
      && (a == Delete ==> s.studentCourses == RemoveWhere(st.studentCourses, EnrolmentKey, EnrolmentKey(e)))
      && |s.studentAccounts| == |st.studentAccounts|
      && forall i :: 0 <= i < |s.studentAccounts| ==>
           s.studentAccounts[i] ==
             if !fires || st.studentAccounts[i].id != e.studentId then st.studentAccounts[i]
             else st.studentAccounts[i].(cgpa := CgpaOf(s, e.studentId),
                                         canGrad := GradedCredits(s.studentCourses, s.courses, e.studentId) >= 120)
  {
    var key := EnrolmentKey(e);
    match a
    case Insert =>
      RecomputeStandingWrites(st.(studentCourses := st.studentCourses + [e]), e.studentId);
    case Update =>
      RecomputeStandingWrites(st.(studentCourses := ReplaceWhere(st.studentCourses, EnrolmentKey, key, e)), e.studentId);
    case Delete =>
      RecomputeStandingWrites(st.(studentCourses := RemoveWhere(st.studentCourses, EnrolmentKey, key)), e.studentId);
  }

  /** Both sums add up over a split of the enrolment table. */
  lemma {:induction false} StandingSumsSplit(xs: seq<StudentCourse>, ys: seq<StudentCourse>, courses: seq<Courses>, sid: int)
    ensures GradedCredits(xs + ys, courses, sid) == GradedCredits(xs, courses, sid) + GradedCredits(ys, courses, sid)
    ensures GradePoints(xs + ys, courses, sid) == GradePoints(xs, courses, sid) + GradePoints(ys, courses, sid)
  {
    if xs == [] {
      assert xs + ys == ys;
    } else {
      assert (xs + ys)[0] == xs[0];
      assert (xs + ys)[1..] == xs[1..] + ys;
      StandingSumsSplit(xs[1..], ys, courses, sid);
    }
  }

  /** A row whose grade is not set (below zero, as a fresh enrolment's -1)
      adds neither credits nor points, so recording it leaves every
      student's cgpa and can_grad as they were. */
  lemma UngradedRowCountsNothing(st: Store, e: StudentCourse, sid: int)
    requires e.grade < 0.0
    ensures GradedCredits(st.studentCourses + [e], st.courses, sid) == GradedCredits(st.studentCourses, st.courses, sid)
    ensures GradePoints(st.studentCourses + [e], st.courses, sid) == GradePoints(st.studentCourses, st.courses, sid)
    ensures CgpaOf(st.(studentCourses := st.studentCourses + [e]), sid) == CgpaOf(st, sid)
    ensures CanGraduate(st.(studentCourses := st.studentCourses + [e]), sid) == CanGraduate(st, sid)
  {
    StandingSumsSplit(st.studentCourses, [e], st.courses, sid);
    var costs := CostsOf(st.courses, e.courseId);
    assert CreditsOf(e.grade, costs) == 0 && PointsOf(e.grade, costs) == 0.0;
    assert [e][1..] == [];
    assert GradedCredits([e], st.courses, sid) == 0;
    assert GradePoints([e], st.courses, sid) == 0.0;
  }

  /** When no account's id is the student's user id, no enrolment write
      reaches any account, whatever account the student owns. */
  lemma StandingNeedsMatchingAccountId(st: Store, e: StudentCourse, a: Action)
    requires forall i :: 0 <= i < |st.studentAccounts| ==> st.studentAccounts[i].id != e.studentId
    ensures ExecStudentCourse(st, e, a).store.studentAccounts == st.studentAccounts
  {
  }

  /** The standing lands on the account whose id equals the student's user
      id, not on the student's own account: here user 7's account has id 1,
      so after a graded enrolment the cgpa over the table is 3.5 while the
      account keeps 0.0. */
  lemma StandingMissesOwnAccount()
    ensures var st := EmptyStore.(studentAccounts := [DefaultStudentAccount(1, 7)], studentAccountSeq := 1,
                                  courses := [Courses(3, 2, "Algebra", "M101", "", 4, "")], courseSeq := 3);
      var s := ExecStudentCourse(st, StudentCourse(7, 3, 3.5, "F24"), Insert).store;
      CgpaOf(s, 7) == 3.5 && s.studentAccounts == st.studentAccounts && s.studentAccounts[0].cgpa == 0.0
  {
    var st := EmptyStore.(studentAccounts := [DefaultStudentAccount(1, 7)], studentAccountSeq := 1,
                          courses := [Courses(3, 2, "Algebra", "M101", "", 4, "")], courseSeq := 3);
    var e := StudentCourse(7, 3, 3.5, "F24");
    var scs := [e];
    assert CostsOf(st.courses, 3) == [4];
    assert CreditsOf(3.5, [4]) == 4;
    assert PointsOf(3.5, [4]) == 14.0;
    assert GradedCredits(scs, st.courses, 7) == 4;
    assert GradePoints(scs, st.courses, 7) == 14.0;
    var st1 := st.(studentCourses := scs);
    assert CgpaOf(st1, 7) == 3.5;
    var s := RecomputeStanding(st1, 7);
    assert s.studentAccounts[0] == st.studentAccounts[0];
    assert s.studentAccounts == st.studentAccounts;
    assert CgpaOf(s, 7) == 3.5;
    assert st.studentCourses + [e] == scs;
    assert ExecStudentCourse(st, e, Insert).store == s;
  }

  // ---------------------------------------------------------------------------
  // The can_grad sum as written

  /** The numeric value SQLite gives a text value in arithmetic: the value of
      its longest leading run of decimal digits, 0 when there is none. */
  function TextAsNumber(t: string): nat {
    if t == [] || !('0' <= t[0] <= '9') then 0
    else DigitRun(t, 0, 0)
  }

  function DigitRun(t: string, i: nat, acc: nat): nat
    requires i <= |t|
    decreases |t| - i
  {
    if i == |t| || !('0' <= t[i] <= '9') then acc
    else DigitRun(t, i + 1, acc * 10 + (t[i] as int - '0' as int))
  }

  /** The can_grad sum as the triggers write it:
      SUM(CASE WHEN "grade" >= 0 THEN "cr_cost" ELSE 0 END) over
      STUDENT_COURSES alone, with no join. "cr_cost" names no column of that
      table, and SQLite's default build reads a double-quoted name that
      resolves to nothing as a string literal, so each graded row adds the
      text 'cr_cost'; COALESCE turns the empty sum into 0. */
  function GradedCreditsAsWritten(scs: seq<StudentCourse>, sid: int): int {
    if scs == [] then 0
    else
      (if scs[0].studentId == sid && scs[0].grade >= 0.0 then TextAsNumber("cr_cost") else 0)
      + GradedCreditsAsWritten(scs[1..], sid)
  }

  /** As written, the can_grad sum is 0 for every student and every table. */
  lemma {:induction false} GradedCreditsAsWrittenIsZero(scs: seq<StudentCourse>, sid: int)
    ensures GradedCreditsAsWritten(scs, sid) == 0
  {
    assert TextAsNumber("cr_cost") == 0;
    if scs != [] {
      GradedCreditsAsWrittenIsZero(scs[1..], sid);
    }
  }

  /** `update_student_cgpa_*` as written: the cgpa is that of
      RecomputeStanding, and can_grad compares the text sum above with 120. */
  function RecomputeStandingAsWritten(st: Store, sid: int): Store {
    var cgpa, canGrad := CgpaOf(st, sid), GradedCreditsAsWritten(st.studentCourses, sid) >= 120;
    st.(studentAccounts := seq(|st.studentAccounts|, i requires 0 <= i < |st.studentAccounts| =>
          var a := st.studentAccounts[i];
          if a.id == sid then a.(cgpa := cgpa, canGrad := canGrad) else a))
  }

  /** An enrolment statement with the triggers as written. */
  function ExecStudentCourseAsWritten(st: Store, e: StudentCourse, a: Action): Executed {
    var key := EnrolmentKey(e);
    match a
    case Insert =>
      Executed(RecomputeStandingAsWritten(st.(studentCourses := st.studentCourses + [e]), e.studentId), Pass)
    case Update =>
      var st1 := st.(studentCourses := ReplaceWhere(st.studentCourses, EnrolmentKey, key, e));
      Executed(if HasKey(st.studentCourses, EnrolmentKey, key) then RecomputeStandingAsWritten(st1, e.studentId) else st1, Pass)
    case Delete =>
      var st1 := st.(studentCourses := RemoveWhere(st.studentCourses, EnrolmentKey, key));
      Executed(if HasKey(st.studentCourses, EnrolmentKey, key) then RecomputeStandingAsWritten(st1, e.studentId) else st1, Pass)
  }

  /** As written, every enrolment write passes and stores what the corrected
      triggers store, except that the account the trigger writes always gets
      can_grad false. */
  lemma EnrolmentNeverGraduatesAsWritten(st: Store, e: StudentCourse, a: Action)
    ensures var w := ExecStudentCourseAsWritten(st, e, a);
      var c := ExecStudentCourse(st, e, a);
      var fires := a == Insert || HasKey(st.studentCourses, EnrolmentKey, EnrolmentKey(e));
      && w.outcome == Pass
      && w.store == c.store.(studentAccounts := w.store.studentAccounts)
      && |w.store.studentAccounts| == |c.store.studentAccounts|
      && forall i :: 0 <= i < |w.store.studentAccounts| ==>
           w.store.studentAccounts[i] ==
             if fires && st.studentAccounts[i].id == e.studentId then c.store.studentAccounts[i].(canGrad := false)
             else c.store.studentAccounts[i]
  {
    var key := EnrolmentKey(e);
    var st1 := match a
      case Insert => st.(studentCourses := st.studentCourses + [e])
      case Update => st.(studentCourses := ReplaceWhere(st.studentCourses, EnrolmentKey, key, e))
      case Delete => st.(studentCourses := RemoveWhere(st.studentCourses, EnrolmentKey, key));
    GradedCreditsAsWrittenIsZero(st1.studentCourses, e.studentId);
  }

  /** The discrepancy on one input: student 7, whose account has id 7,
      passes a 120-credit course with grade 4.0. The corrected triggers let
      the account graduate; as written, the insert passes, the cgpa is 4.0,
      and can_grad stays false. */
  lemma GraduationLostAsWritten()
    ensures var st := EmptyStore.(studentAccounts := [DefaultStudentAccount(7, 7)], studentAccountSeq := 7,
                                  courses := [Courses(3, 2, "Thesis", "T499", "", 120, "")], courseSeq := 3);
      var e := StudentCourse(7, 3, 4.0, "F24");
      var w := ExecStudentCourseAsWritten(st, e, Insert);
      var c := ExecStudentCourse(st, e, Insert);
      && w.outcome == Pass && w.store.studentCourses == [e]
      && w.store.studentAccounts[0].cgpa == 4.0 && !w.store.studentAccounts[0].canGrad
      && c.store.studentAccounts[0].canGrad
  {
    var st := EmptyStore.(studentAccounts := [DefaultStudentAccount(7, 7)], studentAccountSeq := 7,
                          courses := [Courses(3, 2, "Thesis", "T499", "", 120, "")], courseSeq := 3);
    var e := StudentCourse(7, 3, 4.0, "F24");
    var scs := [e];
    assert st.studentCourses + [e] == scs;
    assert CostsOf(st.courses, 3) == [120];
    assert CreditsOf(4.0, [120]) == 120;
    assert PointsOf(4.0, [120]) == 480.0;
    assert GradedCredits(scs, st.courses, 7) == 120;
    assert GradePoints(scs, st.courses, 7) == 480.0;
    var st1 := st.(studentCourses := scs);
    assert CgpaOf(st1, 7) == 4.0;
    GradedCreditsAsWrittenIsZero(scs, 7);
    assert RecomputeStandingAsWritten(st1, 7).studentAccounts[0].cgpa == 4.0;
  }
}
