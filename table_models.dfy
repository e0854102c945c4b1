/** Names of the six tables and the Display the join query uses
    (table_models.rs:11-37). Kept apart from the records because several
    records share their name with a table. */
module TableNames {
  import opened Filters
  import opened Text

  datatype Table = Users | StudentAccount | TeacherAccount | Courses | StudentCourses | Departments

  /** The table's name as declared by the schema, unquoted. */
  function SchemaName(t: Table): (r: string)
    ensures r in {"USERS", "STUDENT_ACCOUNT", "TEACHER_ACCOUNT", "COURSES", "STUDENT_COURSES", "DEPARTMENTS"}
  {
    match t
    case Users => "USERS"
    case StudentAccount => "STUDENT_ACCOUNT"
    case TeacherAccount => "TEACHER_ACCOUNT"
    case Courses => "COURSES"
    case StudentCourses => "STUDENT_COURSES"
    case Departments => "DEPARTMENTS"
  }

  /** The Display of a table: its name in double quotes. Two variants print a
      plural the schema never declares. */
  function TableText(t: Table): string
  {
    match t
    case Users => "\"USERS\""
    case StudentAccount => "\"STUDENT_ACCOUNTS\""
    case TeacherAccount => "\"TEACHER_ACCOUNTS\""
    case Courses => "\"COURSES\""
    case StudentCourses => "\"STUDENT_COURSES\""
    case Departments => "\"DEPARTMENTS\""
  }

  /** `Table::join`: the two tables with the join keyword between them,
      single spaces added on both sides of the keyword's own spaces. */
  function JoinTables(a: Table, b: Table, j: Join): string
  {
    TableText(a) + " " + JoinText(j) + " " + TableText(b)
  }

  /** The Display quotes the schema name exactly for four tables and names a
      table the schema lacks for the other two. */
  lemma TableTextNamesSchemaTable(t: Table)
    ensures TableText(t) == "\"" + SchemaName(t) + "\""
        <==> t !in {StudentAccount, TeacherAccount}
  {
  }

  /** The intended Display: the schema name in double quotes. */
  function QuotedSchemaName(t: Table): (r: string)
    ensures |r| == |SchemaName(t)| + 2 && r[0] == '"' && r[|r| - 1] == '"'
    ensures r[1..|r| - 1] == SchemaName(t)
  {
    "\"" + SchemaName(t) + "\""
  }

  /** The join text with every table named as the schema declares it. */
  function JoinTablesIntended(a: Table, b: Table, j: Join): string
  {
    QuotedSchemaName(a) + (" " + JoinText(j) + " " + QuotedSchemaName(b))
  }

  /** The intended join text begins with the first table's schema name and
      ends with the second's. */
  lemma JoinTablesIntendedNamesBoth(a: Table, b: Table, j: Join)
    ensures var r := JoinTablesIntended(a, b, j);
      StartsWith(r, QuotedSchemaName(a)) && |r| >= |QuotedSchemaName(b)|
      && r[|r| - |QuotedSchemaName(b)|..] == QuotedSchemaName(b)
  {
    var qa, qb, mid := QuotedSchemaName(a), QuotedSchemaName(b), " " + JoinText(j) + " ";
    var r := JoinTablesIntended(a, b, j);
    assert r == qa + (mid + qb);
    assert r == (qa + mid) + qb;
    assert r[..|qa|] == qa;
  }
}

/** Row records and the statements they render to (table_models.rs:5-9,
    43-244), plus the tagged union `ReceiverType` of db_driver.rs:20-28 that
    carries one record of any table. */
module TableModels {
  import opened Text

  datatype Action = Insert | Update | Delete

  datatype User = User(
    id: int, username: string, password: string, email: string, phone: string,
    verified: bool, suspended: bool, forcenewpw: bool, role: string)

  datatype StudentAccount = StudentAccount(
    id: int, studentId: int, advisorId: int, discipline: string, enrollment: string,
    cgpa: real, canGrad: bool, curCredit: int, cumCredit: int)

  datatype TeacherAccount = TeacherAccount(id: int, teacherId: int, deptId: int)

  datatype Courses = Courses(
    id: int, teacherId: int, course: string, courseNr: string, description: string,
    crCost: int, timeslots: string)

  /** An enrolment; it has no id of its own and is keyed by the pair
      (student, course). */
  datatype StudentCourse = StudentCourse(studentId: int, courseId: int, grade: real, semester: string)

  datatype Departments = Departments(id: int, name: string)

  datatype ReceiverType =
    | UserRow(user: User)
    | StudentAccountRow(account: StudentAccount)
    | TeacherAccountRow(teacher: TeacherAccount)
    | CourseRow(course: Courses)
    | StudentCourseRow(enrolment: StudentCourse)
    | DepartmentRow(department: Departments)

  /** Which statement a record's Update and Delete address: a row id, or the
      (student, course) pair of an enrolment. */
  datatype Key = RowId(id: int) | Enrolment(studentId: int, courseId: int)

  function KeyOf(r: ReceiverType): Key {
    match r
    case UserRow(u) => RowId(u.id)
    case StudentAccountRow(s) => RowId(s.id)
    case TeacherAccountRow(t) => RowId(t.id)
    case CourseRow(c) => RowId(c.id)
    case StudentCourseRow(e) => Enrolment(e.studentId, e.courseId)
    case DepartmentRow(d) => RowId(d.id)
  }

  /** The record with its id column replaced (enrolments have none). */
  function WithId(r: ReceiverType, id: int): ReceiverType {
    match r
    case UserRow(u) => UserRow(u.(id := id))
    case StudentAccountRow(s) => StudentAccountRow(s.(id := id))
    case TeacherAccountRow(t) => TeacherAccountRow(t.(id := id))
    case CourseRow(c) => CourseRow(c.(id := id))
    case StudentCourseRow(e) => StudentCourseRow(e)
    case DepartmentRow(d) => DepartmentRow(d.(id := id))
  }

  predicate SameKind(a: ReceiverType, b: ReceiverType) {
    (a.UserRow? && b.UserRow?) || (a.StudentAccountRow? && b.StudentAccountRow?)
    || (a.TeacherAccountRow? && b.TeacherAccountRow?) || (a.CourseRow? && b.CourseRow?)
    || (a.StudentCourseRow? && b.StudentCourseRow?) || (a.DepartmentRow? && b.DepartmentRow?)
  }

  const UserUpdateHead := "UPDATE USERS SET username = '"

  function Spaces(n: nat): (r: string)
    ensures |r| == n && forall i :: 0 <= i < n ==> r[i] == ' '
  {
    seq(n, _ => ' ')
  }

  function UserToSql(u: User, a: Action): string {
    match a
    case Insert =>
      "INSERT INTO USERS (username, password, email, phone, \n" + Spaces(20)
      + "verified, suspended, forcenewpw, role) VALUES ('"
      + u.username + "', '" + u.password + "', '" + u.email + "', '" + u.phone + "', "
      + BoolText(u.verified) + ", " + BoolText(u.suspended) + ", " + BoolText(u.forcenewpw)
      + ", '" + u.role + "')"
    case Update => UserUpdateHead + u.username + UserUpdateTail(u)
    case Delete => "DELETE FROM USERS WHERE id = " + IntText(u.id)
  }

  /** What an update puts after the username: the password column only for a
      non-empty password (the two source templates also differ in indentation). */
  function UserUpdateTail(u: User): string {
    if u.password == "" then "', email = '" + UserUpdateFromEmail(u, 28)
    else "', password = '" + u.password + "', email = '" + UserUpdateFromEmail(u, 24)
  }

  function UserUpdateFromEmail(u: User, indent: nat): string {
    u.email + "', phone = '" + u.phone + "', \n" + Spaces(indent)
    + "verified = " + BoolText(u.verified) + ", suspended = " + BoolText(u.suspended)
    + ", forcenewpw = " + BoolText(u.forcenewpw) + ", role = '" + u.role + "' \n"
    + Spaces(indent) + "WHERE id = " + IntText(u.id)
  }

  function StudentAccountToSql(s: StudentAccount, a: Action): string {
    match a
    case Insert =>
      "INSERT INTO STUDENT_ACCOUNT (student_id, advisor_id, discipline, enrollment, cgpa, can_grad, cur_credit, cum_credit) \n                VALUES ("
      + IntText(s.studentId) + ", " + IntText(s.advisorId) + ", '" + s.discipline + "', '"
      + s.enrollment + "', " + FloatText(s.cgpa) + ", " + BoolText(s.canGrad) + ", "
      + IntText(s.curCredit) + ", " + IntText(s.cumCredit) + ")"
    case Update =>
      "UPDATE STUDENT_ACCOUNT SET student_id = " + IntText(s.studentId) + ", advisor_id = "
      + IntText(s.advisorId) + ", discipline = '" + s.discipline
      + "', \n                enrollment = '" + s.enrollment + "', cgpa = " + FloatText(s.cgpa)
      + ", can_grad = " + BoolText(s.canGrad) + ", cur_credit = " + IntText(s.curCredit)
      + ", cum_credit = " + IntText(s.cumCredit) + " \n                WHERE id = " + IntText(s.id)
    case Delete => "DELETE FROM STUDENT_ACCOUNT WHERE id = " + IntText(s.id)
  }

  function TeacherAccountToSql(t: TeacherAccount, a: Action): string {
    match a
    case Insert =>
      "INSERT INTO \"TEACHER_ACCOUNT\" (\"teacher_id\", \"dept_id\") VALUES ("
      + IntText(t.teacherId) + ", " + IntText(t.deptId) + ")"
    case Update =>
      "UPDATE \"TEACHER_ACCOUNT\" SET \"teacher_id\" = " + IntText(t.teacherId)
      + ", \"dept_id\" = " + IntText(t.deptId) + " WHERE \"id\" = " + IntText(t.id)
    case Delete => "DELETE FROM \"TEACHER_ACCOUNT\" WHERE \"id\" = " + IntText(t.id)
  }

  function CoursesToSql(c: Courses, a: Action): string {
    match a
    case Insert =>
      "INSERT INTO \"COURSES\" (\"teacher_id\", \"course\", \"course_nr\", \"description\", \"cr_cost\", \"timeslots\") \n                VALUES ("
      + IntText(c.teacherId) + ", '" + c.course + "', '" + c.courseNr + "', '" + c.description
      + "', " + IntText(c.crCost) + ", '" + c.timeslots + "')"
    case Update =>
      "UPDATE COURSES SET teacher_id = " + IntText(c.teacherId) + ", course = '" + c.course
      + "', course_nr = '" + c.courseNr + "', description = '" + c.description + "', cr_cost = "
      + IntText(c.crCost) + ", timeslots = '" + c.timeslots + "' WHERE id = " + IntText(c.id)
    case Delete => "DELETE FROM COURSES WHERE \"id\" = " + IntText(c.id)
  }

  const EnrolmentKeyJoin := " AND course_id = "

  function StudentCourseToSql(e: StudentCourse, a: Action): string {
    match a
    case Insert =>
      "INSERT INTO student_courses (student_id, course_id, grade, semester) \n                VALUES ("
      + IntText(e.studentId) + ", " + IntText(e.courseId) + ", " + FloatText(e.grade) + ", '"
      + e.semester + "')"
    case Update =>
      "UPDATE student_courses SET student_id = " + IntText(e.studentId) + ", course_id = "
      + IntText(e.courseId) + ", grade = " + FloatText(e.grade) + ", semester = '" + e.semester
      + "' \n                WHERE student_id = " + IntText(e.studentId) + EnrolmentKeyJoin
      + IntText(e.courseId)
    case Delete =>
      "DELETE FROM student_courses WHERE student_id = " + IntText(e.studentId) + EnrolmentKeyJoin
      + IntText(e.courseId)
  }

  function DepartmentsToSql(d: Departments, a: Action): string {
    match a
    case Insert => "INSERT INTO departments (name) VALUES ('" + d.name + "')"
    case Update => "UPDATE departments SET name = '" + d.name + "' WHERE id = " + IntText(d.id)
    case Delete => "DELETE FROM departments WHERE id = " + IntText(d.id)
  }

  /** The `ToSQL` implementation of whichever record the receiver carries. */
  function ToSql(r: ReceiverType, a: Action): string {
    match r
    case UserRow(u) => UserToSql(u, a)
    case StudentAccountRow(s) => StudentAccountToSql(s, a)
    case TeacherAccountRow(t) => TeacherAccountToSql(t, a)
    case CourseRow(c) => CoursesToSql(c, a)
    case StudentCourseRow(e) => StudentCourseToSql(e, a)
    case DepartmentRow(d) => DepartmentsToSql(d, a)
  }

  /** The fixed text a Delete statement puts before its key. */
  function DeleteHead(r: ReceiverType): string {
    match r
    case UserRow(_) => "DELETE FROM USERS WHERE id = "
    case StudentAccountRow(_) => "DELETE FROM STUDENT_ACCOUNT WHERE id = "
    case TeacherAccountRow(_) => "DELETE FROM \"TEACHER_ACCOUNT\" WHERE \"id\" = "
    case CourseRow(_) => "DELETE FROM COURSES WHERE \"id\" = "
    case StudentCourseRow(_) => "DELETE FROM student_courses WHERE student_id = "
    case DepartmentRow(_) => "DELETE FROM departments WHERE id = "
  }

  /** Two numerals joined by a text that starts with a space split back
      into the same two numerals. */
  lemma NumeralPairInjective(a: int, b: int, c: int, d: int, mid: string)
    requires |mid| >= 1 && mid[0] == ' '
    requires IntText(a) + mid + IntText(b) == IntText(c) + mid + IntText(d)
    ensures a == c && b == d
  {
    var x, y := IntText(a), IntText(c);
    var s := IntText(a) + mid + IntText(b);
    assert forall i :: 0 <= i < |x| ==> s[i] == x[i] && s[i] != ' ';
    assert forall i :: 0 <= i < |y| ==> s[i] == y[i] && s[i] != ' ';
    assert s[|x|] == ' ' && s[|y|] == ' ';
    assert x == s[..|x|] == y;
    IntTextInjective(a, c);
    assert IntText(b) == s[|x| + |mid|..] == IntText(d);
    IntTextInjective(b, d);
  }

  lemma IntTextInjective(a: int, b: int)
    ensures IntText(a) == IntText(b) <==> a == b
  {
    ParseIntText(a);
    ParseIntText(b);
  }

  lemma SuffixAfterCommonPrefix(p: string, x: string, y: string)
    requires p + x == p + y
    ensures x == y
  {
    assert x == (p + x)[|p|..];
    assert y == (p + y)[|p|..];
  }

  /** The key's text a Delete statement ends with. */
  function KeyText(k: Key): string {
    match k
    case RowId(id) => IntText(id)
    case Enrolment(sid, cid) => IntText(sid) + EnrolmentKeyJoin + IntText(cid)
  }

  lemma DeleteShape(r: ReceiverType)
    ensures ToSql(r, Delete) == DeleteHead(r) + KeyText(KeyOf(r))
  {
    if r.StudentCourseRow? {
      var e := r.enrolment;
      assert ToSql(r, Delete) == DeleteHead(r) + IntText(e.studentId) + EnrolmentKeyJoin + IntText(e.courseId);
    }
  }

  lemma KeyTextInjective(k1: Key, k2: Key)
    requires k1.RowId? == k2.RowId?
    ensures KeyText(k1) == KeyText(k2) <==> k1 == k2
  {
    if KeyText(k1) == KeyText(k2) {
      if k1.RowId? {
        IntTextInjective(k1.id, k2.id);
      } else {
        NumeralPairInjective(k1.studentId, k1.courseId, k2.studentId, k2.courseId, EnrolmentKeyJoin);
      }
    }
  }

  /** A Delete statement names exactly the record's key: two records of one
      kind render the same Delete if and only if their keys agree. */
  lemma DeleteIdentifiesKey(r1: ReceiverType, r2: ReceiverType)
    requires SameKind(r1, r2)
    ensures ToSql(r1, Delete) == ToSql(r2, Delete) <==> KeyOf(r1) == KeyOf(r2)
  {
    assert DeleteHead(r1) == DeleteHead(r2);
    DeleteShape(r1);
    DeleteShape(r2);
    if ToSql(r1, Delete) == ToSql(r2, Delete) {
      SuffixAfterCommonPrefix(DeleteHead(r1), KeyText(KeyOf(r1)), KeyText(KeyOf(r2)));
    }
    KeyTextInjective(KeyOf(r1), KeyOf(r2));
  }

  /** A user update writes the password column exactly when the record
      carries a non-empty password: the column after the username value is
      `password` in that case and `email` otherwise. */
  lemma UserUpdateWritesPassword(u: User)
    ensures var t := UserToSql(u, Update);
      var k := |UserUpdateHead| + |u.username|;
      k <= |t| && (StartsWith(t[k..], "', password = '") <==> u.password != "")
  {
    var head := UserUpdateHead + u.username;
    var rest := UserUpdateTail(u);
    assert UserToSql(u, Update) == head + rest;
    assert (head + rest)[|head|..] == rest;
    UserUpdateTailStart(u);
  }

  lemma UserUpdateTailStart(u: User)
    ensures StartsWith(UserUpdateTail(u), "', password = '") <==> u.password != ""
  {
    if u.password == "" {
      EmailTailIsNotPassword(UserUpdateFromEmail(u, 28));
    } else {
      PrefixStarts("', password = '", u.password + "', email = '" + UserUpdateFromEmail(u, 24));
    }
  }

  lemma PrefixStarts(p: string, tail: string)
    ensures StartsWith(p + tail, p)
  {
    assert (p + tail)[..|p|] == p;
  }

  lemma EmailTailIsNotPassword(tail: string)
    ensures !StartsWith("', email = '" + tail, "', password = '")
  {
    var t := "', email = '" + tail;
    assert t[3] == 'e';
  }

  /** No INSERT statement mentions the id: a record with any other id
      renders the same text (an enrolment has no id to change). */
  lemma UserInsertIgnoresId(u: User, id: int)
    ensures UserToSql(u.(id := id), Insert) == UserToSql(u, Insert)
  {
  }

  lemma StudentAccountInsertIgnoresId(x: StudentAccount, id: int)
    ensures StudentAccountToSql(x.(id := id), Insert) == StudentAccountToSql(x, Insert)
  {
    var y := x.(id := id);
    assert y.studentId == x.studentId && y.advisorId == x.advisorId && y.discipline == x.discipline;
    assert y.enrollment == x.enrollment && y.cgpa == x.cgpa && y.canGrad == x.canGrad;
    assert y.curCredit == x.curCredit && y.cumCredit == x.cumCredit;
  }

  lemma TeacherAccountInsertIgnoresId(x: TeacherAccount, id: int)
    ensures TeacherAccountToSql(x.(id := id), Insert) == TeacherAccountToSql(x, Insert)
  {
  }

  lemma CoursesInsertIgnoresId(c: Courses, id: int)
    ensures CoursesToSql(c.(id := id), Insert) == CoursesToSql(c, Insert)
  {
  }

  lemma DepartmentsInsertIgnoresId(d: Departments, id: int)
    ensures DepartmentsToSql(d.(id := id), Insert) == DepartmentsToSql(d, Insert)
  {
  }

  predicate EndsWith(t: string, w: string) {
    |w| <= |t| && t[|t| - |w|..] == w
  }

  lemma EndsWithJoin(p: string, h: string, k: string)
    ensures EndsWith(p + h + k, h + k)
  {
    assert (p + h + k)[|p|..] == h + k;
  }

  lemma EndsWithPrepend(x: string, y: string, w: string)
    requires EndsWith(y, w)
    ensures EndsWith(x + y, w)
  {
    assert (x + y)[|x + y| - |w|..] == y[|y| - |w|..];
  }

  /** The fixed text an Update statement puts before its key. */
  function UpdateKeyHead(r: ReceiverType): string {
    match r
    case UserRow(_) => "WHERE id = "
    case StudentAccountRow(_) => " \n                WHERE id = "
    case TeacherAccountRow(_) => " WHERE \"id\" = "
    case CourseRow(_) => "' WHERE id = "
    case StudentCourseRow(_) => "' \n                WHERE student_id = "
    case DepartmentRow(_) => "' WHERE id = "
  }

  lemma UserUpdateEndsWithKey(u: User)
    ensures EndsWith(UserToSql(u, Update), "WHERE id = " + IntText(u.id))
  {
    var indent := if u.password == "" then 28 else 24;
    var w := "WHERE id = " + IntText(u.id);
    var p := u.email + "', phone = '" + u.phone + "', \n" + Spaces(indent)
             + "verified = " + BoolText(u.verified) + ", suspended = " + BoolText(u.suspended)
             + ", forcenewpw = " + BoolText(u.forcenewpw) + ", role = '" + u.role + "' \n"
             + Spaces(indent);
    EndsWithJoin(p, "WHERE id = ", IntText(u.id));
    assert UserUpdateFromEmail(u, indent) == p + "WHERE id = " + IntText(u.id);
    if u.password == "" {
      EndsWithPrepend("', email = '", UserUpdateFromEmail(u, indent), w);
    } else {
      EndsWithPrepend("', password = '" + u.password + "', email = '", UserUpdateFromEmail(u, indent), w);
    }
    EndsWithPrepend(UserUpdateHead + u.username, UserUpdateTail(u), w);
  }

  lemma StudentAccountUpdateEndsWithKey(s: StudentAccount)
    ensures EndsWith(StudentAccountToSql(s, Update), " \n                WHERE id = " + IntText(s.id))
  {
    var p := "UPDATE STUDENT_ACCOUNT SET student_id = " + IntText(s.studentId) + ", advisor_id = "
             + IntText(s.advisorId) + ", discipline = '" + s.discipline
             + "', \n                enrollment = '" + s.enrollment + "', cgpa = " + FloatText(s.cgpa)
             + ", can_grad = " + BoolText(s.canGrad) + ", cur_credit = " + IntText(s.curCredit)
             + ", cum_credit = " + IntText(s.cumCredit);
    EndsWithJoin(p, " \n                WHERE id = ", IntText(s.id));
  }

  lemma TeacherAccountUpdateEndsWithKey(x: TeacherAccount)
    ensures EndsWith(TeacherAccountToSql(x, Update), " WHERE \"id\" = " + IntText(x.id))
  {
    var p := "UPDATE \"TEACHER_ACCOUNT\" SET \"teacher_id\" = " + IntText(x.teacherId)
             + ", \"dept_id\" = " + IntText(x.deptId);
    EndsWithJoin(p, " WHERE \"id\" = ", IntText(x.id));
  }

  lemma CoursesUpdateEndsWithKey(c: Courses)
    ensures EndsWith(CoursesToSql(c, Update), "' WHERE id = " + IntText(c.id))
  {
    var p := "UPDATE COURSES SET teacher_id = " + IntText(c.teacherId) + ", course = '" + c.course
             + "', course_nr = '" + c.courseNr + "', description = '" + c.description + "', cr_cost = "
             + IntText(c.crCost) + ", timeslots = '" + c.timeslots;
    EndsWithJoin(p, "' WHERE id = ", IntText(c.id));
  }

  lemma StudentCourseUpdateEndsWithKey(e: StudentCourse)
    ensures EndsWith(StudentCourseToSql(e, Update),
                     "' \n                WHERE student_id = " + KeyText(Enrolment(e.studentId, e.courseId)))
  {
    var p := "UPDATE student_courses SET student_id = " + IntText(e.studentId) + ", course_id = "
             + IntText(e.courseId) + ", grade = " + FloatText(e.grade) + ", semester = '" + e.semester;
    var h := "' \n                WHERE student_id = ";
    ConcatRegroup(p + h, IntText(e.studentId), EnrolmentKeyJoin, IntText(e.courseId));
    EndsWithJoin(p, h, KeyText(Enrolment(e.studentId, e.courseId)));
  }

  lemma ConcatRegroup(a: string, b: string, c: string, d: string)
    ensures a + b + c + d == a + (b + c + d)
  {
  }

  lemma DepartmentsUpdateEndsWithKey(d: Departments)
    ensures EndsWith(DepartmentsToSql(d, Update), "' WHERE id = " + IntText(d.id))
  {
    EndsWithJoin("UPDATE departments SET name = '" + d.name, "' WHERE id = ", IntText(d.id));
  }

  /** Every Update statement ends with its WHERE clause on the record's key:
      the id for id-keyed records, student and course for an enrolment. */
  lemma UpdateConditionedOnKey(r: ReceiverType)
    ensures EndsWith(ToSql(r, Update), UpdateKeyHead(r) + KeyText(KeyOf(r)))
  {
    match r
    case UserRow(u) => UserUpdateEndsWithKey(u);
    case StudentAccountRow(s) => StudentAccountUpdateEndsWithKey(s);
    case TeacherAccountRow(x) => TeacherAccountUpdateEndsWithKey(x);
    case CourseRow(c) => CoursesUpdateEndsWithKey(c);
    case StudentCourseRow(e) => StudentCourseUpdateEndsWithKey(e);
    case DepartmentRow(d) => DepartmentsUpdateEndsWithKey(d);
  }
}
