/** Column predicates (filter.rs). Each entity has a closed set of predicate
    variants, one per filterable column plus `All`; each renders to a single
    `column = literal` condition, text literals quoted verbatim (no escaping),
    integers and booleans unquoted. `Filter` wraps one entity's predicate and
    delegates to it. The Display of `Join` lives in filter.rs as well, so the
    `Join` enum (declared in db_driver.rs) is declared here. */
module Filters {
  import opened Text

  datatype Associativity = And | Or

  /** Separator placed between conditions (filter.rs:15-22). */
  function AssociativityText(a: Associativity): (r: string)
    ensures r == " AND " || r == " OR "
    ensures r == " AND " <==> a == And
  {
    match a
    case And => " AND "
    case Or => " OR "
  }

  datatype Join = Inner | Left | Right | Full

  /** Join keyword with its surrounding spaces (filter.rs:46-55). */
  function JoinText(j: Join): (r: string)
    ensures r in {" INNER JOIN ", " LEFT OUTER JOIN ", " RIGHT OUTER JOIN ", " FULL OUTER JOIN "}
    ensures r[0] == ' ' && r[|r| - 1] == ' '
  {
    match j
    case Inner => " INNER JOIN "
    case Left => " LEFT OUTER JOIN "
    case Right => " RIGHT OUTER JOIN "
    case Full => " FULL OUTER JOIN "
  }

  datatype UsersFilter =
    | Username(string) | Email(string) | Phone(string) | Role(string)
    | Verified(bool) | Suspended(bool) | Forcenewpw(bool) | Id(int) | All

  datatype StudentAccountFilter =
    | StudentId(int) | AdvisorId(int) | Discipline(string) | Enrollment(string)
    | Cgpa(real) | CanGrad(bool) | CurCredit(int) | CumCredit(int) | Id(int) | All

  datatype TeacherAccountFilter = TeacherId(int) | DeptId(int) | Dept(string) | Id(int) | All

  datatype CoursesFilter =
    | Id(int) | TeacherId(int) | Course(string) | CrCost(int)
    | CreatedAt(string) | UpdatedAt(string) | All

  datatype DepartmentsFilter = DeptHead(int) | Name(string) | Id(int) | All

  datatype StudentCoursesFilter =
    | StudentId(int) | CourseId(int) | Grade(real) | Semester(string) | Id(int) | All

  /** The per-entity predicate a filter wraps; the variant names its table. */
  datatype Filter =
    | OnUsers(users: UsersFilter)
    | OnStudentAccount(studentAccount: StudentAccountFilter)
    | OnTeacherAccount(teacherAccount: TeacherAccountFilter)
    | OnCourses(courses: CoursesFilter)
    | OnDepartments(departments: DepartmentsFilter)
    | OnStudentCourses(studentCourses: StudentCoursesFilter)

  /** Display of `Filter`: the name of the table its variant belongs to (filter.rs:33-44). */
  function FilterTableName(f: Filter): (r: string)
    ensures r in {"USERS", "STUDENT_ACCOUNT", "TEACHER_ACCOUNT", "COURSES", "DEPARTMENTS", "STUDENT_COURSES"}
  {
    match f
    case OnUsers(_) => "USERS"
    case OnStudentAccount(_) => "STUDENT_ACCOUNT"
    case OnTeacherAccount(_) => "TEACHER_ACCOUNT"
    case OnCourses(_) => "COURSES"
    case OnDepartments(_) => "DEPARTMENTS"
    case OnStudentCourses(_) => "STUDENT_COURSES"
  }

  // ---------------------------------------------------------------------------
  // What a predicate means: the column it tests and the literal it compares with.

  datatype Literal = TextLit(text: string) | IntLit(n: int) | BoolLit(b: bool) | RealLit(x: real)

  /** A rendered predicate: the always-true `1 = 1`, or `column = literal`. */
  datatype Condition = AlwaysTrue | Equals(column: string, literal: Literal)

  function LiteralText(l: Literal): string {
    match l
    case TextLit(s) => "'" + s + "'"
    case IntLit(n) => IntText(n)
    case BoolLit(b) => BoolText(b)
    case RealLit(x) => FloatText(x)
  }

  function ConditionText(c: Condition): string {
    match c
    case AlwaysTrue => "1 = 1"
    case Equals(col, l) => col + " = " + LiteralText(l)
  }

  function UsersCondition(f: UsersFilter): Condition {
    match f
    case Username(v) => Equals("username", TextLit(v))
    case Email(v) => Equals("email", TextLit(v))
    case Phone(v) => Equals("phone", TextLit(v))
    case Role(v) => Equals("role", TextLit(v))
    case Verified(b) => Equals("verified", BoolLit(b))
    case Suspended(b) => Equals("suspended", BoolLit(b))
    case Forcenewpw(b) => Equals("forcenewpw", BoolLit(b))
    case Id(n) => Equals("id", IntLit(n))
    case All => AlwaysTrue
  }

  function StudentAccountCondition(f: StudentAccountFilter): Condition {
    match f
    case StudentId(n) => Equals("student_id", IntLit(n))
    case AdvisorId(n) => Equals("advisor_id", IntLit(n))
    case Discipline(v) => Equals("discipline", TextLit(v))
    case Enrollment(v) => Equals("enrollment", TextLit(v))
    case Cgpa(x) => Equals("cgpa", RealLit(x))
    case CanGrad(b) => Equals("can_grad", BoolLit(b))
    case CurCredit(n) => Equals("cur_credit", IntLit(n))
    case CumCredit(n) => Equals("cum_credit", IntLit(n))
    case Id(n) => Equals("id", IntLit(n))
    case All => AlwaysTrue
  }

  function TeacherAccountCondition(f: TeacherAccountFilter): Condition {
    match f
    case TeacherId(n) => Equals("teacher_id", IntLit(n))
    case DeptId(n) => Equals("dept_id", IntLit(n))
    case Dept(v) => Equals("dept", TextLit(v))
    case Id(n) => Equals("id", IntLit(n))
    case All => AlwaysTrue
  }

  function CoursesCondition(f: CoursesFilter): Condition {
    match f
    case Id(n) => Equals("id", IntLit(n))
    case TeacherId(n) => Equals("teacher_id", IntLit(n))
    case Course(v) => Equals("course", TextLit(v))
    case CrCost(n) => Equals("cr_cost", IntLit(n))
    case CreatedAt(v) => Equals("created_at", TextLit(v))
    case UpdatedAt(v) => Equals("updated_at", TextLit(v))
    case All => AlwaysTrue
  }

  function DepartmentsCondition(f: DepartmentsFilter): Condition {
    match f
    case DeptHead(n) => Equals("dept_head", IntLit(n))
    case Name(v) => Equals("name", TextLit(v))
    case Id(n) => Equals("id", IntLit(n))
    case All => AlwaysTrue
  }

  function StudentCoursesCondition(f: StudentCoursesFilter): Condition {
    match f
    case StudentId(n) => Equals("student_id", IntLit(n))
    case CourseId(n) => Equals("course_id", IntLit(n))
    case Grade(x) => Equals("grade", RealLit(x))
    case Semester(v) => Equals("semester", TextLit(v))
    case Id(n) => Equals("id", IntLit(n))
    case All => AlwaysTrue
  }

  function FilterCondition(f: Filter): Condition {
    match f
    case OnUsers(x) => UsersCondition(x)
    case OnStudentAccount(x) => StudentAccountCondition(x)
    case OnTeacherAccount(x) => TeacherAccountCondition(x)
    case OnCourses(x) => CoursesCondition(x)
    case OnDepartments(x) => DepartmentsCondition(x)
    case OnStudentCourses(x) => StudentCoursesCondition(x)
  }

  // ---------------------------------------------------------------------------
  // `Filterable::to_sql`, variant by variant as the source formats it.

  function UsersToSql(f: UsersFilter): (r: string)
    ensures r == "1 = 1" <==> f.All?
  {
    match f
    case Username(username) => "username = '" + username + "'"
    case Email(email) => "email = '" + email + "'"
    case Phone(phone) => "phone = '" + phone + "'"
    case Role(role) => "role = '" + role + "'"
    case Verified(verified) => "verified = " + BoolText(verified)
    case Suspended(suspended) => "suspended = " + BoolText(suspended)
    case Forcenewpw(forcenewpw) => "forcenewpw = " + BoolText(forcenewpw)
    case Id(id) => "id = " + IntText(id)
    case All => "1 = 1"
  }

  function StudentAccountToSql(f: StudentAccountFilter): (r: string)
    ensures r == "1 = 1" <==> f.All?
  {
    match f
    case StudentId(studentId) => "student_id = " + IntText(studentId)
    case AdvisorId(advisorId) => "advisor_id = " + IntText(advisorId)
    case Discipline(discipline) => "discipline = '" + discipline + "'"
    case Enrollment(enrollment) => "enrollment = '" + enrollment + "'"
    case Cgpa(cgpa) => "cgpa = " + FloatText(cgpa)
    case CanGrad(canGrad) => "can_grad = " + BoolText(canGrad)
    case CurCredit(curCredit) => "cur_credit = " + IntText(curCredit)
    case CumCredit(cumCredit) => "cum_credit = " + IntText(cumCredit)
    case Id(id) => "id = " + IntText(id)
    case All => "1 = 1"
  }

  function TeacherAccountToSql(f: TeacherAccountFilter): (r: string)
    ensures r == "1 = 1" <==> f.All?
  {
    match f
    case TeacherId(teacherId) => "teacher_id = " + IntText(teacherId)
    case DeptId(deptId) => "dept_id = " + IntText(deptId)
    case Dept(dept) => "dept = '" + dept + "'"
    case Id(id) => "id = " + IntText(id)
    case All => "1 = 1"
  }

  function CoursesToSql(f: CoursesFilter): (r: string)
    ensures r == "1 = 1" <==> f.All?
  {
    match f
    case Id(id) => "id = " + IntText(id)
    case TeacherId(teacherId) => "teacher_id = " + IntText(teacherId)
    case Course(course) => "course = '" + course + "'"
    case CrCost(crCost) => "cr_cost = " + IntText(crCost)
    case CreatedAt(createdAt) => "created_at = '" + createdAt + "'"
    case UpdatedAt(updatedAt) => "updated_at = '" + updatedAt + "'"
    case All => "1 = 1"
  }

  function DepartmentsToSql(f: DepartmentsFilter): (r: string)
    ensures r == "1 = 1" <==> f.All?
  {
    match f
    case DeptHead(deptHead) => "dept_head = " + IntText(deptHead)
    case Name(name) => "name = '" + name + "'"
    case Id(id) => "id = " + IntText(id)
    case All => "1 = 1"
  }

  function StudentCoursesToSql(f: StudentCoursesFilter): (r: string)
    ensures r == "1 = 1" <==> f.All?
  {
    match f
    case StudentId(studentId) => "student_id = " + IntText(studentId)
    case CourseId(courseId) => "course_id = " + IntText(courseId)
    case Grade(grade) => "grade = " + FloatText(grade)
    case Semester(semester) => "semester = '" + semester + "'"
    case Id(id) => "id = " + IntText(id)
    case All => "1 = 1"
  }

  /** `Filterable::to_sql` for the wrapper: the wrapped predicate's own rendering. */
  function FilterToSql(f: Filter): (r: string)
    ensures r == "1 = 1" <==> IsAll(f)
  {
    match f
    case OnUsers(x) => UsersToSql(x)
    case OnStudentAccount(x) => StudentAccountToSql(x)
    case OnTeacherAccount(x) => TeacherAccountToSql(x)
    case OnCourses(x) => CoursesToSql(x)
    case OnDepartments(x) => DepartmentsToSql(x)
    case OnStudentCourses(x) => StudentCoursesToSql(x)
  }

  // ---------------------------------------------------------------------------
  // Properties of the rendering.

  /** Every variant's format string is the generic `column = literal` text of
      the condition it denotes, so the executor and the text agree. */
  lemma ToSqlRendersCondition(f: Filter)
    ensures FilterToSql(f) == ConditionText(FilterCondition(f))
  {
    match f
    case OnUsers(x) => UsersRendersCondition(x);
    case OnStudentAccount(x) => StudentAccountRendersCondition(x);
    case OnTeacherAccount(x) => TeacherAccountRendersCondition(x);
    case OnCourses(x) => CoursesRendersCondition(x);
    case OnDepartments(x) => DepartmentsRendersCondition(x);
    case OnStudentCourses(x) => StudentCoursesRendersCondition(x);
  }

  /** The quoted form `col = '<v>'` regrouped as `col`, ` = ` and the quoted literal. */
  lemma QuotedConcat(prefix: string, col: string, v: string)
    requires prefix == col + " = '"
    ensures prefix + v + "'" == col + " = " + ("'" + v + "'")
  {
  }

  /** The unquoted form `col = <text>` regrouped as `col`, ` = ` and the literal text. */
  lemma UnquotedConcat(prefix: string, col: string, t: string)
    requires prefix == col + " = "
    ensures prefix + t == col + " = " + t
  {
  }

  lemma UsersRendersCondition(f: UsersFilter)
    ensures UsersToSql(f) == ConditionText(UsersCondition(f))
  {
    match f
    case Username(v) => QuotedConcat("username = '", "username", v);
    case Email(v) => QuotedConcat("email = '", "email", v);
    case Phone(v) => QuotedConcat("phone = '", "phone", v);
    case Role(v) => QuotedConcat("role = '", "role", v);
    case Verified(v) => UnquotedConcat("verified = ", "verified", BoolText(v));
    case Suspended(v) => UnquotedConcat("suspended = ", "suspended", BoolText(v));
    case Forcenewpw(v) => UnquotedConcat("forcenewpw = ", "forcenewpw", BoolText(v));
    case Id(v) => UnquotedConcat("id = ", "id", IntText(v));
    case All =>
  }

  lemma StudentAccountRendersCondition(f: StudentAccountFilter)
    ensures StudentAccountToSql(f) == ConditionText(StudentAccountCondition(f))
  {
    match f
    case StudentId(v) => UnquotedConcat("student_id = ", "student_id", IntText(v));
    case AdvisorId(v) => UnquotedConcat("advisor_id = ", "advisor_id", IntText(v));
    case Discipline(v) => QuotedConcat("discipline = '", "discipline", v);
    case Enrollment(v) => QuotedConcat("enrollment = '", "enrollment", v);
    case Cgpa(v) => UnquotedConcat("cgpa = ", "cgpa", FloatText(v));
    case CanGrad(v) => UnquotedConcat("can_grad = ", "can_grad", BoolText(v));
    case CurCredit(v) => UnquotedConcat("cur_credit = ", "cur_credit", IntText(v));
    case CumCredit(v) => UnquotedConcat("cum_credit = ", "cum_credit", IntText(v));
    case Id(v) => UnquotedConcat("id = ", "id", IntText(v));
    case All =>
  }

  lemma TeacherAccountRendersCondition(f: TeacherAccountFilter)
    ensures TeacherAccountToSql(f) == ConditionText(TeacherAccountCondition(f))
  {
    match f
    case TeacherId(v) => UnquotedConcat("teacher_id = ", "teacher_id", IntText(v));
    case DeptId(v) => UnquotedConcat("dept_id = ", "dept_id", IntText(v));
    case Dept(v) => QuotedConcat("dept = '", "dept", v);
    case Id(v) => UnquotedConcat("id = ", "id", IntText(v));
    case All =>
  }

  lemma CoursesRendersCondition(f: CoursesFilter)
    ensures CoursesToSql(f) == ConditionText(CoursesCondition(f))
  {
    match f
    case Id(v) => UnquotedConcat("id = ", "id", IntText(v));
    case TeacherId(v) => UnquotedConcat("teacher_id = ", "teacher_id", IntText(v));
    case Course(v) => QuotedConcat("course = '", "course", v);
    case CrCost(v) => UnquotedConcat("cr_cost = ", "cr_cost", IntText(v));
    case CreatedAt(v) => QuotedConcat("created_at = '", "created_at", v);
    case UpdatedAt(v) => QuotedConcat("updated_at = '", "updated_at", v);
    case All =>
  }

  lemma DepartmentsRendersCondition(f: DepartmentsFilter)
    ensures DepartmentsToSql(f) == ConditionText(DepartmentsCondition(f))
  {
    match f
    case DeptHead(v) => UnquotedConcat("dept_head = ", "dept_head", IntText(v));
    case Name(v) => QuotedConcat("name = '", "name", v);
    case Id(v) => UnquotedConcat("id = ", "id", IntText(v));
    case All =>
  }

  lemma StudentCoursesRendersCondition(f: StudentCoursesFilter)
    ensures StudentCoursesToSql(f) == ConditionText(StudentCoursesCondition(f))
  {
    match f
    case StudentId(v) => UnquotedConcat("student_id = ", "student_id", IntText(v));
    case CourseId(v) => UnquotedConcat("course_id = ", "course_id", IntText(v));
    case Grade(v) => UnquotedConcat("grade = ", "grade", FloatText(v));
    case Semester(v) => QuotedConcat("semester = '", "semester", v);
    case Id(v) => UnquotedConcat("id = ", "id", IntText(v));
    case All =>
  }

  predicate IsAll(f: Filter) {
    match f
    case OnUsers(x) => x.All?
    case OnStudentAccount(x) => x.All?
    case OnTeacherAccount(x) => x.All?
    case OnCourses(x) => x.All?
    case OnDepartments(x) => x.All?
    case OnStudentCourses(x) => x.All?
  }

  /** `All` is exactly the variant that renders the always-true `1 = 1`. */
  lemma AllRendersAlwaysTrue(f: Filter)
    ensures IsAll(f) <==> FilterCondition(f) == AlwaysTrue
    ensures IsAll(f) ==> FilterToSql(f) == "1 = 1"
  {
  }

  /** A text predicate renders `col = '<value>'` with the value verbatim:
      stripping the fixed prefix and the closing quote gives the value back. */
  lemma TextPredicateRoundTrip(f: Filter, col: string, v: string)
    requires FilterCondition(f) == Equals(col, TextLit(v))
    ensures var r := FilterToSql(f);
      && StartsWith(r, col + " = '")
      && |r| == |col| + |v| + 5
      && r[|r| - 1] == '\''
      && r[|col| + 4..|r| - 1] == v
  {
    ToSqlRendersCondition(f);
    var r := FilterToSql(f);
    assert r == (col + " = '") + v + "'";
  }

  /** Two text predicates on one column render alike only for the same value. */
  lemma TextPredicateInjective(f: Filter, g: Filter, col: string, v: string, w: string)
    requires FilterCondition(f) == Equals(col, TextLit(v))
    requires FilterCondition(g) == Equals(col, TextLit(w))
    requires FilterToSql(f) == FilterToSql(g)
    ensures v == w
  {
    TextPredicateRoundTrip(f, col, v);
    TextPredicateRoundTrip(g, col, w);
  }

  /** An integer predicate renders `col = <n>` unquoted, and the numeral after
      the fixed prefix reads back as `n`. */
  lemma IntPredicateUnquoted(f: Filter, col: string, n: int)
    requires FilterCondition(f) == Equals(col, IntLit(n))
    ensures var r := FilterToSql(f);
      && StartsWith(r, col + " = ")
      && (forall i :: |col| <= i < |r| ==> r[i] != '\'')
      && r[|col| + 3..] == IntText(n)
      && ParseInt(r[|col| + 3..]) == n
  {
    ToSqlRendersCondition(f);
    UnquotedNumeral(FilterToSql(f), col, n);
  }

  /** `col = <numeral>` has no quote after the column and reads back as the integer. */
  lemma UnquotedNumeral(r: string, col: string, n: int)
    requires r == ConditionText(Equals(col, IntLit(n)))
    ensures && StartsWith(r, col + " = ")
            && (forall i :: |col| <= i < |r| ==> r[i] != '\'')
            && r[|col| + 3..] == IntText(n)
            && ParseInt(r[|col| + 3..]) == n
  {
    assert r == (col + " = ") + IntText(n);
    assert r[|col| + 3..] == IntText(n);
    ParseIntText(n);
  }

  /** A boolean predicate renders `col = true` or `col = false`, unquoted. */
  lemma BoolPredicateUnquoted(f: Filter, col: string, b: bool)
    requires FilterCondition(f) == Equals(col, BoolLit(b))
    ensures FilterToSql(f) == col + (if b then " = true" else " = false")
  {
    ToSqlRendersCondition(f);
  }
}
