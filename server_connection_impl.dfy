/** The session and authorization layer (server_connection_impl.rs): who may
    do what, the registration and login checks in the order the source makes
    them, and the `ServerConnection` object that holds the signed-in user and
    runs every operation against the driver. Hashing and verifying passwords
    are the parameters `hash` and `verify`; the salt and the calendar month
    are arguments. */
module Server {
  import opened Results
  import opened Text
  import opened Filters
  import opened TableModels
  import TN = TableNames
  import opened SqliteConn
  import opened DbDriver

  // ---------------------------------------------------------------------------
  // Roles of the signed-in user

  /** `role.to_lowercase() == r` for the signed-in user, false when signed out. */
  predicate HasRole(session: Option<User>, r: string) {
    session.Some? && AsciiLower(session.value.role) == r
  }

  predicate IsAdmin(session: Option<User>) { HasRole(session, "admin") }
  predicate IsTeacher(session: Option<User>) { HasRole(session, "teacher") }
  predicate IsStudent(session: Option<User>) { HasRole(session, "student") }

  /** At most one of `is_admin`, `is_teacher` and `is_student` holds, and
      none without a session; each ignores the case of the stored role. */
  lemma RolesExclusive(session: Option<User>)
    ensures !(IsAdmin(session) && IsTeacher(session))
    ensures !(IsAdmin(session) && IsStudent(session))
    ensures !(IsTeacher(session) && IsStudent(session))
    ensures session.None? ==> !IsAdmin(session) && !IsTeacher(session) && !IsStudent(session)
    ensures session.Some? && session.value.role == "ADMIN" ==> IsAdmin(session)
  {
    if session.Some? && session.value.role == "ADMIN" {
      assert AsciiLower("ADMIN") == "admin";
    }
  }

  // ---------------------------------------------------------------------------
  // Registration checks

  /** A character the local part of the email pattern admits: `[a-z0-9_+.]`. */
  predicate IsLocalChar(c: char) {
    'a' <= c <= 'z' || IsDigit(c) || c == '_' || c == '+' || c == '.'
  }

  /** `[a-z0-9_+]([a-z0-9_+.]*[a-z0-9_+])?`: admitted characters, not
      starting or ending with a dot. */
  predicate IsLocalPart(l: string) {
    && |l| >= 1
    && (forall i :: 0 <= i < |l| ==> IsLocalChar(l[i]))
    && l[0] != '.' && l[|l| - 1] != '.'
  }

  const AubgDomain := "@aubg.edu"

  /** The email pattern `^([a-z0-9_+]([a-z0-9_+.]*[a-z0-9_+])?)@aubg\.edu$`.
      The local part cannot hold `@`, so the split is the last nine characters. */
  predicate IsAubgEmail(s: string) {
    |s| > |AubgDomain| && s[|s| - |AubgDomain|..] == AubgDomain && IsLocalPart(s[..|s| - |AubgDomain|])
  }

  /** An email the pattern accepts is already lower case, so the duplicate
      check's lowercasing finds exactly the stored address. */
  lemma AubgEmailIsLowerCase(s: string)
    requires IsAubgEmail(s)
    ensures AsciiLower(s) == s
  {
    var n := |s| - |AubgDomain|;
    forall i | 0 <= i < |s|
      ensures LowerChar(s[i]) == s[i]
    {
      if i < n {
        assert s[..n][i] == s[i];
        assert IsLocalChar(s[..n][i]);
      } else {
        assert s[i] == AubgDomain[i - n];
      }
    }
  }

  predicate IsSeparator(c: char) {
    c == '-' || c == '.' || c == ' '
  }

  /** `[-. ]?[0-9]{4}$` */
  predicate LastGroup(t: string) {
    (|t| == 4 && AllDigits(t)) || (|t| == 5 && IsSeparator(t[0]) && AllDigits(t[1..]))
  }

  /** `[0-9]{4}[-. ]?[0-9]{4}$` */
  predicate MiddleGroups(r: string) {
    |r| >= 4 && AllDigits(r[..4]) && LastGroup(r[4..])
  }

  /** `[0-9]{2}[-. ]?[0-9]{4}[-. ]?[0-9]{4}$` */
  predicate PhoneBody(b: string) {
    && |b| >= 2 && AllDigits(b[..2])
    && (MiddleGroups(b[2..]) || (|b| > 2 && IsSeparator(b[2]) && MiddleGroups(b[3..])))
  }

  /** The phone pattern `^\+?[0-9]{2}[-. ]?[0-9]{4}[-. ]?[0-9]{4}$`. */
  predicate IsPhone(s: string) {
    PhoneBody(s) || (|s| > 0 && s[0] == '+' && PhoneBody(s[1..]))
  }

  /** A phone number the pattern accepts has ten digits and 10 to 13
      characters in all. */
  lemma PhoneLength(s: string)
    requires IsPhone(s)
    ensures 10 <= |s| <= 13
  {
  }

  predicate IsSpecial(c: char) {
    c == '@' || c == '$' || c == '!' || c == '%' || c == '*' || c == '?' || c == '&'
  }

  /** The password rules: at least 8 bytes of UTF-8 and at least one ASCII
      lower-case letter, upper-case letter, digit and one of `@$!%*?&`. */
  predicate StrongPassword(p: string) {
    && Utf8Len(p) >= 8
    && (exists i :: 0 <= i < |p| && IsAsciiLower(p[i]))
    && (exists i :: 0 <= i < |p| && IsAsciiUpper(p[i]))
    && (exists i :: 0 <= i < |p| && IsDigit(p[i]))
    && (exists i :: 0 <= i < |p| && IsSpecial(p[i]))
  }

  /** The four required character classes are disjoint, so a strong password
      holds at least four characters, and an all-ASCII one at least eight;
      eight bytes of other text may still be fewer than eight characters. */
  lemma StrongPasswordShape(p: string)
    requires StrongPassword(p)
    ensures |p| >= 4
    ensures (forall i :: 0 <= i < |p| ==> p[i] as int < 0x80) ==> |p| >= 8
  {
    var a :| 0 <= a < |p| && IsAsciiLower(p[a]);
    var b :| 0 <= b < |p| && IsAsciiUpper(p[b]);
    var c :| 0 <= c < |p| && IsDigit(p[c]);
    var d :| 0 <= d < |p| && IsSpecial(p[d]);
    assert a != b && a != c && a != d && b != c && b != d && c != d;
  }

  // ---------------------------------------------------------------------------
  // Reading through the driver

  /** The records of one kind among `rs` (`filter_map` with `if let`). */
  function Pick<T>(rs: seq<ReceiverType>, f: ReceiverType -> Option<T>): (r: seq<T>)
    ensures |r| <= |rs|
  {
    if rs == [] then []
    else (match f(rs[0]) case Some(x) => [x] case None => []) + Pick(rs[1..], f)
  }

  function AsUser(r: ReceiverType): Option<User> {
    if r.UserRow? then Some(r.user) else None
  }

  function AsCourse(r: ReceiverType): Option<Courses> {
    if r.CourseRow? then Some(r.course) else None
  }

  function AsDepartment(r: ReceiverType): Option<Departments> {
    if r.DepartmentRow? then Some(r.department) else None
  }

  function AsTeacherAccount(r: ReceiverType): Option<TeacherAccount> {
    if r.TeacherAccountRow? then Some(r.teacher) else None
  }

  function AsStudentAccount(r: ReceiverType): Option<StudentAccount> {
    if r.StudentAccountRow? then Some(r.account) else None
  }

  function AsEnrolment(r: ReceiverType): Option<StudentCourse> {
    if r.StudentCourseRow? then Some(r.enrolment) else None
  }

  /** `find` with a cursor that does not fail, then `filter_map`. */
  function FindAs<T>(st: Store, t: TN.Table, filters: seq<Filter>, f: ReceiverType -> Option<T>): Result<seq<T>> {
    match FindSpec(st, t, filters, None, None)
    case Err(e) => Err(e)
    case Ok(rs) => Ok(Pick(rs, f))
  }

  /** `get_users_by_filters`. */
  function FindUsers(st: Store, filters: seq<Filter>): Result<seq<User>> {
    FindAs(st, TN.Users, filters, AsUser)
  }

  /** A batch of one statement is that statement. */
  lemma ApplyOne(st: Store, r: ReceiverType, a: Action)
    ensures ApplyAll(st, [r], a) == Exec(st, r, a)
  {
    assert [r][1..] == [];
  }

  /** Without cursor errors and with every column known, the users found are
      exactly the stored users the conditions select. */
  lemma FoundUsers(st: Store, filters: seq<Filter>)
    requires TableFits(st, TN.Users)
    requires MissingColumn(TN.Users, Conditions(filters)).None?
    ensures FindUsers(st, filters).Ok?
    ensures forall u :: u in FindUsers(st, filters).value <==>
      u in st.users && Selected(UserRow(u), Conditions(filters), And)
  {
    FoundAs(st, TN.Users, filters, AsUser);
    forall u: User {
      UserSelectedRow(st, Conditions(filters), u);
    }
  }

  lemma UserSelectedRow(st: Store, conds: seq<Condition>, u: User)
    ensures (exists r :: r in TableRows(st, TN.Users) && Selected(r, conds, And) && AsUser(r) == Some(u))
      <==> u in st.users && Selected(UserRow(u), conds, And)
  {
    if u in st.users {
      var i :| 0 <= i < |st.users| && st.users[i] == u;
      assert TableRows(st, TN.Users)[i] == UserRow(u);
      assert AsUser(UserRow(u)) == Some(u);
    }
    if exists r :: r in TableRows(st, TN.Users) && Selected(r, conds, And) && AsUser(r) == Some(u) {
      var r :| r in TableRows(st, TN.Users) && Selected(r, conds, And) && AsUser(r) == Some(u);
      assert KindOf(r) == TN.Users;
      assert r == UserRow(u);
    }
  }

  lemma EmailColumn()
    ensures ColumnIndex(Columns(TN.Users), "email") == Some(3)
  {
    var cols := Columns(TN.Users);
    assert cols[1..][1..][1..][0] == "email";
  }

  lemma CompareText(a: string, b: string)
    ensures Compare(TextValue(a), TextLit(b)) <==> a == b
  {
  }

  lemma EmailCell(u: User)
    ensures EncodeRow(UserRow(u))[3] == TextValue(u.email)
  {
  }

  lemma EmailHolds(u: User, email: string)
    ensures Holds(Equals("email", TextLit(email)), UserRow(u)) <==> u.email == email
  {
    EmailColumn();
    EmailCell(u);
    CompareText(u.email, email);
  }

  /** The email filter selects the users with exactly that email. */
  lemma EmailSelects(u: User, email: string)
    ensures MissingColumn(TN.Users, Conditions([OnUsers(Email(email))])).None?
    ensures Selected(UserRow(u), Conditions([OnUsers(Email(email))]), And) <==> u.email == email
  {
    EmailCondition(email);
    EmailHolds(u, email);
    assert Columns(TN.Users)[3] == "email";
    SingleCondition(TN.Users, UserRow(u), Equals("email", TextLit(email)));
  }

  lemma EmailCondition(email: string)
    ensures Conditions([OnUsers(Email(email))]) == [Equals("email", TextLit(email))]
  {
    OneCondition(OnUsers(Email(email)));
  }

  /** One condition on an existing column: the query prepares, and a row is
      selected exactly when the condition holds of it. */
  lemma OneCondition(f: Filter)
    ensures Conditions([f]) == [FilterCondition(f)]
  {
  }

  lemma SingleCondition(t: TN.Table, r: ReceiverType, c: Condition)
    requires c.Equals? && c.column in Columns(t)
    ensures MissingColumn(t, [c]).None?
    ensures Selected(r, [c], And) <==> Holds(c, r)
  {
  }

  lemma {:induction false} PickMembers<T>(rs: seq<ReceiverType>, f: ReceiverType -> Option<T>)
    ensures forall x :: x in Pick(rs, f) <==> exists i :: 0 <= i < |rs| && f(rs[i]) == Some(x)
  {
    if rs != [] {
      PickMembers(rs[1..], f);
      forall x
        ensures x in Pick(rs, f) <==> exists i :: 0 <= i < |rs| && f(rs[i]) == Some(x)
      {
        if x in Pick(rs[1..], f) {
          var j :| 0 <= j < |rs[1..]| && f(rs[1..][j]) == Some(x);
          assert f(rs[j + 1]) == Some(x);
        }
        if exists i :: 0 <= i < |rs| && f(rs[i]) == Some(x) {
          var i :| 0 <= i < |rs| && f(rs[i]) == Some(x);
          if i > 0 {
            assert f(rs[1..][i - 1]) == Some(x);
          }
        }
      }
    }
  }

  // ---------------------------------------------------------------------------
  // What each operation does to the store

  /** `register_user`: signed out only; then, in order, the duplicate check
      on the lower-cased email, the user name, the email pattern, the phone
      pattern when a phone is given, and the password rules; only then is the
      user inserted with the password hashed. */
  function RegisterSpec(st: Store, session: Option<User>, user: User, salt: string,
                        hash: (string, string) -> string): (ex: Executed)
    ensures ex.outcome.Pass? ==>
      && session.None? && user.username != "" && IsAubgEmail(user.email)
      && (user.phone == "" || IsPhone(user.phone)) && StrongPassword(user.password)
    ensures ex.store != st ==> session.None?
  {
    if session.Some? then Executed(st, Fail(AlreadySignedIn))
    else match FindUsers(st, [OnUsers(Email(AsciiLower(user.email)))])
      case Err(e) => Executed(st, Fail(e))
      case Ok(same) =>
        if |same| > 0 then Executed(st, Fail(Conflict))
        else if user.username == "" then Executed(st, Fail(ValidationFailed(EmptyUsername)))
        else if !IsAubgEmail(user.email) then Executed(st, Fail(ValidationFailed(BadEmail)))
        else if !IsPhone(user.phone) && user.phone != "" then Executed(st, Fail(ValidationFailed(BadPhone)))
        else if !StrongPassword(user.password) then Executed(st, Fail(ValidationFailed(WeakPassword)))
        else ApplyAll(st, [UserRow(user.(password := hash(user.password, salt)))], Insert)
  }

  /** Registration writes only when every check passes, and then inserts
      the user with the hashed password; any refusal leaves the store as it
      was. */
  lemma RegisterWritesOnlyValidUsers(st: Store, session: Option<User>, user: User, salt: string,
                                     hash: (string, string) -> string)
    ensures var ex := RegisterSpec(st, session, user, salt, hash);
      ex.store != st ==>
        && session.None?
        && FindUsers(st, [OnUsers(Email(AsciiLower(user.email)))]) == Ok([])
        && user.username != "" && IsAubgEmail(user.email)
        && (user.phone == "" || IsPhone(user.phone)) && StrongPassword(user.password)
        && ex == Exec(st, UserRow(user.(password := hash(user.password, salt))), Insert)
  {
    var row := UserRow(user.(password := hash(user.password, salt)));
    ApplyOne(st, row, Insert);
    RefusedStatementKeepsStore(st, row, Insert);
  }

  /** The duplicate check comes first: when a stored user already has the
      lower-cased email, registration is refused as a conflict whatever the
      other fields hold. */
  lemma RegisterRejectsDuplicates(st: Store, v: User, user: User, salt: string,
                                  hash: (string, string) -> string)
    requires TableFits(st, TN.Users) && v in st.users && v.email == AsciiLower(user.email)
    ensures RegisterSpec(st, None, user, salt, hash) == Executed(st, Fail(Conflict))
  {
    var filters := [OnUsers(Email(AsciiLower(user.email)))];
    EmailSelects(v, AsciiLower(user.email));
    FoundUsers(st, filters);
    assert v in FindUsers(st, filters).value;
  }

  /** The first matching user passes login only if not suspended, not
      required to change the password, and the password verifies against
      the stored hash; the checks come in that order. */
  function LoginSpec(st: Store, email: string, password: string, verify: (string, string) -> bool): (r: Result<User>)
    ensures r.Ok? ==> !r.value.suspended && !r.value.forcenewpw && verify(r.value.password, password)
  {
    match FindUsers(st, [OnUsers(Email(email))])
    case Err(e) => Err(e)
    case Ok(us) =>
      if |us| == 0 then Err(NotFound)
      else if us[0].suspended then Err(UserSuspended)
      else if us[0].forcenewpw then Err(MustChangePassword)
      else if verify(us[0].password, password) then Ok(us[0])
      else Err(InvalidCredential)
  }

  /** Login succeeds exactly for a stored, active user whose password
      verifies; the email is matched as given, and an existing session does
      not stop it. Emails are unique, so the user found is the only
      candidate. */
  lemma LoginAdmitsActiveUsers(st: Store, email: string, password: string, verify: (string, string) -> bool)
    requires UsersValid(st.users, st.userSeq) && TableFits(st, TN.Users)
    ensures LoginSpec(st, email, password, verify).Ok? <==>
      exists u :: u in st.users && u.email == email && !u.suspended && !u.forcenewpw && verify(u.password, password)
    ensures LoginSpec(st, email, password, verify).Ok? ==>
      LoginSpec(st, email, password, verify).value in st.users
      && LoginSpec(st, email, password, verify).value.email == email
    ensures LoginSpec(st, email, password, verify) == Err(NotFound) <==> forall u :: u in st.users ==> u.email != email
  {
    var filters := [OnUsers(Email(email))];
    forall u: User { EmailSelects(u, email); }
    FoundUsers(st, filters);
    var us := FindUsers(st, filters).value;
    if |us| > 0 {
      assert us[0] in us;
      forall u | u in st.users && u.email == email
        ensures u == us[0]
      {
        SameEmailSameUser(st.users, st.userSeq, u, us[0]);
      }
    }
  }

  /** Two stored users with one email are the same user. */
  lemma SameEmailSameUser(users: seq<User>, counter: int, u: User, v: User)
    requires UsersValid(users, counter) && u in users && v in users && u.email == v.email
    ensures u == v
  {
    var i :| 0 <= i < |users| && users[i] == u;
    var j :| 0 <= j < |users| && users[j] == v;
    assert UserEmail(users[i]) == UserEmail(users[j]);
  }

  /** Two stored users with one id are the same user. */
  lemma SameIdSameUser(users: seq<User>, counter: int, u: User, v: User)
    requires UsersValid(users, counter) && u in users && v in users && u.id == v.id
    ensures u == v
  {
    var i :| 0 <= i < |users| && users[i] == u;
    var j :| 0 <= j < |users| && users[j] == v;
    assert UserId(users[i]) == UserId(users[j]);
  }

  lemma StoredHasKey(users: seq<User>, u: User)
    requires u in users
    ensures HasKey(users, UserId, u.id)
  {
    var i :| 0 <= i < |users| && users[i] == u;
    assert UserId(users[i]) == u.id;
  }

  /** Emails are unique, so the email lookup finds exactly the user who has it. */
  lemma FoundByEmail(st: Store, u: User)
    requires UsersValid(st.users, st.userSeq) && TableFits(st, TN.Users) && u in st.users
    ensures FindUsers(st, [OnUsers(Email(u.email))]).Ok?
    ensures FindUsers(st, [OnUsers(Email(u.email))]).value == [u]
  {
    var filters := [OnUsers(Email(u.email))];
    forall v: User { EmailSelects(v, u.email); }
    FoundUsers(st, filters);
    var us := FindUsers(st, filters).value;
    FindReturnsSelection(st, TN.Users, filters, None);
    var rs := FindSpec(st, TN.Users, filters, None, None).value;
    var rows := TableRows(st, TN.Users);
    var i :| 0 <= i < |st.users| && st.users[i] == u;
    assert rows[i] == UserRow(u);
    forall j | 0 <= j < |rows| && j != i
      ensures !Selected(rows[j], Conditions(filters), And)
    {
      assert rows[j] == UserRow(st.users[j]);
      assert UserEmail(st.users[i]) != UserEmail(st.users[j]);
    }
    SelectOnlyOne(rows, Conditions(filters), i);
  }

  /** When only row `i` is selected, the selection is that row alone. */
  lemma {:induction false} SelectOnlyOne(rows: seq<ReceiverType>, conds: seq<Condition>, i: nat)
    requires i < |rows| && Selected(rows[i], conds, And)
    requires forall j :: 0 <= j < |rows| && j != i ==> !Selected(rows[j], conds, And)
    ensures SelectWhere(rows, conds, And) == [rows[i]]
  {
    var rest := rows[1..];
    if i == 0 {
      forall j | 0 <= j < |rest|
        ensures !Selected(rest[j], conds, And)
      {
        assert rest[j] == rows[j + 1];
      }
      SelectNone(rest, conds);
    } else {
      forall j | 0 <= j < |rest| && j != i - 1
        ensures !Selected(rest[j], conds, And)
      {
        assert rest[j] == rows[j + 1];
      }
      SelectOnlyOne(rest, conds, i - 1);
    }
  }

  lemma {:induction false} SelectNone(rows: seq<ReceiverType>, conds: seq<Condition>)
    requires forall j :: 0 <= j < |rows| ==> !Selected(rows[j], conds, And)
    ensures SelectWhere(rows, conds, And) == []
  {
    if rows != [] {
      assert forall j :: 0 <= j < |rows[1..]| ==> rows[1..][j] == rows[j + 1];
      SelectNone(rows[1..], conds);
    }
  }

  /** Login looks at a stored user's flags before the password: suspension
      first, then the forced password change, and only then the hash. */
  lemma LoginChecksInOrder(st: Store, u: User, password: string, verify: (string, string) -> bool)
    requires UsersValid(st.users, st.userSeq) && TableFits(st, TN.Users) && u in st.users
    ensures u.suspended ==> LoginSpec(st, u.email, password, verify) == Err(UserSuspended)
    ensures !u.suspended && u.forcenewpw ==> LoginSpec(st, u.email, password, verify) == Err(MustChangePassword)
    ensures !u.suspended && !u.forcenewpw ==>
      LoginSpec(st, u.email, password, verify) ==
        (if verify(u.password, password) then Ok(u) else Err(InvalidCredential))
  {
    FoundByEmail(st, u);
  }

  /** The stored hash is kept when the given password is empty or already an
      argon2id hash; otherwise the given password is hashed. */
  function NewPassword(given: string, stored: string, salt: string, hash: (string, string) -> string): (r: string)
    ensures given == "" || StartsWith(given, "$argon2id") ==> r == stored
    ensures given != "" && !StartsWith(given, "$argon2id") ==> r == hash(given, salt)
  {
    if given == "" || StartsWith(given, "$argon2id") then stored else hash(given, salt)
  }

  /** `update_user`: signed in; the user looked up by id; a non-admin may not
      change suspended, verified or role, in that order; the password as
      `NewPassword` says. A non-admin is not limited to their own record. */
  function UpdateUserSpec(st: Store, session: Option<User>, user: User, salt: string,
                          hash: (string, string) -> string): (ex: Executed)
    ensures ex.store != st ==> session.Some?
    ensures ex.outcome.Fail? && ex.outcome.error.ValidationFailed? ==> ex.store == st && !IsAdmin(session)
  {
    if session.None? then Executed(st, Fail(Unauthenticated))
    else match FindUsers(st, [OnUsers(UsersFilter.Id(user.id))])
      case Err(e) => Executed(st, Fail(e))
      case Ok(us) =>
        if |us| == 0 then Executed(st, Fail(NotFound))
        else
          var stored := us[0];
          if !IsAdmin(session) && user.suspended != stored.suspended then
            Executed(st, Fail(ValidationFailed(SuspendedChanged)))
          else if !IsAdmin(session) && user.verified != stored.verified then
            Executed(st, Fail(ValidationFailed(VerifiedChanged)))
          else if !IsAdmin(session) && user.role != stored.role then
            Executed(st, Fail(ValidationFailed(RoleChanged)))
          else
            ApplyAll(st, [UserRow(user.(password := NewPassword(user.password, stored.password, salt, hash)))], Update)
  }

  /** A non-admin's update leaves suspended, verified and role as stored; the
      outcome does not depend on which non-admin is signed in. */
  lemma NonAdminUpdateProtectsFlags(st: Store, s: User, other: User, user: User, salt: string,
                                    hash: (string, string) -> string)
    requires !IsAdmin(Some(s)) && !IsAdmin(Some(other))
    ensures var ex := UpdateUserSpec(st, Some(s), user, salt, hash);
      && ex == UpdateUserSpec(st, Some(other), user, salt, hash)
      && (ex.store != st ==>
            FindUsers(st, [OnUsers(UsersFilter.Id(user.id))]).Ok?
            && |FindUsers(st, [OnUsers(UsersFilter.Id(user.id))]).value| > 0
            && var stored := FindUsers(st, [OnUsers(UsersFilter.Id(user.id))]).value[0];
               user.suspended == stored.suspended && user.verified == stored.verified && user.role == stored.role)
  {
  }

  /** `delete_user`: an admin deletes any user but themselves; anyone else
      only themselves. */
  function DeleteUserSpec(st: Store, session: Option<User>, user: User): (ex: Executed)
    ensures ex.store != st ==> session.Some? && (IsAdmin(session) <==> user.id != session.value.id)
  {
    if session.None? then Executed(st, Fail(Unauthenticated))
    else if IsAdmin(session) then
      if user.id != session.value.id then ApplyAll(st, [UserRow(user)], Delete) else Executed(st, Fail(Forbidden))
    else if user.id == session.value.id then ApplyAll(st, [UserRow(user)], Delete)
    else Executed(st, Fail(Forbidden))
  }

  /** A deletion happens exactly when the signed-in user is an admin deleting
      someone else, or a non-admin deleting their own account; otherwise the
      store is untouched. */
  lemma DeleteUserPermission(st: Store, session: Option<User>, user: User)
    ensures var ex := DeleteUserSpec(st, session, user);
      (session.None? || (IsAdmin(session) <==> user.id == session.value.id)) ==>
        ex == Executed(st, Fail(if session.None? then Unauthenticated else Forbidden))
    ensures var ex := DeleteUserSpec(st, session, user);
      !(session.None? || (IsAdmin(session) <==> user.id == session.value.id)) ==>
        ex == Exec(st, UserRow(user), Delete)
  {
    ApplyOne(st, UserRow(user), Delete);
  }

  function CourseRows(courses: seq<Courses>): (r: seq<ReceiverType>)
    ensures |r| == |courses|
    ensures forall i :: 0 <= i < |courses| ==> r[i] == CourseRow(courses[i])
  {
    seq(|courses|, i requires 0 <= i < |courses| => CourseRow(courses[i]))
  }

  /** A course in the batch the teacher `s` does not teach. */
  predicate ForeignCourse(s: User, courses: seq<Courses>) {
    exists i :: 0 <= i < |courses| && courses[i].teacherId != s.id
  }

  /** `register_courses` (Insert), `remove_courses` (Delete) and
      `update_courses` (Update): an admin unrestricted, a teacher only for a
      batch that is wholly theirs, anyone else refused. */
  function CourseBatchSpec(st: Store, session: Option<User>, courses: seq<Courses>, a: Action): (ex: Executed)
    ensures ex.store != st ==> IsAdmin(session) || IsTeacher(session)
    ensures ex.store.users == st.users
  {
    if session.None? then Executed(st, Fail(Unauthenticated))
    else if IsAdmin(session) then ApplyAll(st, CourseRows(courses), a)
    else if IsTeacher(session) then
      if ForeignCourse(session.value, courses) then Executed(st, Fail(Forbidden))
      else ApplyAll(st, CourseRows(courses), a)
    else Executed(st, Fail(Forbidden))
  }

  /** A teacher's batch is all or nothing: one foreign course and nothing is
      written; otherwise every course goes through in order, exactly as an
      admin's would. */
  lemma TeacherBatchAllOrNothing(st: Store, s: User, courses: seq<Courses>, a: Action)
    requires IsTeacher(Some(s))
    ensures ForeignCourse(s, courses) ==> CourseBatchSpec(st, Some(s), courses, a) == Executed(st, Fail(Forbidden))
    ensures !ForeignCourse(s, courses) ==>
      && CourseBatchSpec(st, Some(s), courses, a) == ApplyAll(st, CourseRows(courses), a)
      && (forall i :: 0 <= i < |courses| ==> courses[i].teacherId == s.id)
    ensures !IsAdmin(Some(s))
  {
    RolesExclusive(Some(s));
  }

  /** Course statements are never refused by the store, so an authorized
      batch always completes. */
  lemma {:induction false} CourseBatchCompletes(st: Store, courses: seq<Courses>, a: Action)
    ensures ApplyAll(st, CourseRows(courses), a).outcome == Pass
    decreases |courses|
  {
    if courses != [] {
      assert CourseRows(courses)[1..] == CourseRows(courses[1..]);
      CourseBatchCompletes(Exec(st, CourseRow(courses[0]), a).store, courses[1..], a);
    }
  }

  /** Admin-only operations: `new_department` (a department named `name`,
      its id left to the store), `remove_department` and
      `update_teacher_account`. */
  function AdminOnlySpec(st: Store, session: Option<User>, r: ReceiverType, a: Action): (ex: Executed)
    ensures ex.store != st ==> IsAdmin(session)
  {
    if session.None? then Executed(st, Fail(Unauthenticated))
    else if IsAdmin(session) then ApplyAll(st, [r], a)
    else Executed(st, Fail(Forbidden))
  }

  /** Non-admins change nothing through the admin-only operations. */
  lemma AdminOnlyGuards(st: Store, session: Option<User>, r: ReceiverType, a: Action)
    ensures !IsAdmin(session) ==>
      AdminOnlySpec(st, session, r, a).store == st && AdminOnlySpec(st, session, r, a).outcome.Fail?
    ensures IsAdmin(session) ==> AdminOnlySpec(st, session, r, a) == Exec(st, r, a)
  {
    ApplyOne(st, r, a);
  }

  /** `transmute_course_to_student_course`: the signed-in student, the
      course, no grade yet (-1.0), and the semester by the month. */
  function Transmute(s: User, c: Courses, month: int): (e: StudentCourse)
    ensures e.studentId == s.id && e.courseId == c.id && e.grade == -1.0
    ensures e.semester == (if 6 <= month <= 12 then "Fall" else "Spring")
  {
    StudentCourse(s.id, c.id, -1.0, if 6 <= month <= 12 then "Fall" else "Spring")
  }

  function EnrolmentRows(s: User, courses: seq<Courses>, month: int): (r: seq<ReceiverType>)
    ensures |r| == |courses|
    ensures forall i :: 0 <= i < |courses| ==> r[i] == StudentCourseRow(Transmute(s, courses[i], month))
  {
    seq(|courses|, i requires 0 <= i < |courses| => StudentCourseRow(Transmute(s, courses[i], month)))
  }

  /** The ownership check of `enroll_courses` and `drop_courses`: a derived
      row whose student is not the signed-in user. */
  predicate ForeignEnrolment(s: User, courses: seq<Courses>, month: int) {
    exists i :: 0 <= i < |courses| && Transmute(s, courses[i], month).studentId != s.id
  }

  /** `enroll_courses` (Insert) and `drop_courses` (Delete): students only. */
  function EnrolSpec(st: Store, session: Option<User>, courses: seq<Courses>, month: int, a: Action): (ex: Executed)
    ensures ex.store != st ==> IsStudent(session)
    ensures ex.store.users == st.users
  {
    if session.None? then Executed(st, Fail(Unauthenticated))
    else if IsStudent(session) then
      if ForeignEnrolment(session.value, courses, month) then Executed(st, Fail(Forbidden))
      else ApplyAll(st, EnrolmentRows(session.value, courses, month), a)
    else Executed(st, Fail(Forbidden))
  }

  /** The ownership check never fires: every derived row is the signed-in
      student's, so a student's batch always reaches the store. */
  lemma EnrolOwnershipNeverFails(st: Store, s: User, courses: seq<Courses>, month: int, a: Action)
    requires IsStudent(Some(s))
    ensures !ForeignEnrolment(s, courses, month)
    ensures EnrolSpec(st, Some(s), courses, month, a) == ApplyAll(st, EnrolmentRows(s, courses, month), a)
  {
  }

  /** `list_enrollments`: a student's own enrolments. */
  function ListEnrolmentsSpec(st: Store, session: Option<User>): (r: Result<seq<StudentCourse>>)
    ensures r.Ok? ==> IsStudent(session)
    ensures session.None? ==> r == Err(Unauthenticated)
  {
    if session.None? then Err(Unauthenticated)
    else if IsStudent(session) then
      FindAs(st, TN.StudentCourses, [OnStudentCourses(StudentCoursesFilter.StudentId(session.value.id))], AsEnrolment)
    else Err(Forbidden)
  }

  /** `get_student_standing`: the first student account whose student_id is
      the signed-in user's; none is a panic (`student[0]`). */
  function StandingSpec(st: Store, session: Option<User>): (r: Result<StudentAccount>)
    ensures r.Ok? ==> IsStudent(session)
    ensures r == Err(IndexOutOfBounds) ==> IsStudent(session)
  {
    if session.None? then Err(Unauthenticated)
    else if IsStudent(session) then
      match FindAs(st, TN.StudentAccount, [OnStudentAccount(StudentAccountFilter.StudentId(session.value.id))], AsStudentAccount)
      case Err(e) => Err(e)
      case Ok(accounts) => if |accounts| == 0 then Err(IndexOutOfBounds) else Ok(accounts[0])
    else Err(Forbidden)
  }

  /** `get_department`: the first department with the id, or not found. */
  function DepartmentSpec(st: Store, id: int): Result<Departments> {
    match FindAs(st, TN.Departments, [OnDepartments(DepartmentsFilter.Id(id))], AsDepartment)
    case Err(e) => Err(e)
    case Ok(ds) => if |ds| == 0 then Err(NotFound) else Ok(ds[0])
  }

  function FilterUsers(us: seq<User>, query: string): (r: seq<User>)
    ensures forall u :: u in r <==> u in us && (Contains(u.email, query) || Contains(IntText(u.id), query))
  {
    if us == [] then []
    else
      (if Contains(us[0].email, query) || Contains(IntText(us[0].id), query) then [us[0]] else [])
      + FilterUsers(us[1..], query)
  }

  function FilterCourses(cs: seq<Courses>, query: string): (r: seq<Courses>)
    ensures forall c :: c in r <==> c in cs && Contains(IntText(c.id), query)
  {
    if cs == [] then [] else (if Contains(IntText(cs[0].id), query) then [cs[0]] else []) + FilterCourses(cs[1..], query)
  }

  /** `search_users`: every user whose email or decimal id contains the query. */
  function SearchUsersSpec(st: Store, query: string): (r: Result<seq<User>>)
    ensures r.Ok? ==> forall u :: u in r.value ==> Contains(u.email, query) || Contains(IntText(u.id), query)
  {
    match FindUsers(st, [])
    case Err(e) => Err(e)
    case Ok(us) => Ok(FilterUsers(us, query))
  }

  /** `search_courses`: every course whose decimal id contains the query. */
  function SearchCoursesSpec(st: Store, query: string): (r: Result<seq<Courses>>)
    ensures r.Ok? ==> forall c :: c in r.value ==> Contains(IntText(c.id), query)
  {
    match FindAs(st, TN.Courses, [], AsCourse)
    case Err(e) => Err(e)
    case Ok(cs) => Ok(FilterCourses(cs, query))
  }

  /** The search reads every stored user and keeps exactly those whose email
      or id text contains the query. */
  lemma SearchUsersFindsMatches(st: Store, query: string)
    requires TableFits(st, TN.Users)
    ensures SearchUsersSpec(st, query).Ok?
    ensures forall u :: u in SearchUsersSpec(st, query).value <==>
      u in st.users && (Contains(u.email, query) || Contains(IntText(u.id), query))
  {
    FoundUsers(st, []);
  }

  /** `get_users`: every stored user. */
  function GetUsersSpec(st: Store): Result<seq<User>> {
    FindUsers(st, [])
  }

  /** An integer column equal to an integer literal: the condition holds
      exactly when the stored number is the literal. */
  lemma IntColumnHolds(r: ReceiverType, col: string, k: nat, v: int, n: int)
    requires ColumnIndex(Columns(KindOf(r)), col) == Some(k)
    requires k < |EncodeRow(r)| && EncodeRow(r)[k] == Integer(v)
    ensures Holds(Equals(col, IntLit(n)), r) <==> v == n
  {
  }

  lemma IdColumn()
    ensures ColumnIndex(Columns(TN.Users), "id") == Some(0)
  {
    assert Columns(TN.Users)[0] == "id";
  }

  lemma UserIdCell(u: User)
    ensures KindOf(UserRow(u)) == TN.Users
    ensures 0 < |EncodeRow(UserRow(u))| && EncodeRow(UserRow(u))[0] == Integer(u.id)
  {
  }

  lemma IdHolds(u: User, id: int)
    ensures Holds(Equals("id", IntLit(id)), UserRow(u)) <==> u.id == id
  {
    IdColumn();
    UserIdCell(u);
    IntColumnHolds(UserRow(u), "id", 0, u.id, id);
  }

  lemma EnrolmentStudentColumn()
    ensures ColumnIndex(Columns(TN.StudentCourses), "student_id") == Some(0)
  {
    assert Columns(TN.StudentCourses)[0] == "student_id";
  }

  lemma AccountStudentColumn()
    ensures ColumnIndex(Columns(TN.StudentAccount), "student_id") == Some(1)
  {
    var cols := Columns(TN.StudentAccount);
    assert cols[1..][0] == "student_id";
  }

  lemma EnrolmentStudentCell(e: StudentCourse)
    ensures KindOf(StudentCourseRow(e)) == TN.StudentCourses
    ensures 0 < |EncodeRow(StudentCourseRow(e))| && EncodeRow(StudentCourseRow(e))[0] == Integer(e.studentId)
  {
  }

  lemma AccountStudentCell(a: StudentAccount)
    ensures KindOf(StudentAccountRow(a)) == TN.StudentAccount
    ensures 1 < |EncodeRow(StudentAccountRow(a))| && EncodeRow(StudentAccountRow(a))[1] == Integer(a.studentId)
  {
  }

  lemma EnrolmentStudentHolds(e: StudentCourse, n: int)
    ensures Holds(Equals("student_id", IntLit(n)), StudentCourseRow(e)) <==> e.studentId == n
  {
    EnrolmentStudentColumn();
    EnrolmentStudentCell(e);
    IntColumnHolds(StudentCourseRow(e), "student_id", 0, e.studentId, n);
  }

  lemma AccountStudentHolds(a: StudentAccount, n: int)
    ensures Holds(Equals("student_id", IntLit(n)), StudentAccountRow(a)) <==> a.studentId == n
  {
    AccountStudentColumn();
    AccountStudentCell(a);
    IntColumnHolds(StudentAccountRow(a), "student_id", 1, a.studentId, n);
  }

  /** The id filter selects the user with exactly that id. */
  lemma IdSelects(u: User, id: int)
    ensures MissingColumn(TN.Users, Conditions([OnUsers(UsersFilter.Id(id))])).None?
    ensures Selected(UserRow(u), Conditions([OnUsers(UsersFilter.Id(id))]), And) <==> u.id == id
  {
    var c := Equals("id", IntLit(id));
    OneCondition(OnUsers(UsersFilter.Id(id)));
    IdHolds(u, id);
    assert Columns(TN.Users)[0] == "id";
    SingleCondition(TN.Users, UserRow(u), c);
  }

  /** With every column known, `find` followed by `filter_map` keeps exactly
      the projections of the selected rows. */
  lemma FoundAs<T>(st: Store, t: TN.Table, filters: seq<Filter>, f: ReceiverType -> Option<T>)
    requires TableFits(st, t)
    requires MissingColumn(t, Conditions(filters)).None?
    ensures FindAs(st, t, filters, f).Ok?
    ensures forall x :: x in FindAs(st, t, filters, f).value <==>
      exists r :: r in TableRows(st, t) && Selected(r, Conditions(filters), And) && f(r) == Some(x)
  {
    FindReturnsSelection(st, t, filters, None);
    var rs := FindSpec(st, t, filters, None, None).value;
    PickSelected(rs, TableRows(st, t), Conditions(filters), f);
  }

  /** Projecting a selection keeps exactly the projections of the selected rows. */
  lemma PickSelected<T>(rs: seq<ReceiverType>, rows: seq<ReceiverType>, conds: seq<Condition>, f: ReceiverType -> Option<T>)
    requires forall x :: x in rs <==> x in rows && Selected(x, conds, And)
    ensures forall x :: x in Pick(rs, f) <==> exists r :: r in rows && Selected(r, conds, And) && f(r) == Some(x)
  {
    PickMembers(rs, f);
    forall x
      ensures x in Pick(rs, f) <==> exists r :: r in rows && Selected(r, conds, And) && f(r) == Some(x)
    {
      if x in Pick(rs, f) {
        var i :| 0 <= i < |rs| && f(rs[i]) == Some(x);
        assert rs[i] in rs;
      }
      if exists r :: r in rows && Selected(r, conds, And) && f(r) == Some(x) {
        var r :| r in rows && Selected(r, conds, And) && f(r) == Some(x);
        assert r in rs;
        var i :| 0 <= i < |rs| && rs[i] == r;
      }
    }
  }

  /** An update that gives an empty or already hashed password keeps every
      stored hash of that user; any other password is stored hashed. Admins
      and non-admins alike. */
  lemma PasswordPreservation(st: Store, session: Option<User>, user: User, salt: string,
                             hash: (string, string) -> string)
    requires Valid(st) && TableFits(st, TN.Users)
    ensures var ex := UpdateUserSpec(st, session, user, salt, hash);
      ex.outcome.Pass? && (user.password == "" || StartsWith(user.password, "$argon2id")) ==>
        forall x, y :: x in ex.store.users && y in st.users && x.id == user.id && y.id == user.id ==>
          x.password == y.password
    ensures var ex := UpdateUserSpec(st, session, user, salt, hash);
      ex.outcome.Pass? && user.password != "" && !StartsWith(user.password, "$argon2id")
      && hash(user.password, salt) != "" ==>
        forall x :: x in ex.store.users && x.id == user.id ==> x.password == hash(user.password, salt)
  {
    var ex := UpdateUserSpec(st, session, user, salt, hash);
    if ex.outcome.Pass? {
      var filters := [OnUsers(UsersFilter.Id(user.id))];
      forall u: User { IdSelects(u, user.id); }
      FoundUsers(st, filters);
      var us := FindUsers(st, filters).value;
      assert us[0] in us;
      var stored := us[0];
      var row := user.(password := NewPassword(user.password, stored.password, salt, hash));
      ApplyOne(st, UserRow(row), Update);
      assert ex == UpdateUser(st, row);
      UpdateUserKeepsPassword(st, row);
      StoredHasKey(st.users, stored);
      forall y | y in st.users && y.id == user.id
        ensures y == stored
      {
        SameIdSameUser(st.users, st.userSeq, y, stored);
      }
    }
  }

  lemma EnrolmentStudentSelects(e: StudentCourse, n: int)
    ensures MissingColumn(TN.StudentCourses, Conditions([OnStudentCourses(StudentCoursesFilter.StudentId(n))])).None?
    ensures Selected(StudentCourseRow(e), Conditions([OnStudentCourses(StudentCoursesFilter.StudentId(n))]), And)
      <==> e.studentId == n
  {
    var c := Equals("student_id", IntLit(n));
    OneCondition(OnStudentCourses(StudentCoursesFilter.StudentId(n)));
    EnrolmentStudentHolds(e, n);
    assert Columns(TN.StudentCourses)[0] == "student_id";
    SingleCondition(TN.StudentCourses, StudentCourseRow(e), c);
  }

  lemma AccountStudentSelects(a: StudentAccount, n: int)
    ensures MissingColumn(TN.StudentAccount, Conditions([OnStudentAccount(StudentAccountFilter.StudentId(n))])).None?
    ensures Selected(StudentAccountRow(a), Conditions([OnStudentAccount(StudentAccountFilter.StudentId(n))]), And)
      <==> a.studentId == n
  {
    var c := Equals("student_id", IntLit(n));
    OneCondition(OnStudentAccount(StudentAccountFilter.StudentId(n)));
    AccountStudentHolds(a, n);
    assert Columns(TN.StudentAccount)[1] == "student_id";
    SingleCondition(TN.StudentAccount, StudentAccountRow(a), c);
  }

  lemma EnrolmentRowsAre(st: Store, e: StudentCourse)
    ensures StudentCourseRow(e) in TableRows(st, TN.StudentCourses) <==> e in st.studentCourses
  {
    if e in st.studentCourses {
      var i :| 0 <= i < |st.studentCourses| && st.studentCourses[i] == e;
      assert TableRows(st, TN.StudentCourses)[i] == StudentCourseRow(e);
    }
  }

  lemma AccountRowsAre(st: Store, a: StudentAccount)
    ensures StudentAccountRow(a) in TableRows(st, TN.StudentAccount) <==> a in st.studentAccounts
  {
    if a in st.studentAccounts {
      var i :| 0 <= i < |st.studentAccounts| && st.studentAccounts[i] == a;
      assert TableRows(st, TN.StudentAccount)[i] == StudentAccountRow(a);
    }
  }

  /** The enrolments `find` returns for the student-id filter. */
  lemma FoundEnrolments(st: Store, n: int)
    requires TableFits(st, TN.StudentCourses)
    ensures var r := FindAs(st, TN.StudentCourses, [OnStudentCourses(StudentCoursesFilter.StudentId(n))], AsEnrolment);
      r.Ok? && forall e :: e in r.value <==> e in st.studentCourses && e.studentId == n
  {
    var filters := [OnStudentCourses(StudentCoursesFilter.StudentId(n))];
    EnrolmentStudentSelects(StudentCourse(0, 0, 0.0, ""), n);
    FoundAs(st, TN.StudentCourses, filters, AsEnrolment);
    forall e: StudentCourse {
      EnrolmentSelectedRow(st, n, e);
    }
  }

  lemma EnrolmentSelectedRow(st: Store, n: int, e: StudentCourse)
    ensures (exists r :: r in TableRows(st, TN.StudentCourses)
                       && Selected(r, Conditions([OnStudentCourses(StudentCoursesFilter.StudentId(n))]), And)
                       && AsEnrolment(r) == Some(e))
      <==> e in st.studentCourses && e.studentId == n
  {
    var conds := Conditions([OnStudentCourses(StudentCoursesFilter.StudentId(n))]);
    EnrolmentStudentSelects(e, n);
    EnrolmentRowsAre(st, e);
    if exists r :: r in TableRows(st, TN.StudentCourses) && Selected(r, conds, And) && AsEnrolment(r) == Some(e) {
      var r :| r in TableRows(st, TN.StudentCourses) && Selected(r, conds, And) && AsEnrolment(r) == Some(e);
      assert r == StudentCourseRow(e);
    }
    if e in st.studentCourses && e.studentId == n {
      assert AsEnrolment(StudentCourseRow(e)) == Some(e);
    }
  }

  lemma AccountSelectedRow(st: Store, n: int, a: StudentAccount)
    ensures (exists r :: r in TableRows(st, TN.StudentAccount)
                       && Selected(r, Conditions([OnStudentAccount(StudentAccountFilter.StudentId(n))]), And)
                       && AsStudentAccount(r) == Some(a))
      <==> a in st.studentAccounts && a.studentId == n
  {
    var conds := Conditions([OnStudentAccount(StudentAccountFilter.StudentId(n))]);
    AccountStudentSelects(a, n);
    AccountRowsAre(st, a);
    if exists r :: r in TableRows(st, TN.StudentAccount) && Selected(r, conds, And) && AsStudentAccount(r) == Some(a) {
      var r :| r in TableRows(st, TN.StudentAccount) && Selected(r, conds, And) && AsStudentAccount(r) == Some(a);
      assert r == StudentAccountRow(a);
    }
    if a in st.studentAccounts && a.studentId == n {
      assert AsStudentAccount(StudentAccountRow(a)) == Some(a);
    }
  }

  /** The student accounts `find` returns for the student-id filter. */
  lemma FoundAccounts(st: Store, n: int)
    requires TableFits(st, TN.StudentAccount)
    ensures var r := FindAs(st, TN.StudentAccount, [OnStudentAccount(StudentAccountFilter.StudentId(n))], AsStudentAccount);
      r.Ok? && forall a :: a in r.value <==> a in st.studentAccounts && a.studentId == n
  {
    var filters := [OnStudentAccount(StudentAccountFilter.StudentId(n))];
    AccountStudentSelects(DefaultStudentAccount(0, 0), n);
    FoundAs(st, TN.StudentAccount, filters, AsStudentAccount);
    forall a: StudentAccount {
      AccountSelectedRow(st, n, a);
    }
  }

  /** `get_users` returns every stored user. */
  lemma GetUsersReturnsAll(st: Store)
    requires TableFits(st, TN.Users)
    ensures GetUsersSpec(st).Ok?
    ensures forall u :: u in GetUsersSpec(st).value <==> u in st.users
  {
    FoundUsers(st, []);
  }

  lemma CourseRowsAre(st: Store, c: Courses)
    ensures CourseRow(c) in TableRows(st, TN.Courses) <==> c in st.courses
  {
    if c in st.courses {
      var i :| 0 <= i < |st.courses| && st.courses[i] == c;
      assert TableRows(st, TN.Courses)[i] == CourseRow(c);
    }
  }

  /** The course search reads every stored course and keeps exactly those
      whose id text contains the query. */
  lemma SearchCoursesFindsMatches(st: Store, query: string)
    requires TableFits(st, TN.Courses)
    ensures SearchCoursesSpec(st, query).Ok?
    ensures forall c :: c in SearchCoursesSpec(st, query).value <==>
      c in st.courses && Contains(IntText(c.id), query)
  {
    FoundAs(st, TN.Courses, [], AsCourse);
    forall c: Courses
      ensures (exists r :: r in TableRows(st, TN.Courses) && Selected(r, Conditions([]), And) && AsCourse(r) == Some(c))
        <==> c in st.courses
    {
      CourseRowsAre(st, c);
      if exists r :: r in TableRows(st, TN.Courses) && Selected(r, Conditions([]), And) && AsCourse(r) == Some(c) {
        var r :| r in TableRows(st, TN.Courses) && Selected(r, Conditions([]), And) && AsCourse(r) == Some(c);
        assert r == CourseRow(c);
      }
      if c in st.courses {
        assert AsCourse(CourseRow(c)) == Some(c);
        assert Selected(CourseRow(c), Conditions([]), And);
      }
    }
  }

  lemma DepartmentIdSelects(d: Departments, id: int)
    ensures MissingColumn(TN.Departments, Conditions([OnDepartments(DepartmentsFilter.Id(id))])).None?
    ensures Selected(DepartmentRow(d), Conditions([OnDepartments(DepartmentsFilter.Id(id))]), And) <==> d.id == id
  {
    var c := Equals("id", IntLit(id));
    OneCondition(OnDepartments(DepartmentsFilter.Id(id)));
    DepartmentIdHolds(d, id);
    assert Columns(TN.Departments)[0] == "id";
    SingleCondition(TN.Departments, DepartmentRow(d), c);
  }

  lemma DepartmentIdHolds(d: Departments, id: int)
    ensures Holds(Equals("id", IntLit(id)), DepartmentRow(d)) <==> d.id == id
  {
    assert Columns(TN.Departments)[0] == "id";
    assert ColumnIndex(Columns(TN.Departments), "id") == Some(0);
    assert KindOf(DepartmentRow(d)) == TN.Departments;
    assert EncodeRow(DepartmentRow(d))[0] == Integer(d.id);
    IntColumnHolds(DepartmentRow(d), "id", 0, d.id, id);
  }

  lemma DepartmentRowsAre(st: Store, d: Departments)
    ensures DepartmentRow(d) in TableRows(st, TN.Departments) <==> d in st.departments
  {
    if d in st.departments {
      var i :| 0 <= i < |st.departments| && st.departments[i] == d;
      assert TableRows(st, TN.Departments)[i] == DepartmentRow(d);
    }
  }

  /** The departments `find` returns for the id filter. */
  lemma FoundDepartments(st: Store, id: int)
    requires TableFits(st, TN.Departments)
    ensures var r := FindAs(st, TN.Departments, [OnDepartments(DepartmentsFilter.Id(id))], AsDepartment);
      r.Ok? && forall d :: d in r.value <==> d in st.departments && d.id == id
  {
    var filters := [OnDepartments(DepartmentsFilter.Id(id))];
    DepartmentIdSelects(Departments(0, ""), id);
    FoundAs(st, TN.Departments, filters, AsDepartment);
    forall d: Departments {
      DepartmentSelectedRow(st, id, d);
    }
  }

  lemma DepartmentSelectedRow(st: Store, id: int, d: Departments)
    ensures (exists r :: r in TableRows(st, TN.Departments)
                       && Selected(r, Conditions([OnDepartments(DepartmentsFilter.Id(id))]), And)
                       && AsDepartment(r) == Some(d))
      <==> d in st.departments && d.id == id
  {
    var conds := Conditions([OnDepartments(DepartmentsFilter.Id(id))]);
    DepartmentIdSelects(d, id);
    DepartmentRowsAre(st, d);
    if exists r :: r in TableRows(st, TN.Departments) && Selected(r, conds, And) && AsDepartment(r) == Some(d) {
      var r :| r in TableRows(st, TN.Departments) && Selected(r, conds, And) && AsDepartment(r) == Some(d);
      assert r == DepartmentRow(d);
    }
    if d in st.departments && d.id == id {
      assert AsDepartment(DepartmentRow(d)) == Some(d);
    }
  }

  /** `get_department` returns a stored department with the id, and reports
      not found exactly when there is none. */
  lemma DepartmentLookup(st: Store, id: int)
    requires TableFits(st, TN.Departments)
    ensures DepartmentSpec(st, id).Ok? ==>
      DepartmentSpec(st, id).value in st.departments && DepartmentSpec(st, id).value.id == id
    ensures DepartmentSpec(st, id) == Err(NotFound) <==> forall d :: d in st.departments ==> d.id != id
    ensures DepartmentSpec(st, id).Ok? || DepartmentSpec(st, id) == Err(NotFound)
  {
    FoundDepartments(st, id);
    var ds := FindAs(st, TN.Departments, [OnDepartments(DepartmentsFilter.Id(id))], AsDepartment).value;
    if |ds| > 0 {
      assert ds[0] in ds;
    }
  }

  /** A student lists exactly their own enrolments; other roles are refused. */
  lemma ListEnrolmentsOwn(st: Store, s: User)
    requires TableFits(st, TN.StudentCourses)
    ensures IsStudent(Some(s)) ==>
      ListEnrolmentsSpec(st, Some(s)).Ok?
      && forall e :: e in ListEnrolmentsSpec(st, Some(s)).value <==> e in st.studentCourses && e.studentId == s.id
    ensures !IsStudent(Some(s)) ==> ListEnrolmentsSpec(st, Some(s)) == Err(Forbidden)
    ensures ListEnrolmentsSpec(st, None) == Err(Unauthenticated)
  {
    FoundEnrolments(st, s.id);
  }

  /** A student's standing is an account of theirs; a student without an
      account makes the source panic at `student[0]`. */
  lemma StandingOfStudent(st: Store, s: User)
    requires IsStudent(Some(s)) && TableFits(st, TN.StudentAccount)
    ensures StandingSpec(st, Some(s)).Ok? ==>
      StandingSpec(st, Some(s)).value in st.studentAccounts && StandingSpec(st, Some(s)).value.studentId == s.id
    ensures StandingSpec(st, Some(s)) == Err(IndexOutOfBounds) <==>
      forall a :: a in st.studentAccounts ==> a.studentId != s.id
  {
    FoundAccounts(st, s.id);
    var found := FindAs(st, TN.StudentAccount, [OnStudentAccount(StudentAccountFilter.StudentId(s.id))], AsStudentAccount).value;
    if |found| > 0 {
      assert found[0] in found;
    }
  }

  // ---------------------------------------------------------------------------
  // `generate_statistics`

  datatype Query = Query(table: TN.Table, filters: seq<Filter>)

  /** The queries `generate_statistics` issues, in order. The fifth asks the
      USERS table with a STUDENT_ACCOUNT filter. */
  const StatisticsQueries: seq<Query> := [
    Query(TN.Users, []),
    Query(TN.Users, [OnUsers(Suspended(true))]),
    Query(TN.Users, [OnUsers(Role("teacher"))]),
    Query(TN.Users, [OnUsers(Role("student"))]),
    Query(TN.Users, [OnStudentAccount(CanGrad(true))]),
    Query(TN.Courses, []),
    Query(TN.Departments, [])]

  /** As written, the first four queries pass `find`'s kind assertion and the
      fifth cannot: every call panics there. */
  lemma StatisticsBreaksKindAssertion()
    ensures forall i :: 0 <= i < 4 ==> FiltersMatch(StatisticsQueries[i].table, StatisticsQueries[i].filters)
    ensures !FiltersMatch(StatisticsQueries[4].table, StatisticsQueries[4].filters)
  {
    assert FilterKind(StatisticsQueries[4].filters[0]) == TN.StudentAccount;
  }

  /** The evident intent: graduated students counted on STUDENT_ACCOUNT. */
  const StatisticsQueriesIntended: seq<Query> := [
    Query(TN.Users, []),
    Query(TN.Users, [OnUsers(Suspended(true))]),
    Query(TN.Users, [OnUsers(Role("teacher"))]),
    Query(TN.Users, [OnUsers(Role("student"))]),
    Query(TN.StudentAccount, [OnStudentAccount(CanGrad(true))]),
    Query(TN.Courses, []),
    Query(TN.Departments, [])]

  lemma StatisticsIntendedPassesKindAssertion()
    ensures StatisticsQueriesIntended == StatisticsQueries[4 := Query(TN.StudentAccount, [OnStudentAccount(CanGrad(true))])]
    ensures |StatisticsQueriesIntended| == 7
    ensures forall i :: 0 <= i < 7 ==>
      FiltersMatch(StatisticsQueriesIntended[i].table, StatisticsQueriesIntended[i].filters)
  {
  }

  datatype Statistics = Statistics(
    registeredUsers: int, suspendedUsers: int, facultyMembers: int, activeStudents: int,
    graduatedStudents: int, courses: int, departments: int)

  function Count(st: Store, q: Query): Result<int> {
    match FindSpec(st, q.table, q.filters, None, None)
    case Err(e) => Err(e)
    case Ok(rs) => Ok(|rs|)
  }

  /** The statistics from the seven counts, failing with the first failed
      count. `active_students` subtracts every suspended user, not only
      suspended students, as the source does. */
  function Tally(registered: Result<int>, suspended: Result<int>, faculty: Result<int>, students: Result<int>,
                 graduated: Result<int>, courses: Result<int>, departments: Result<int>): (r: Result<Statistics>)
    ensures r.Ok? <==> && registered.Ok? && suspended.Ok? && faculty.Ok? && students.Ok?
                       && graduated.Ok? && courses.Ok? && departments.Ok?
    ensures r.Ok? ==> r.value.activeStudents == students.value - suspended.value
  {
    var r :- registered;
    var s :- suspended;
    var f :- faculty;
    var a :- students;
    var g :- graduated;
    var c :- courses;
    var d :- departments;
    Ok(Statistics(r, s, f, a - s, g, c, d))
  }

  /** The statistics over the intended queries, asked in order. */
  function StatisticsSpec(st: Store): Result<Statistics> {
    var q := StatisticsQueriesIntended;
    Tally(Count(st, q[0]), Count(st, q[1]), Count(st, q[2]), Count(st, q[3]),
          Count(st, q[4]), Count(st, q[5]), Count(st, q[6]))
  }

  /** A query with no filters counts the whole table. */
  lemma CountWholeTable(st: Store, t: TN.Table)
    requires TableFits(st, t)
    ensures Count(st, Query(t, [])) == Ok(|TableRows(st, t)|)
  {
    FindReturnsSelection(st, t, [], None);
    AllSelected(TableRows(st, t));
  }

  /** A query whose columns all exist counts part of the table. */
  lemma CountPartOfTable(st: Store, q: Query)
    requires TableFits(st, q.table)
    requires MissingColumn(q.table, Conditions(q.filters)).None?
    ensures Count(st, q).Ok? && 0 <= Count(st, q).value <= |TableRows(st, q.table)|
  {
    FindReturnsSelection(st, q.table, q.filters, None);
    SelectWhereShrinks(TableRows(st, q.table), Conditions(q.filters), And);
  }

  /** Every column the intended statistics queries name exists. */
  lemma StatisticsColumnsExist(i: nat)
    requires i < 7
    ensures MissingColumn(StatisticsQueriesIntended[i].table, Conditions(StatisticsQueriesIntended[i].filters)).None?
  {
    var q := StatisticsQueriesIntended[i];
    if i == 1 {
      assert Conditions(q.filters) == [Equals("suspended", BoolLit(true))];
    } else if i == 2 {
      assert Conditions(q.filters) == [Equals("role", TextLit("teacher"))];
    } else if i == 3 {
      assert Conditions(q.filters) == [Equals("role", TextLit("student"))];
    } else if i == 4 {
      assert Conditions(q.filters) == [Equals("can_grad", BoolLit(true))];
    } else {
      assert q.filters == [];
    }
  }

  /** Every count reads a whole table or a subset of it; the registered,
      course and department counts are whole tables, and no more users are
      suspended than registered. */
  lemma StatisticsBounded(st: Store)
    requires TableFits(st, TN.Users) && TableFits(st, TN.StudentAccount)
    requires TableFits(st, TN.Courses) && TableFits(st, TN.Departments)
    ensures StatisticsSpec(st).Ok?
    ensures StatisticsSpec(st).value.registeredUsers == |st.users|
    ensures StatisticsSpec(st).value.courses == |st.courses|
    ensures StatisticsSpec(st).value.departments == |st.departments|
    ensures 0 <= StatisticsSpec(st).value.suspendedUsers <= |st.users|
    ensures 0 <= StatisticsSpec(st).value.graduatedStudents <= |st.studentAccounts|
  {
    var q := StatisticsQueriesIntended;
    assert q[0] == Query(TN.Users, []) && q[5] == Query(TN.Courses, []) && q[6] == Query(TN.Departments, []);
    assert q[1].table == TN.Users && q[4].table == TN.StudentAccount;
    assert q[2].table == TN.Users && q[3].table == TN.Users;
    WholeCounts(st);
    PartCount(st, 1);
    PartCount(st, 2);
    PartCount(st, 3);
    PartCount(st, 4);
    TallyOk(Count(st, q[0]), Count(st, q[1]), Count(st, q[2]), Count(st, q[3]),
            Count(st, q[4]), Count(st, q[5]), Count(st, q[6]));
  }

  /** The three whole-table counts are the table sizes. */
  lemma WholeCounts(st: Store)
    requires TableFits(st, TN.Users) && TableFits(st, TN.Courses) && TableFits(st, TN.Departments)
    ensures Count(st, Query(TN.Users, [])) == Ok(|st.users|)
    ensures Count(st, Query(TN.Courses, [])) == Ok(|st.courses|)
    ensures Count(st, Query(TN.Departments, [])) == Ok(|st.departments|)
  {
    CountWholeTable(st, TN.Users);
    UsersSize(st);
    CountWholeTable(st, TN.Courses);
    CoursesSize(st);
    CountWholeTable(st, TN.Departments);
    DepartmentsSize(st);
  }

  lemma UsersSize(st: Store)
    ensures |TableRows(st, TN.Users)| == |st.users|
  {
  }

  lemma CoursesSize(st: Store)
    ensures |TableRows(st, TN.Courses)| == |st.courses|
  {
  }

  lemma DepartmentsSize(st: Store)
    ensures |TableRows(st, TN.Departments)| == |st.departments|
  {
  }

  /** A filtered statistics count succeeds within its table. */
  lemma PartCount(st: Store, i: nat)
    requires 1 <= i <= 4
    requires TableFits(st, StatisticsQueriesIntended[i].table)
    ensures Count(st, StatisticsQueriesIntended[i]).Ok?
    ensures 0 <= Count(st, StatisticsQueriesIntended[i]).value <= |TableRows(st, StatisticsQueriesIntended[i].table)|
  {
    StatisticsColumnsExist(i);
    CountPartOfTable(st, StatisticsQueriesIntended[i]);
  }

  /** Seven successful counts tally to statistics carrying them. */
  lemma TallyOk(r: Result<int>, s: Result<int>, f: Result<int>, a: Result<int>,
                g: Result<int>, c: Result<int>, d: Result<int>)
    requires r.Ok? && s.Ok? && f.Ok? && a.Ok? && g.Ok? && c.Ok? && d.Ok?
    ensures Tally(r, s, f, a, g, c, d) ==
      Ok(Statistics(r.value, s.value, f.value, a.value - s.value, g.value, c.value, d.value))
  {
  }

  lemma {:induction false} AllSelected(rows: seq<ReceiverType>)
    ensures SelectWhere(rows, [], And) == rows
  {
    if rows != [] {
      AllSelected(rows[1..]);
      assert [rows[0]] + rows[1..] == rows;
    }
  }

  lemma {:induction false} SelectWhereShrinks(rows: seq<ReceiverType>, conds: seq<Condition>, a: Associativity)
    ensures |SelectWhere(rows, conds, a)| <= |rows|
  {
    if rows != [] {
      SelectWhereShrinks(rows[1..], conds, a);
    }
  }

  // ---------------------------------------------------------------------------
  // The connection object

  /** `ServerConnection`: the driver and the signed-in user. */
  class ServerConnection {
    const db: Driver
    const hash: (string, string) -> string
    const verify: (string, string) -> bool
    var session: Option<User>

    /** `new`: the database opened, nobody signed in. */
    constructor (persisted: Store, hash: (string, string) -> string, verify: (string, string) -> bool)
      ensures fresh(db) && fresh(db.c) && db.c.State() == persisted && session.None?
      ensures this.hash == hash && this.verify == verify
    {
      db := new Driver(persisted);
      this.hash, this.verify := hash, verify;
      session := None;
    }

    method FindUsersVia(filters: seq<Filter>) returns (r: Result<seq<User>>)
      requires FiltersMatch(TN.Users, filters)
      ensures r == FindUsers(db.c.State(), filters)
    {
      var found := db.Find(TN.Users, filters, None, None);
      if found.Err? {
        return Err(found.error);
      }
      r := Ok(Pick(found.value, AsUser));
    }

    method RegisterUser(user: User, salt: string) returns (res: Outcome)
      modifies db.c
      ensures Executed(db.c.State(), res) == RegisterSpec(old(db.c.State()), session, user, salt, hash)
    {
      if session.Some? {
        return Fail(AlreadySignedIn);
      }
      var same := FindUsersVia([OnUsers(Email(AsciiLower(user.email)))]);
      if same.Err? {
        return Fail(same.error);
      }
      if |same.value| > 0 {
        return Fail(Conflict);
      }
      if user.username == "" {
        return Fail(ValidationFailed(EmptyUsername));
      }
      if !IsAubgEmail(user.email) {
        return Fail(ValidationFailed(BadEmail));
      }
      if !IsPhone(user.phone) && user.phone != "" {
        return Fail(ValidationFailed(BadPhone));
      }
      if !StrongPassword(user.password) {
        return Fail(ValidationFailed(WeakPassword));
      }
      res := db.Apply([UserRow(user.(password := hash(user.password, salt)))], Insert);
    }

    method Login(email: string, password: string) returns (res: Outcome)
      modifies this
      ensures var r := LoginSpec(db.c.State(), email, password, verify);
        && (r.Ok? ==> res == Pass && session == Some(r.value))
        && (r.Err? ==> res == Fail(r.error) && session == old(session))
    {
      var found := FindUsersVia([OnUsers(Email(email))]);
      if found.Err? {
        return Fail(found.error);
      }
      if |found.value| == 0 {
        return Fail(NotFound);
      }
      var user := found.value[0];
      if user.suspended {
        return Fail(UserSuspended);
      }
      if user.forcenewpw {
        return Fail(MustChangePassword);
      }
      if verify(user.password, password) {
        session := Some(user);
        res := Pass;
      } else {
        res := Fail(InvalidCredential);
      }
    }

    method UpdateUser(user: User, salt: string) returns (res: Outcome)
      modifies db.c
      ensures Executed(db.c.State(), res) == UpdateUserSpec(old(db.c.State()), session, user, salt, hash)
    {
      if session.None? {
        return Fail(Unauthenticated);
      }
      var found := FindUsersVia([OnUsers(UsersFilter.Id(user.id))]);
      if found.Err? {
        return Fail(found.error);
      }
      if |found.value| == 0 {
        return Fail(NotFound);
      }
      var stored := found.value[0];
      var admin := AsciiLower(session.value.role) == "admin";
      if !admin && user.suspended != stored.suspended {
        return Fail(ValidationFailed(SuspendedChanged));
      }
      if !admin && user.verified != stored.verified {
        return Fail(ValidationFailed(VerifiedChanged));
      }
      if !admin && user.role != stored.role {
        return Fail(ValidationFailed(RoleChanged));
      }
      var row := user.(password := NewPassword(user.password, stored.password, salt, hash));
      res := db.Apply([UserRow(row)], Update);
    }

    method DeleteUser(user: User) returns (res: Outcome)
      modifies db.c
      ensures Executed(db.c.State(), res) == DeleteUserSpec(old(db.c.State()), session, user)
    {
      if session.None? {
        return Fail(Unauthenticated);
      }
      var s := session.value;
      if AsciiLower(s.role) == "admin" {
        if user.id != s.id {
          res := db.Apply([UserRow(user)], Delete);
        } else {
          res := Fail(Forbidden);
        }
      } else if user.id == s.id {
        res := db.Apply([UserRow(user)], Delete);
      } else {
        res := Fail(Forbidden);
      }
    }

    /** `register_courses`, `remove_courses` and `update_courses`. */
    method CourseBatch(courses: seq<Courses>, a: Action) returns (res: Outcome)
      modifies db.c
      ensures Executed(db.c.State(), res) == CourseBatchSpec(old(db.c.State()), session, courses, a)
    {
      if session.None? {
        return Fail(Unauthenticated);
      }
      var s := session.value;
      var role := AsciiLower(s.role);
      if role == "admin" {
        res := db.Apply(CourseRows(courses), a);
      } else if role == "teacher" {
        if exists i :: 0 <= i < |courses| && courses[i].teacherId != s.id {
          return Fail(Forbidden);
        }
        res := db.Apply(CourseRows(courses), a);
      } else {
        res := Fail(Forbidden);
      }
    }

    /** `new_department`, `remove_department` and `update_teacher_account`. */
    method AdminOnly(r: ReceiverType, a: Action) returns (res: Outcome)
      modifies db.c
      ensures Executed(db.c.State(), res) == AdminOnlySpec(old(db.c.State()), session, r, a)
    {
      if session.None? {
        return Fail(Unauthenticated);
      }
      if AsciiLower(session.value.role) == "admin" {
        res := db.Apply([r], a);
      } else {
        res := Fail(Forbidden);
      }
    }

    /** `enroll_courses` and `drop_courses`, in calendar month `month`. */
    method Enrol(courses: seq<Courses>, month: int, a: Action) returns (res: Outcome)
      modifies db.c
      ensures Executed(db.c.State(), res) == EnrolSpec(old(db.c.State()), session, courses, month, a)
    {
      if session.None? {
        return Fail(Unauthenticated);
      }
      var s := session.value;
      if AsciiLower(s.role) != "student" {
        return Fail(Forbidden);
      }
      if exists i :: 0 <= i < |courses| && Transmute(s, courses[i], month).studentId != s.id {
        return Fail(Forbidden);
      }
      res := db.Apply(EnrolmentRows(s, courses, month), a);
    }

    method SearchUsers(query: string) returns (r: Result<seq<User>>)
      ensures r == SearchUsersSpec(db.c.State(), query)
    {
      var found := FindUsersVia([]);
      if found.Err? {
        return Err(found.error);
      }
      r := Ok(FilterUsers(found.value, query));
    }

    method GetUsers() returns (r: Result<seq<User>>)
      ensures r == GetUsersSpec(db.c.State())
    {
      r := FindUsersVia([]);
    }

    /** `search_courses`. */
    method SearchCourses(query: string) returns (r: Result<seq<Courses>>)
      ensures r == SearchCoursesSpec(db.c.State(), query)
    {
      var found := db.Find(TN.Courses, [], None, None);
      if found.Err? {
        return Err(found.error);
      }
      r := Ok(FilterCourses(Pick(found.value, AsCourse), query));
    }

    method GetDepartment(id: int) returns (r: Result<Departments>)
      ensures r == DepartmentSpec(db.c.State(), id)
    {
      var found := db.Find(TN.Departments, [OnDepartments(DepartmentsFilter.Id(id))], None, None);
      if found.Err? {
        return Err(found.error);
      }
      var ds := Pick(found.value, AsDepartment);
      if |ds| == 0 {
        return Err(NotFound);
      }
      r := Ok(ds[0]);
    }

    /** `get_departments` and `get_teacher_accounts`. */
    method GetDepartments() returns (r: Result<seq<Departments>>)
      ensures r == FindAs(db.c.State(), TN.Departments, [], AsDepartment)
    {
      var found := db.Find(TN.Departments, [], None, None);
      if found.Err? {
        return Err(found.error);
      }
      r := Ok(Pick(found.value, AsDepartment));
    }

    method GetTeacherAccounts() returns (r: Result<seq<TeacherAccount>>)
      ensures r == FindAs(db.c.State(), TN.TeacherAccount, [], AsTeacherAccount)
    {
      var found := db.Find(TN.TeacherAccount, [], None, None);
      if found.Err? {
        return Err(found.error);
      }
      r := Ok(Pick(found.value, AsTeacherAccount));
    }

    /** `new_department`: the id is left to the store. */
    method NewDepartment(name: string) returns (res: Outcome)
      modifies db.c
      ensures Executed(db.c.State(), res) ==
        AdminOnlySpec(old(db.c.State()), session, DepartmentRow(Departments(0, name)), Insert)
    {
      res := AdminOnly(DepartmentRow(Departments(0, name)), Insert);
    }

    method RemoveDepartment(d: Departments) returns (res: Outcome)
      modifies db.c
      ensures Executed(db.c.State(), res) == AdminOnlySpec(old(db.c.State()), session, DepartmentRow(d), Delete)
    {
      res := AdminOnly(DepartmentRow(d), Delete);
    }

    method UpdateTeacherAccount(t: TeacherAccount) returns (res: Outcome)
      modifies db.c
      ensures Executed(db.c.State(), res) == AdminOnlySpec(old(db.c.State()), session, TeacherAccountRow(t), Update)
    {
      res := AdminOnly(TeacherAccountRow(t), Update);
    }

    method ListEnrolments() returns (r: Result<seq<StudentCourse>>)
      ensures r == ListEnrolmentsSpec(db.c.State(), session)
    {
      if session.None? {
        return Err(Unauthenticated);
      }
      if AsciiLower(session.value.role) != "student" {
        return Err(Forbidden);
      }
      var found := db.Find(TN.StudentCourses,
                           [OnStudentCourses(StudentCoursesFilter.StudentId(session.value.id))], None, None);
      if found.Err? {
        return Err(found.error);
      }
      r := Ok(Pick(found.value, AsEnrolment));
    }

    method CountVia(q: Query) returns (r: Result<int>)
      requires FiltersMatch(q.table, q.filters)
      ensures r == Count(db.c.State(), q)
    {
      var found := db.Find(q.table, q.filters, None, None);
      if found.Err? {
        return Err(found.error);
      }
      r := Ok(|found.value|);
    }

    /** `generate_statistics` over the intended queries. The queries only
        read, so asking all seven before tallying gives the same result as
        stopping at the first failure. */
    method GenerateStatistics() returns (r: Result<Statistics>)
      ensures r == StatisticsSpec(db.c.State())
    {
      var q := StatisticsQueriesIntended;
      StatisticsIntendedPassesKindAssertion();
      var registered := CountVia(q[0]);
      var suspended := CountVia(q[1]);
      var faculty := CountVia(q[2]);
      var students := CountVia(q[3]);
      var graduated := CountVia(q[4]);
      var courses := CountVia(q[5]);
      var departments := CountVia(q[6]);
      r := Tally(registered, suspended, faculty, students, graduated, courses, departments);
    }

    method GetStudentStanding() returns (r: Result<StudentAccount>)
      ensures r == StandingSpec(db.c.State(), session)
    {
      if session.None? {
        return Err(Unauthenticated);
      }
      if AsciiLower(session.value.role) != "student" {
        return Err(Forbidden);
      }
      var found := db.Find(TN.StudentAccount,
                           [OnStudentAccount(StudentAccountFilter.StudentId(session.value.id))], None, None);
      if found.Err? {
        return Err(found.error);
      }
      var accounts := Pick(found.value, AsStudentAccount);
      if |accounts| == 0 {
        return Err(IndexOutOfBounds);
      }
      r := Ok(accounts[0]);
    }
  }
}
