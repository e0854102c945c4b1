# University management system: record queries and authorization

This project is a Dafny model of the record-query and authorization layer of a
small university management system. The layer is written in Rust over SQLite and
has five parts:

- **filters** (`filter.rs`): one filter enum per table (`UsersFilter`,
  `StudentAccountFilter`, …). Each variant renders as one SQL predicate
  (`email = '…'`, `id = 7`, `1 = 1`). The `Associativity` and `Join` keywords
  render with their spacing.
- **table models** (`table_models.rs`): the six record types (`User`,
  `StudentAccount`, `TeacherAccount`, `Courses`, `StudentCourse`, `Departments`).
  Each renders its own INSERT, UPDATE and DELETE statement. `Table` displays a
  quoted table name, and `Table::join` builds a join clause.
- **the store** (`sqlite_conn.rs`): the six tables of the schema, with their
  unique columns and autoincrement ids. The nine triggers provision, remove and
  recompute accounts when users and enrolments change.
- **the driver** (`db_driver.rs`): `find` asserts that every filter belongs to
  the queried table. It then renders `SELECT * FROM T WHERE …`, walks the cursor
  and decodes each row into a record. `insert`, `update` and `delete` run one
  statement per record and stop at the first failure. `join_find` turns each
  joined row into a column → text map. A cursor error gives one empty map and
  ends the rows, because rusqlite resets the statement after a failed step.
- **the server connection** (`server_connection_impl.rs`): the signed-in
  session and the checks in front of every operation:
  - registration: signed out, no duplicate email, AUBG email, phone and
    password rules;
  - login: found, not suspended, no forced password change, then the
    password check;
  - updating and deleting users, with the self-deletion rules;
  - course batches for admins and owning teachers;
  - enrolment and dropping for students;
  - searches, standing and statistics.

Each source file is one module: `Filters`, `TableNames` + `TableModels`,
`SqliteConn`, `DbDriver` and `Server`. `Results` (Option, Result, Outcome and
the error kinds) and `Text` (integer, boolean and float rendering, ASCII
lowercasing, UTF-8 length) are shared helpers.

How the model is built:

- **Pure code becomes functions.** The filters, the table models, the row
  decoders, the validation rules and the permission logic are functions with
  lemmas.
- **Stateful objects become classes.**
  - `SqliteConn.DatabaseConnection` holds the tables in fields. Its trigger
    hooks are methods.
  - `DbDriver.Driver` holds the connection.
  - `Server.ServerConnection` holds the driver and a mutable `session`.
- **Each method is proved against a function of the old state.** For example,
  `Executed(State(), res) == Exec(old(State()), r, a)`. The properties are then
  lemmas about those functions: the store invariant is preserved; login admits
  exactly the active users with a matching password; a non-admin cannot change
  their own flags; statistics are bounded by the table sizes.

Statements run structurally: the engine executes the record and the action, not
the SQL text. The SQL text each record and filter renders is modelled exactly,
with lemmas:

- a DELETE names exactly the record's key;
- an UPDATE ends in its key condition;
- an INSERT never mentions the id;
- a text predicate round-trips its value.

Some quirks of the code are kept as written, each with a lemma that shows it:

- `update_user` for a non-admin has no check that the target is the signed-in
  user: any non-admin may update any user whose flags they leave unchanged
  (`Server.NonAdminUpdateProtectsFlags`).
- The ownership check in `enroll_courses` and `drop_courses` compares a student
  id that `transmute` has just set to the session's id, so it never fails
  (`Server.EnrolOwnershipNeverFails`).
- `get_student_standing` indexes `student[0]` without a check. A student without
  an account gets `IndexOutOfBounds` (`Server.StandingOfStudent`).
- `login` does not lowercase the email and does not require a signed-out session.
  `register_user` lowercases the email only for the duplicate check.
- The cgpa triggers update the STUDENT_ACCOUNT row whose `id`, not whose
  `student_id`, equals the enrolment's student
  (`SqliteConn.StandingMissesOwnAccount`,
  `SqliteConn.StandingNeedsMatchingAccountId`).
- The can_grad subquery of the same triggers sums `"cr_cost"` without the join
  to COURSES. SQLite reads the name as a string, so can_grad is always 0
  (`SqliteConn.EnrolmentNeverGraduatesAsWritten`). The model uses the
  intended rule, 120 graded credits over the join, as the Findings table
  records.
- `Table`'s Display writes the plural `"STUDENT_ACCOUNTS"` and
  `"TEACHER_ACCOUNTS"`, which the schema does not define. Every `join_find`
  involving those tables fails to prepare (`DbDriver.JoinPreparationFails`,
  `TableNames.TableTextNamesSchemaTable`). `join_find` is kept as written, and
  the intended join text is stated beside it (`TableNames.JoinTablesIntended`).

## Model

| member | source | states |
|---|---|---|
| `Filters.AssociativityText` | filter.rs:15-22 | the joiner is " AND " or " OR ", and " AND " exactly for `And` |
| `Filters.JoinText` | filter.rs:46-55 | each join keyword is one of the four outer/inner join phrases, padded by a space on both sides |
| `Filters.FilterTableName` | filter.rs:33-44 | a filter displays as one of the six schema table names |
| `Filters.ToSqlRendersCondition` | filter.rs:57-214 | every filter renders as the text of its structured condition (column = literal, or `1 = 1`) |
| `Filters.UsersRendersCondition` | filter.rs:82-96 | each users filter renders as `column = literal`, text quoted and integers/booleans bare |
| `Filters.StudentAccountRendersCondition` | filter.rs:111-130 | each student-account filter renders as its column compared with its literal |
| `Filters.TeacherAccountRendersCondition` | filter.rs:140-150 | each teacher-account filter renders as its column compared with its literal |
| `Filters.CoursesRendersCondition` | filter.rs:162-174 | each courses filter renders as its column compared with its literal |
| `Filters.DepartmentsRendersCondition` | filter.rs:183-192 | each departments filter renders as its column compared with its literal |
| `Filters.StudentCoursesRendersCondition` | filter.rs:203-214 | each enrolment filter renders as its column compared with its literal |
| `Filters.UsersToSql` | filter.rs:82-96 | a users predicate renders as `1 = 1` exactly when it is `All` |
| `Filters.StudentAccountToSql` | filter.rs:111-130 | a student-account predicate renders as `1 = 1` exactly when it is `All` |
| `Filters.TeacherAccountToSql` | filter.rs:140-150 | a teacher-account predicate renders as `1 = 1` exactly when it is `All` |
| `Filters.CoursesToSql` | filter.rs:162-174 | a courses predicate renders as `1 = 1` exactly when it is `All` |
| `Filters.DepartmentsToSql` | filter.rs:183-192 | a departments predicate renders as `1 = 1` exactly when it is `All` |
| `Filters.StudentCoursesToSql` | filter.rs:203-214 | an enrolment predicate renders as `1 = 1` exactly when it is `All` |
| `Filters.FilterToSql` | filter.rs:57-214 | a filter renders as `1 = 1` exactly when it wraps an `All` predicate; `Filters.ToSqlRendersCondition` gives every other rendering |
| `Filters.AllRendersAlwaysTrue` | filter.rs:93 | a filter is an `All` variant exactly when its condition is always true, and then it renders `1 = 1` |
| `Filters.TextPredicateRoundTrip` | filter.rs:85-88 | a text predicate is `col = '` + value + `'`, and the value can be read back between the quotes |
| `Filters.TextPredicateInjective` | filter.rs:85-88 | two text predicates on the same column with equal text carry the same value |
| `Filters.IntPredicateUnquoted` | filter.rs:92 | an integer predicate has no quote after the column, and its numeral parses back to the integer |
| `Filters.BoolPredicateUnquoted` | filter.rs:89-91 | a boolean predicate is `col = true` or `col = false` |
| `Text.IntText` | filter.rs:92 | an integer renders as a non-empty run of digits with an optional minus sign |
| `Text.ParseIntText` | filter.rs:92 | the decimal rendering of an integer parses back to the same integer |
| `Text.BoolText` | filter.rs:89 | a boolean renders as `true` or `false`, and `true` exactly for true |
| `Text.AsciiLower` | server_connection_impl.rs:88 | lowercasing keeps the length and lowercases each letter |
| `Text.Utf8Len` | server_connection_impl.rs:80 | the byte length of a string is at least its character count, and equal for ASCII text |
| `TableNames.SchemaName` | sqlite_conn.rs:19-79 | each table has one of the six schema names |
| `TableNames.TableText` | table_models.rs:20-31 | the Display of each table, written as the source's literals; `TableNames.TableTextNamesSchemaTable` states which tables it names as the schema does |
| `TableNames.JoinTables` | table_models.rs:33-37 | the join clause: first table, join keyword, second table; `TableNames.JoinTablesIntendedNamesBoth` states what the intended clause names |
| `TableNames.TableTextNamesSchemaTable` | table_models.rs:20-31 | a table displays as its quoted schema name exactly when it is not STUDENT_ACCOUNT or TEACHER_ACCOUNT |
| `TableNames.QuotedSchemaName` | table_models.rs:20-31 | the intended display is the schema name between double quotes |
| `TableNames.JoinTablesIntendedNamesBoth` | table_models.rs:33-37 | the intended join clause starts with the first quoted table name and ends with the second |
| `TableModels.DeleteShape` | table_models.rs:86-241 | every DELETE statement is a fixed head followed by the text of the record's key |
| `TableModels.KeyTextInjective` | table_models.rs:213-215 | two keys of the same shape render the same text exactly when they are equal |
| `TableModels.DeleteIdentifiesKey` | table_models.rs:86-241 | two DELETE statements for records of the same kind are equal exactly when the records have the same key |
| `TableModels.IntTextInjective` | table_models.rs:86-88 | two ids render the same numeral exactly when they are equal |
| `TableModels.NumeralPairInjective` | table_models.rs:213-215 | a pair of numerals joined by ` AND …` text determines both integers |
| `TableModels.UserUpdateWritesPassword` | table_models.rs:66-84 | a user UPDATE sets the password column exactly when the given password is non-empty |
| `TableModels.UserUpdateTailStart` | table_models.rs:66-84 | the part of a user UPDATE after the username starts with `password = ` exactly when the password is non-empty |
| `TableModels.UserInsertIgnoresId` | table_models.rs:59-64 | a user INSERT is the same text whatever the record's id |
| `TableModels.StudentAccountInsertIgnoresId` | table_models.rs:109-113 | a student-account INSERT is the same text whatever the record's id |
| `TableModels.TeacherAccountInsertIgnoresId` | table_models.rs:140-143 | a teacher-account INSERT is the same text whatever the record's id |
| `TableModels.CoursesInsertIgnoresId` | table_models.rs:171-175 | a course INSERT is the same text whatever the record's id |
| `TableModels.DepartmentsInsertIgnoresId` | table_models.rs:229-232 | a department INSERT is the same text whatever the record's id |
| `TableModels.UserUpdateEndsWithKey` | table_models.rs:66-84 | both forms of a user UPDATE end in `WHERE id = <id>` |
| `TableModels.StudentAccountUpdateEndsWithKey` | table_models.rs:115-121 | a student-account UPDATE ends in its id condition |
| `TableModels.TeacherAccountUpdateEndsWithKey` | table_models.rs:145-148 | a teacher-account UPDATE ends in its quoted-column id condition |
| `TableModels.CoursesUpdateEndsWithKey` | table_models.rs:177-181 | a course UPDATE ends in its id condition |
| `TableModels.StudentCourseUpdateEndsWithKey` | table_models.rs:207-211 | an enrolment UPDATE ends in the condition on its student and course ids |
| `TableModels.DepartmentsUpdateEndsWithKey` | table_models.rs:234-237 | a department UPDATE ends in its id condition |
| `TableModels.UpdateConditionedOnKey` | table_models.rs:56-244 | every UPDATE statement ends in the condition on its record's key |
| `TableModels.ToSql` | table_models.rs:56-244 | each record goes through its own kind's builder; `TableModels.DeleteShape`, `TableModels.DeleteIdentifiesKey` and `TableModels.UpdateConditionedOnKey` state what the statements say |
| `TableModels.UserToSql` | table_models.rs:56-84 | the three user statements; `TableModels.UserInsertIgnoresId`, `TableModels.UserUpdateWritesPassword` and `TableModels.UserUpdateEndsWithKey` state them |
| `TableModels.StudentAccountToSql` | table_models.rs:86-121 | the three student-account statements; `TableModels.StudentAccountInsertIgnoresId` and `TableModels.StudentAccountUpdateEndsWithKey` state them |
| `TableModels.TeacherAccountToSql` | table_models.rs:123-148 | the three teacher-account statements; `TableModels.TeacherAccountInsertIgnoresId` and `TableModels.TeacherAccountUpdateEndsWithKey` state them |
| `TableModels.CoursesToSql` | table_models.rs:150-181 | the three course statements; `TableModels.CoursesInsertIgnoresId` and `TableModels.CoursesUpdateEndsWithKey` state them |
| `TableModels.StudentCourseToSql` | table_models.rs:183-215 | the three enrolment statements, keyed by student and course; `TableModels.StudentCourseUpdateEndsWithKey` and `TableModels.KeyTextInjective` state them |
| `TableModels.DepartmentsToSql` | table_models.rs:217-241 | the three department statements; `TableModels.DepartmentsInsertIgnoresId` and `TableModels.DepartmentsUpdateEndsWithKey` state them |
| `SqliteConn.RemoveWhere` | sqlite_conn.rs:123-129 | deleting by key keeps exactly the rows with another key, and nothing changes when the key is absent |
| `SqliteConn.ReplaceWhere` | table_models.rs:56-244 | updating by key replaces exactly the rows with that key, in place |
| `SqliteConn.UserById` | sqlite_conn.rs:19-30 | a lookup by id finds a stored user with that id, and finds none exactly when no user has it |
| `SqliteConn.ColumnIndex` | db_driver.rs:187-193 | a column's index points at that name, and there is none exactly when the table lacks the column |
| `SqliteConn.MissingColumn` | sqlite_conn.rs:15-79 | a statement refers to a missing column exactly when some condition names a column outside the table's schema |
| `SqliteConn.SelectWhere` | db_driver.rs:43-124 | a selection holds exactly the rows that satisfy the joined conditions |
| `SqliteConn.TableRows` | sqlite_conn.rs:15-79 | every row listed for a table is of that table's kind |
| `SqliteConn.EncodeRows` | db_driver.rs:561-583 | each record is stored as one cell per schema column |
| `SqliteConn.Select` | db_driver.rs:43-124 | a query runs exactly when every condition's column is in the table, and otherwise fails with no such column, naming a column the table lacks |
| `SqliteConn.Exec` | sqlite_conn.rs:15-192 | a statement is refused only for a UNIQUE violation; USERS, COURSES and DEPARTMENTS with their counters, and STUDENT_COURSES, change only when the record belongs to that table |
| `SqliteConn.ExecUser` | sqlite_conn.rs:19-30 | a user statement writes only USERS and, through the triggers, the two account tables, and is refused only because the email is taken |
| `SqliteConn.InsertUser` | sqlite_conn.rs:19-30 | a user INSERT writes only USERS and the account tables, and is refused only because the email is taken |
| `SqliteConn.UpdateUser` | sqlite_conn.rs:19-30 | a user UPDATE writes only USERS and the account tables, never advances the user counter, and is refused only because another user has the email |
| `SqliteConn.DeleteUser` | sqlite_conn.rs:123-129 | a user DELETE always passes, never advances the user counter, and writes only USERS and the account tables |
| `SqliteConn.ExecStudentAccount` | sqlite_conn.rs:32-44 | a student-account statement writes only STUDENT_ACCOUNT and its counter, and is refused only because another account has the student_id |
| `SqliteConn.ExecTeacherAccount` | sqlite_conn.rs:46-52 | a teacher-account statement writes only TEACHER_ACCOUNT and its counter, and is refused only because another account has the teacher_id |
| `SqliteConn.ExecCourse` | sqlite_conn.rs:54-64 | a course statement always passes and writes only COURSES and its counter |
| `SqliteConn.ExecStudentCourse` | sqlite_conn.rs:66-73 | with the corrected graduation sum, an enrolment statement always passes and writes only STUDENT_COURSES and, through the cgpa triggers, STUDENT_ACCOUNT |
| `SqliteConn.ExecDepartment` | sqlite_conn.rs:75-79 | a department statement always passes and writes only DEPARTMENTS and its counter |
| `SqliteConn.InsertUserTakesFreshId` | sqlite_conn.rs:19-30 | a user INSERT succeeds exactly when the email is unused, appends the user under the next autoincrement id that no stored user has, and leaves the store alone on failure |
| `SqliteConn.ExecPreservesValid` | sqlite_conn.rs:15-192 | every statement, with its triggers, keeps the store valid (unique ids, unique emails, one account per user, ids at most the sequence) |
| `SqliteConn.UserStatementValid` | sqlite_conn.rs:19-30 | every user statement keeps the store valid |
| `SqliteConn.AccountStatementValid` | sqlite_conn.rs:32-52 | every student- or teacher-account statement keeps the store valid |
| `SqliteConn.OtherStatementValid` | sqlite_conn.rs:54-79 | every course, enrolment and department statement keeps the store valid |
| `SqliteConn.AfterUserWriteValid` | sqlite_conn.rs:81-138 | the user triggers keep the store valid |
| `SqliteConn.AfterUserInsert` | sqlite_conn.rs:81-138 | the insert triggers write only the two account tables and their counters; a student account is added only for role `student`, a teacher account only for role `teacher` |
| `SqliteConn.AfterUserUpdate` | sqlite_conn.rs:92-121 | the update triggers write only the two account tables and their counters; a student account is added only for role `student`, a teacher account only for role `teacher` |
| `SqliteConn.AfterUserDelete` | sqlite_conn.rs:123-129 | the delete trigger only removes accounts: the counters stay, nothing is added, and no account of the deleted user remains |
| `SqliteConn.ProvisionStudent` | sqlite_conn.rs:81-101 | `INSERT OR REPLACE` of a student account: afterwards the accounts are the other students' old ones plus the default row under the next id, and only STUDENT_ACCOUNT and its counter change |
| `SqliteConn.ProvisionTeacher` | sqlite_conn.rs:103-121 | `INSERT OR REPLACE` of a teacher account: afterwards the accounts are the other teachers' old ones plus a new row under the next id, and only TEACHER_ACCOUNT and its counter change |
| `SqliteConn.RecomputeStanding` | sqlite_conn.rs:140-192 | the cgpa triggers change only cgpa and can_grad, only on accounts whose id is the student id, and no other table |
| `SqliteConn.RecomputeStandingValid` | sqlite_conn.rs:140-192 | recomputing a student's standing keeps the store valid |
| `SqliteConn.StudentRoleProvisions` | sqlite_conn.rs:81-101 | inserting or updating a user with role `student` leaves exactly one default student account for them and no teacher account, and touches no other user's accounts |
| `SqliteConn.TeacherRoleProvisions` | sqlite_conn.rs:103-121 | inserting or updating a user with role `teacher` leaves exactly one teacher account for them and no student account, and touches no other user's accounts |
| `SqliteConn.AdminRoleTriggers` | sqlite_conn.rs:131-138 | inserting an admin removes both kinds of account; any other role changes nothing, and no update trigger fires for it |
| `SqliteConn.DeleteClearsAccounts` | sqlite_conn.rs:123-129 | deleting a user removes exactly their student and teacher accounts |
| `SqliteConn.InsertIgnoresId` | db_driver.rs:126-139 | inserting a record gives the same result whatever id the record carries |
| `SqliteConn.UpdateUserKeepsPassword` | table_models.rs:66-84 | an update of a missing user changes nothing; otherwise the stored user takes the new email and role, and the new password when one is given or keeps the stored one when it is empty |
| `SqliteConn.EnrolmentsMayRepeat` | sqlite_conn.rs:66-73 | an enrolment INSERT always succeeds and appends the row, even a duplicate |
| `SqliteConn.RowStandingBounded` | sqlite_conn.rs:146 | one graded course adds non-negative credits and points at most the top grade times those credits |
| `SqliteConn.CgpaWithinGrades` | sqlite_conn.rs:142-150 | a student's cgpa lies between 0 and the highest grade |
| `SqliteConn.CgpaOf` | sqlite_conn.rs:142-150 | the cgpa: graded points over graded credits, 0 without graded credits; `SqliteConn.CgpaWithinGrades` bounds it |
| `SqliteConn.CanGraduate` | sqlite_conn.rs:151-154 | the corrected can_grad: at least 120 graded credits over the courses join; `SqliteConn.UngradedRowCountsNothing` states that an ungraded enrolment leaves it as it was |
| `SqliteConn.RecomputeStandingWrites` | sqlite_conn.rs:140-192 | recomputing writes the cgpa and the graduation flag (at least 120 graded credits) of the table as it now stands into each account whose id is the student id, and leaves every other account and table as it was |
| `SqliteConn.EnrolmentWriteRecordsStanding` | sqlite_conn.rs:140-192 | an enrolment INSERT appends the row, an UPDATE replaces the rows with its key, a DELETE removes them; each passes; after any INSERT, and after an UPDATE or DELETE that matched a row, the account whose id is the student id gets that student's cgpa and graduation flag; every other account, and every account after an UPDATE or DELETE that matched nothing, is unchanged |
| `SqliteConn.StandingSumsSplit` | sqlite_conn.rs:142-154 | the graded credits and grade points of two runs of enrolments add up |
| `SqliteConn.UngradedRowCountsNothing` | sqlite_conn.rs:146 | an enrolment whose grade is negative (not yet graded) adds no credits and no points, so the student's cgpa and graduation flag stay as they were |
| `SqliteConn.StandingNeedsMatchingAccountId` | sqlite_conn.rs:155 | when no account's id is the student's user id, no enrolment INSERT, UPDATE or DELETE changes any account |
| `SqliteConn.StandingMissesOwnAccount` | sqlite_conn.rs:155 | example: a student whose account id differs from their user id gets a new grade but their account's cgpa stays 0 |
| `SqliteConn.GradedCreditsAsWrittenIsZero` | sqlite_conn.rs:151-154 | as written, the can_grad sum is 0 for every student: the double-quoted `"cr_cost"` matches no STUDENT_COURSES column and becomes the text 'cr_cost', whose numeric value is 0 |
| `SqliteConn.EnrolmentNeverGraduatesAsWritten` | sqlite_conn.rs:140-192 | as written, every enrolment INSERT, UPDATE and DELETE passes and stores what the corrected triggers store, except that the account the trigger writes always gets can_grad false |
| `SqliteConn.GraduationLostAsWritten` | sqlite_conn.rs:140-155 | one input where they differ: after a graded 120-credit course, the corrected trigger sets can_grad, while as written the cgpa is 4.0 and can_grad stays false |
| `SqliteConn.DatabaseConnection.constructor` | sqlite_conn.rs:9-13 | the connection opens on the persisted tables |
| `SqliteConn.DatabaseConnection.Execute` | sqlite_conn.rs:15-192 | executing a statement leaves the tables and outcome the store semantics give |
| `SqliteConn.DatabaseConnection.ExecuteUserInsert` | sqlite_conn.rs:19-30 | a user INSERT and its triggers update the tables as the store semantics give |
| `SqliteConn.DatabaseConnection.ExecuteUserUpdate` | sqlite_conn.rs:92-121 | a user UPDATE and its triggers update the tables as the store semantics give |
| `SqliteConn.DatabaseConnection.ExecuteUserDelete` | sqlite_conn.rs:123-129 | a user DELETE and its trigger update the tables as the store semantics give |
| `SqliteConn.DatabaseConnection.OnEnrolmentChanged` | sqlite_conn.rs:140-192 | the cgpa triggers recompute one student's standing in place |
| `SqliteConn.DatabaseConnection.Query` | db_driver.rs:360-368 | a SELECT returns the encoded rows of the selection, and is refused exactly when a condition names a column the table lacks |
| `DbDriver.FindSqlShape` | db_driver.rs:43-124 | the query is `SELECT * FROM T`, followed by ` WHERE ` and the filters joined by the associativity when there are filters; no associativity means AND |
| `DbDriver.WhereClauseAppend` | db_driver.rs:43-124 | adding a filter appends the joiner and its rendering to the WHERE clause |
| `DbDriver.FindSql` | db_driver.rs:43-124 | the query starts with `SELECT * FROM` and the table's schema name; `DbDriver.FindSqlShape` gives the rest |
| `DbDriver.GetI32` | db_driver.rs:561-583 | reading an i32 succeeds exactly on an in-range integer cell and returns it, and fails with an out-of-range error otherwise |
| `DbDriver.GetText` | db_driver.rs:561-583 | reading text succeeds exactly on a text cell and returns it |
| `DbDriver.GetBool` | db_driver.rs:561-583 | reading a boolean succeeds exactly on an integer cell and yields whether it is non-zero |
| `DbDriver.GetReal` | db_driver.rs:404 | reading a float succeeds exactly on a real or integer cell and returns its value |
| `DbDriver.DecodeRow` | db_driver.rs:348-586 | a decoded row is a record of the queried table's kind, and decoding fails only with a decode error |
| `DbDriver.DecodeEncodedRow` | db_driver.rs:348-586 | decoding a stored row gives back the record exactly when its integers fit in i32, and an out-of-range error otherwise |
| `DbDriver.Cursor` | db_driver.rs:368 | without a fault the cursor yields every row in order |
| `DbDriver.ScanEncodedRows` | db_driver.rs:348-586 | scanning the cursor over stored records decodes them all, in order |
| `DbDriver.ScanStopsAtCursorError` | db_driver.rs:368 | a cursor error ends the scan quietly with the rows already read |
| `DbDriver.ScanSpec` | db_driver.rs:368-376 | a scan returns at most one record per cursor step, all of the table's kind, and fails only with a decode error |
| `DbDriver.Scan` | db_driver.rs:368-376 | the decoding loop returns what the scan specification gives |
| `DbDriver.FindSpec` | db_driver.rs:43-124 | every record find returns is of the queried table's kind; find fails only with a decode error or a missing column, and always fails when a filter names a missing column |
| `DbDriver.FindReturnsSelection` | db_driver.rs:43-124 | find succeeds exactly when every filtered column exists, and then returns exactly the table's rows that satisfy the filters, all of the queried kind |
| `DbDriver.FindTruncatesOnCursorError` | db_driver.rs:368 | a cursor error at row k makes find return only the first k selected rows |
| `DbDriver.ApplyAll` | db_driver.rs:126-169 | a batch is refused only for a UNIQUE violation, and a batch without user records leaves USERS as it was |
| `DbDriver.ApplyAllSplits` | db_driver.rs:126-169 | applying a batch is applying its first part, then the rest only if the first part passed |
| `DbDriver.RefusedStatementKeepsStore` | db_driver.rs:126-169 | a refused statement leaves the store unchanged |
| `DbDriver.ApplyAllKeepsValid` | db_driver.rs:126-169 | a batch of statements keeps the store valid |
| `DbDriver.JoinSql` | db_driver.rs:178-185 | the join query starts with `SELECT * FROM`, the join clause and ` WHERE `, whether or not there are filters |
| `DbDriver.PrepareJoin` | db_driver.rs:181-187 | the join prepares exactly when there are filters, neither table is an account table (whose Display is plural), and every filtered column is in exactly one of the two tables |
| `DbDriver.JoinColumnError` | db_driver.rs:187 | a join prepares only if every filtered column is in exactly one of the two tables |
| `DbDriver.JoinPreparationFails` | db_driver.rs:181-187 | a join without filters is an incomplete statement; a join naming a plural table has no such table; a join that prepares has filters and two correctly named tables |
| `DbDriver.RowMapLastWins` | db_driver.rs:195-210 | the row map has exactly the column names, and a repeated name keeps the last column's text |
| `DbDriver.JoinRowsSpec` | db_driver.rs:195-214 | the join turns each row into its column-to-text map and stops at the first failed step, which gives one empty map |
| `DbDriver.JoinRowsStopAtFailure` | db_driver.rs:195-214 | the result is no longer than the steps; each entry is its step's row map, or empty for a failed step; every entry but the last comes from a row; the result is cut short only after a failed step; without failed steps there is one map per row |
| `DbDriver.JoinRows` | db_driver.rs:211-214 | the cursor loop returns what the join specification gives |
| `DbDriver.RenderRow` | db_driver.rs:196-209 | the cell loop builds the row map the specification gives |
| `DbDriver.Driver.constructor` | db_driver.rs:36-41 | the driver opens a fresh connection on the persisted tables |
| `DbDriver.Driver.Find` | db_driver.rs:43-124 | find, under the kind assertion, returns what the find specification gives |
| `DbDriver.Driver.Apply` | db_driver.rs:126-169 | insert, update and delete run the batch and leave the tables the batch semantics give |
| `DbDriver.Driver.JoinFind` | db_driver.rs:171-217 | a join that cannot be prepared aborts with its preparation error; otherwise it returns one map per row, up to and including the first failed step |
| `Server.RolesExclusive` | server_connection_impl.rs:659-681 | at most one of the three role tests holds, none holds without a session, and the role is compared case-insensitively |
| `Server.AubgEmailIsLowerCase` | server_connection_impl.rs:78 | an email that passes the AUBG rule is already lowercase |
| `Server.PhoneLength` | server_connection_impl.rs:79 | a phone number that passes the rule has 10 to 13 characters |
| `Server.StrongPasswordShape` | server_connection_impl.rs:80-84 | a password that passes the rules has at least four characters, and at least eight when it is ASCII |
| `Server.FoundUsers` | server_connection_impl.rs:56-71 | a users query on existing columns returns exactly the stored users that satisfy its filters |
| `Server.EmailSelects` | server_connection_impl.rs:86-89 | an email filter selects a user exactly when the stored email equals it |
| `Server.FoundByEmail` | server_connection_impl.rs:129-130 | looking up a stored user's email finds that user alone |
| `Server.RegisterSpec` | server_connection_impl.rs:73-127 | registration passes only for a signed-out caller with a non-empty name, an AUBG email, a valid or empty phone and a strong password, and only a signed-out caller changes the store |
| `Server.RegisterWritesOnlyValidUsers` | server_connection_impl.rs:73-127 | registration writes only when signed out, the lowercased email is unused, the name is non-empty, and email, phone and password pass their rules; it inserts the user with the hashed password |
| `Server.RegisterRejectsDuplicates` | server_connection_impl.rs:86-94 | registering an email whose lowercase form is stored fails with a conflict and writes nothing |
| `Server.LoginSpec` | server_connection_impl.rs:129-149 | a user login returns is not suspended, is not flagged for a password change, and has a stored password that verifies against the given one |
| `Server.LoginAdmitsActiveUsers` | server_connection_impl.rs:129-149 | login succeeds exactly for a stored, unsuspended user without a forced password change whose password verifies, and it is not-found exactly when no user has the email |
| `Server.LoginChecksInOrder` | server_connection_impl.rs:133-148 | login reports suspension first, then a forced password change, then the password check |
| `Server.UpdateUserSpec` | server_connection_impl.rs:151-161 | no update writes without a session, and a refusal for a changed protected field writes nothing and happens only to a non-admin |
| `Server.NonAdminUpdateProtectsFlags` | server_connection_impl.rs:733-761 | a non-admin update does not depend on who is signed in, and writes only when suspension, verification and role equal the stored user's |
| `Server.PasswordPreservation` | server_connection_impl.rs:151-161 | an update with an empty or hashed password keeps the stored password; any other stores its hash |
| `Server.DeleteUserSpec` | server_connection_impl.rs:163-190 | a deletion writes only for a signed-in caller who is an admin deleting someone else or a non-admin deleting themselves |
| `Server.DeleteUserPermission` | server_connection_impl.rs:163-190 | deletion is refused with no change exactly when there is no session or admin status equals self-deletion; otherwise it runs the DELETE |
| `Server.CourseBatchSpec` | server_connection_impl.rs:192-337 | only an admin or a teacher changes the store through a course batch, and no batch touches USERS |
| `Server.TeacherBatchAllOrNothing` | server_connection_impl.rs:192-337 | a teacher's batch is forbidden, with no change, if any course belongs to another teacher; otherwise all of it is applied |
| `Server.CourseBatchCompletes` | server_connection_impl.rs:192-337 | every statement of a course batch passes |
| `Server.AdminOnlySpec` | server_connection_impl.rs:432-499 | only an admin changes the store through the department and teacher-account operations |
| `Server.AdminOnlyGuards` | server_connection_impl.rs:432-499 | department writes and teacher-account updates fail with no change unless an admin is signed in, and run the statement otherwise |
| `Server.Transmute` | server_connection_impl.rs:721-731 | an enrolment carries the student, the course, the ungraded mark -1 and the semester from the month (June–December is Fall) |
| `Server.EnrolSpec` | server_connection_impl.rs:501-657 | only a student changes the store by enrolling or dropping, and USERS is never touched |
| `Server.EnrolOwnershipNeverFails` | server_connection_impl.rs:501-657 | the ownership check never fails, so a student's batch is always applied in full |
| `Server.FilterUsers` | server_connection_impl.rs:339-362 | the user search keeps exactly the users whose email or id text contains the query |
| `Server.FilterCourses` | server_connection_impl.rs:364-386 | the course search keeps exactly the courses whose id text contains the query |
| `Server.SearchUsersFindsMatches` | server_connection_impl.rs:339-362 | searching users succeeds and returns exactly the stored users whose email or id contains the query |
| `Server.GetUsersReturnsAll` | server_connection_impl.rs:40-54 | listing users succeeds and returns exactly the stored users |
| `Server.SearchCoursesFindsMatches` | server_connection_impl.rs:364-386 | searching courses succeeds and returns exactly the stored courses whose id text contains the query |
| `Server.SearchUsersSpec` | server_connection_impl.rs:339-362 | every user a successful search returns has the query in their email or their decimal id |
| `Server.SearchCoursesSpec` | server_connection_impl.rs:364-386 | every course a successful search returns has the query in its decimal id |
| `Server.GetUsersSpec` | server_connection_impl.rs:40-54 | the unfiltered users query; `Server.GetUsersReturnsAll` states that it returns exactly the stored users |
| `Server.FoundDepartments` | server_connection_impl.rs:409-420 | the departments found for an id are exactly the stored departments with that id |
| `Server.DepartmentLookup` | server_connection_impl.rs:409-430 | a department lookup returns a stored department with the id, and reports not found exactly when there is none |
| `Server.DepartmentSpec` | server_connection_impl.rs:409-430 | the first department the id query finds, or not found; `Server.DepartmentLookup` states it |
| `Server.IdSelects` | server_connection_impl.rs:735-736 | an id filter selects a user exactly when the ids are equal |
| `Server.FoundAs` | db_driver.rs:43-124 | a query on existing columns returns exactly the records of the selected rows |
| `Server.FoundEnrolments` | server_connection_impl.rs:549-577 | the enrolments found for a student id are exactly the stored enrolments of that student |
| `Server.FoundAccounts` | server_connection_impl.rs:579-609 | the accounts found for a student id are exactly the stored accounts of that student |
| `Server.ListEnrolmentsSpec` | server_connection_impl.rs:549-577 | a listing succeeds only for a student, and without a session it is unauthenticated |
| `Server.StandingSpec` | server_connection_impl.rs:579-609 | a standing is returned, or the empty-index panic raised, only for a signed-in student |
| `Server.ListEnrolmentsOwn` | server_connection_impl.rs:549-577 | a student lists exactly their own enrolments; other roles are forbidden; no session is unauthenticated |
| `Server.StandingOfStudent` | server_connection_impl.rs:579-609 | a student's standing is one of their accounts, and the lookup fails with an index out of bounds exactly when they have none |
| `Server.StatisticsBreaksKindAssertion` | server_connection_impl.rs:699-703 | the first four statistics queries pass the kind assertion and the fifth does not |
| `Server.StatisticsIntendedPassesKindAssertion` | server_connection_impl.rs:683-716 | the corrected plan differs from the written one only in the fifth query's table, and all seven queries pass the kind assertion |
| `Server.CountWholeTable` | server_connection_impl.rs:704-705 | counting a table without filters gives its size |
| `Server.CountPartOfTable` | server_connection_impl.rs:684-703 | counting a filtered table succeeds and gives at most its size |
| `Server.StatisticsColumnsExist` | server_connection_impl.rs:684-705 | every column the statistics filter on exists |
| `Server.StatisticsBounded` | server_connection_impl.rs:683-716 | statistics succeed; users, courses and departments are the table sizes; suspended users and graduating students are bounded by their tables |
| `Server.Tally` | server_connection_impl.rs:684-716 | the statistics succeed exactly when all seven counts do, and active students are the student count minus every suspended user |
| `Server.StatisticsSpec` | server_connection_impl.rs:683-716 | the tally of the seven corrected counts; `Server.StatisticsBounded` states its values |
| `Server.ServerConnection.constructor` | server_connection_impl.rs:32-38 | a connection starts with no session over the persisted tables |
| `Server.ServerConnection.FindUsersVia` | server_connection_impl.rs:56-71 | a users query returns the users the find specification gives |
| `Server.ServerConnection.RegisterUser` | server_connection_impl.rs:73-127 | registration leaves the tables and outcome its specification gives |
| `Server.ServerConnection.Login` | server_connection_impl.rs:129-149 | a login that succeeds sets the session to the found user; a failed one keeps the session and reports the error |
| `Server.ServerConnection.UpdateUser` | server_connection_impl.rs:151-161 | an update leaves the tables and outcome its specification gives |
| `Server.ServerConnection.DeleteUser` | server_connection_impl.rs:163-190 | a deletion leaves the tables and outcome its specification gives |
| `Server.ServerConnection.CourseBatch` | server_connection_impl.rs:192-337 | registering, removing or updating courses leaves the tables its specification gives |
| `Server.ServerConnection.AdminOnly` | server_connection_impl.rs:432-499 | an admin-only write leaves the tables its specification gives |
| `Server.ServerConnection.Enrol` | server_connection_impl.rs:501-657 | enrolling in or dropping courses leaves the tables its specification gives |
| `Server.ServerConnection.SearchUsers` | server_connection_impl.rs:339-362 | the user search returns what its specification gives |
| `Server.ServerConnection.GetUsers` | server_connection_impl.rs:40-54 | listing users returns what its specification gives |
| `Server.ServerConnection.SearchCourses` | server_connection_impl.rs:364-386 | the course search returns what its specification gives |
| `Server.ServerConnection.GetDepartment` | server_connection_impl.rs:409-430 | the department lookup returns what its specification gives |
| `Server.ServerConnection.GetDepartments` | server_connection_impl.rs:388-407 | listing departments returns every stored department |
| `Server.ServerConnection.GetTeacherAccounts` | server_connection_impl.rs:466-485 | listing teacher accounts returns every stored teacher account |
| `Server.ServerConnection.NewDepartment` | server_connection_impl.rs:432-449 | creating a department is an admin-only INSERT |
| `Server.ServerConnection.RemoveDepartment` | server_connection_impl.rs:451-464 | removing a department is an admin-only DELETE |
| `Server.ServerConnection.UpdateTeacherAccount` | server_connection_impl.rs:487-499 | updating a teacher account is an admin-only UPDATE |
| `Server.ServerConnection.ListEnrolments` | server_connection_impl.rs:549-577 | listing enrolments returns what its specification gives |
| `Server.ServerConnection.CountVia` | server_connection_impl.rs:684-705 | one statistics count returns the size of its query's result |
| `Server.ServerConnection.GenerateStatistics` | server_connection_impl.rs:683-716 | the statistics are the tally of the seven corrected queries |
| `Server.ServerConnection.GetStudentStanding` | server_connection_impl.rs:579-609 | the standing returned is what its specification gives |

## Left out

- Password hashing and verification (`password.rs`, argon2) are not part of
  this model. `hash` and `verify` are function parameters of the server
  connection, and the random salt is an argument of each operation that hashes.
- The panic `verify` raises on a malformed stored hash is not modelled: `verify`
  is a total function parameter.
- The current month that `transmute` reads from the clock is an argument.
- The REST layer and program start-up (`rest_api.rs`, `main.rs`) are not part of
  this model.
- SQLite itself is modelled by its effect on typed rows. Statements execute
  structurally, and the SQL text is modelled separately by the rendering
  functions, so SQL injection through unescaped quotes is not modelled.
- The SQLite build is assumed to use SQLite's own compile-time defaults:
  foreign keys off (SQLITE_DEFAULT_FOREIGN_KEYS=0) and double-quoted strings
  accepted (SQLITE_DQS=3). The source never turns foreign keys on, so they are
  not enforced. A build that enables foreign keys by default is not modelled.
  A build with SQLITE_DQS=0 is not modelled either: there, the `"cr_cost"` of
  the can_grad subquery would be a missing column and every enrolment write
  would be refused.
- Transactions and the file on disk are not modelled.
- Floats are `real`. `Text.FloatText` stands in for Rust's float Display: it is
  exact for integral and short decimal values. The precision of `f32` grades is
  not modelled.
- `to_lowercase` is modelled as ASCII lowercasing (`Text.AsciiLower`). Non-ASCII
  email addresses are never lowercased by the model.
- The rows `join_find` reads from the engine are a parameter (`steps`). The
  engine's join semantics are not modelled, only how each row becomes a map,
  that a failed step ends the rows, and when preparation fails.
- The server's reads are modelled without cursor faults. The driver's cursor
  fault is modelled once, in `DbDriver.FindTruncatesOnCursorError`.
- The `as i32` casts of the statistics counts are not modelled. The counts are
  unbounded integers.
- Panics (`unwrap`, `assert_eq!`, `student[0]`) are modelled as follows:
  - an `unwrap` or `student[0]` becomes an error result (`Aborted`,
    `IndexOutOfBounds`);
  - `assert_eq!` in `find` becomes the precondition `FiltersMatch` of
    `DbDriver.Driver.Find`.
- `Server.ServerConnection.GenerateStatistics` asks all seven corrected queries
  before tallying. The source stops at the first failing query; the result is
  the same because each query only reads.
- Session expiry and concurrent connections are not modelled.

## Findings

| source | as written | input that shows it | evidently intended | confidence | as-written member | corrected member |
|---|---|---|---|---|---|---|
| sqlite_conn.rs:151-154 | the graduation subquery of each cgpa trigger sums `"cr_cost"` over STUDENT_COURSES alone, which has no such column; SQLite's default build reads it as the string 'cr_cost', so the sum is 0 and every enrolment write sets can_grad to 0 | inserting `StudentCourse(7, 3, 4.0, "F24")` for a 120-credit course 3 when account 7 exists | sum the credits over the same STUDENT_COURSES ⋈ COURSES join the cgpa uses, and graduate at 120 graded credits | not executed | `SqliteConn.GraduationLostAsWritten` | `SqliteConn.EnrolmentWriteRecordsStanding` |
| server_connection_impl.rs:699-703 | the graduating-students count queries `Table::Users` with a `StudentAccount` filter, so `find`'s kind assertion panics on every call | any call of `generate_statistics` | query `Table::StudentAccount` with `CanGrad(true)` | not executed | `Server.StatisticsBreaksKindAssertion` | `Server.StatisticsIntendedPassesKindAssertion` |
