/** Failure-compatible wrappers and the error kinds the record layer reports.
    The source returns `anyhow` errors carrying a message; the model keeps the
    kind of each error and, where the source has several messages of one kind,
    which check produced it. */
module Results {

  datatype Option<+T> = None | Some(value: T) {
    function GetOr(default: T): T {
      match this
      case Some(v) => v
      case None => default
    }
  }

  datatype Result<+T> = Ok(value: T) | Err(error: Error) {
    predicate IsFailure() {
      Err?
    }

    function PropagateFailure<U>(): Result<U>
      requires Err?
    {
      Err(error)
    }

    function Extract(): T
      requires Ok?
    {
      value
    }
  }

  datatype Outcome = Pass | Fail(error: Error) {
    predicate IsFailure() {
      Fail?
    }

    function PropagateFailure(): Outcome
      requires Fail?
    {
      this
    }
  }

  /** Why a statement was refused by the store. */
  datatype StoreError =
    | UniqueViolation(table: string, column: string)  // a UNIQUE constraint failed
    | NoSuchColumn(column: string)                    // the statement names a column the table lacks
    | AmbiguousColumn(column: string)                 // an unqualified column both joined tables have
    | NoSuchTable(table: string)                      // the statement names a table the schema lacks
    | IncompleteStatement                             // the text ends where an expression must follow

  /** Why a column could not be read into a field (rusqlite `row.get`). */
  datatype DecodeError =
    | InvalidColumnIndex(index: nat)
    | InvalidColumnType(index: nat)
    | IntegralValueOutOfRange(index: nat)

  /** Which registration or profile check refused the input. */
  datatype Check =
    | EmptyUsername | BadEmail | BadPhone | WeakPassword
    | SuspendedChanged | VerifiedChanged | RoleChanged

  datatype Error =
    | StorageFailure(store: StoreError)  // the backing store refused a statement
    | Decode(decode: DecodeError)        // a row's column did not coerce to its field
    | Unauthenticated                    // "Must be signed in."
    | AlreadySignedIn                    // "Must be signed out."
    | Forbidden                          // role or ownership check failed
    | Conflict                           // a user with this email already exists
    | ValidationFailed(check: Check)     // malformed input, or a protected field changed
    | NotFound                           // no such user, or no such department
    | UserSuspended                      // login of a suspended user
    | MustChangePassword                 // login of a user flagged forcenewpw
    | InvalidCredential                  // password does not verify
    | IndexOutOfBounds                   // `v[0]` on an empty vector: a panic in the source
    | Aborted(cause: StoreError)         // `unwrap` of a failed statement: a panic in the source
}
