/** Error translation: engine status codes and bridge-detected failures
    become host exceptions. `Throw` in the bridge raises a host exception and
    does not return; here it yields a failed result that the caller returns
    at once. */
module Errors {
  import opened Wrappers

  /** The two host exception types the bridge constructs. */
  datatype Error =
    | SqliteException(message: string)
    | SqliteSyntaxException(message: string, sql: string)

  const ArgsNotListMessage := "args must be a List"
  const ArgCountMessage := "Number of arguments doesn't match number of placeholders"
  const InvalidParameterMessage := "Invalid parameter type"
  const UnknownResultMessage := "Unknown result type"
  const UnreachableMessage := "Unreachable"

  /** `Throw(message)`: raise a `SqliteException` carrying `message`. */
  function Throw(message: string): (r: Outcome<Error>)
    ensures r.Fail? && r.error.SqliteException? && r.error.message == message
  {
    Fail(SqliteException(message))
  }

  /** `CheckSqlError(db, result)`: raise with the connection's current error
      message (`errmsg`, what `sqlite3_errmsg(db)` returns) exactly when the
      status is non-zero. */
  function CheckSqlError(errmsg: string, result: int): (r: Outcome<Error>)
    ensures r.Fail? <==> result != 0
    ensures r.Fail? ==> r.error == SqliteException(errmsg)
  {
    if result != 0 then Throw(errmsg) else Pass
  }
}
