/** Error classification (backend/src/middleware/errorHandler.ts): every error
    a route handler throws becomes one (status, message) reply, by a fixed
    precedence that keeps database detail away from the client. */
module Errors {
  import opened Text

  /** `AppError` carries its own status; anything else thrown is a plain
      `Error` known only by its message. */
  datatype Error =
    | AppError(statusCode: int, message: string, isOperational: bool)
    | PlainError(message: string)

  /** What a route handler produces: a value, or the error it throws. */
  datatype Outcome<T> = Done(value: T) | Thrown(error: Error)

  /** The `{ status: 'error', message }` reply and its HTTP status. */
  datatype ErrorReply = ErrorReply(status: int, message: string)

  const DatabaseErrorMessage: string := "Database error occurred"
  const UnexpectedErrorMessage: string := "An unexpected error occurred"

  /** `new AppError(status, message)`: operational unless said otherwise. */
  function Operational(statusCode: int, message: string): Error
  {
    AppError(statusCode, message, true)
  }

  predicate IsOperational(e: Error)
  {
    e.AppError? && e.isOperational
  }

  /** `errorHandler`: an operational AppError speaks for itself; otherwise a
      message mentioning SQLITE becomes a fixed 500, one mentioning Validation
      a 400 with that message, and anything else the generic 500. */
  function HandleError(e: Error): (r: ErrorReply)
    ensures IsOperational(e) ==> r == ErrorReply(e.statusCode, e.message)
    ensures !IsOperational(e) ==> r.status == 400 || r.status == 500
    ensures !IsOperational(e) && Contains(e.message, "SQLITE") ==> r == ErrorReply(500, DatabaseErrorMessage)
    ensures !IsOperational(e) && !Contains(e.message, "SQLITE") && Contains(e.message, "Validation")
      ==> r == ErrorReply(400, e.message)
    ensures !IsOperational(e) && !Contains(e.message, "SQLITE") && !Contains(e.message, "Validation")
      ==> r == ErrorReply(500, UnexpectedErrorMessage)
  {
    if IsOperational(e) then ErrorReply(e.statusCode, e.message)
    else if Contains(e.message, "SQLITE") then ErrorReply(500, DatabaseErrorMessage)
    else if Contains(e.message, "Validation") then ErrorReply(400, e.message)
    else ErrorReply(500, UnexpectedErrorMessage)
  }

  /** No internal detail leaks: the reply repeats the error's own text only
      for an operational AppError or for a message that mentions Validation
      and not SQLITE; every other reply carries one of two fixed messages. */
  lemma ReplyLeaksNothing(e: Error)
    ensures var r := HandleError(e);
      || IsOperational(e)
      || (r.message == e.message && Contains(e.message, "Validation") && !Contains(e.message, "SQLITE"))
      || r.message == DatabaseErrorMessage
      || r.message == UnexpectedErrorMessage
    ensures !IsOperational(e) && Contains(e.message, "SQLITE") ==> !Contains(HandleError(e).message, "SQLITE")
  {
    if !IsOperational(e) && Contains(e.message, "SQLITE") {
      var m := DatabaseErrorMessage;
      assert forall k :: 0 <= k < |m| ==> m[k] != 'S';
      forall i: nat ensures !OccursAt(m, "SQLITE", i) {
        if i + 6 <= |m| {
          assert m[i..i + 6][0] == m[i];
        }
      }
    }
  }

  /** A non-operational AppError is classified by its message alone, exactly
      like a plain error with the same message. */
  lemma NonOperationalFallsThrough(statusCode: int, message: string)
    ensures HandleError(AppError(statusCode, message, false)) == HandleError(PlainError(message))
  {
  }

  /** `notFoundHandler`: an unknown route is a 404 naming the requested URL. */
  function NotFoundRoute(url: string): (r: ErrorReply)
    ensures r.status == 404
    ensures |r.message| == |url| + 16
    ensures r.message[..6] == "Route " && r.message[|r.message| - 10..] == " not found"
    ensures r.message[6..|r.message| - 10] == url
  {
    ErrorReply(404, "Route " + url + " not found")
  }
}
