/** How a route's pieces compose into the reply the client sees: the
    validator chain with `handleValidationErrors`, then the handler wrapped
    in `asyncHandler`, whose thrown errors reach `errorHandler`. */
module Api {
  import opened Errors
  import opened Validation
  import opened Common
  import opened Storage

  /** A reply: the handler's JSON with its status, the 400
      `{ error: 'Validation failed', details }`, or the `errorHandler` reply. */
  datatype Response<T> =
    | Success(status: int, body: T)
    | Invalid(details: seq<FieldError>)
    | Failure(reply: ErrorReply)

  const ValidationFailed: string := "Validation failed"

  function StatusOf<T>(r: Response<T>): int
  {
    match r
    case Success(status, _) => status
    case Invalid(_) => 400
    case Failure(reply) => reply.status
  }

  /** A handler's effect on the store together with what it returned or threw. */
  datatype Handled<S, T> = Handled(state: S, outcome: Outcome<T>)

  /** A whole request: the store afterwards and the reply. */
  datatype Served<S, T> = Served(state: S, response: Response<T>)

  /** `asyncHandler` forwarding to `errorHandler`: a returned value is sent
      with the route's status, a thrown error is classified. */
  function Reply<T>(o: Outcome<T>, status: int): (r: Response<T>)
    ensures r.Success? <==> o.Done?
    ensures r.Success? ==> r.body == o.value && StatusOf(r) == status
    ensures r.Failure? ==> r.reply == HandleError(o.error)
    ensures !r.Invalid?
  {
    match o
    case Done(v) => Success(status, v)
    case Thrown(e) => Failure(HandleError(e))
  }

  /** `throw new AppError(status, message)` from a handler: the client gets
      that status and message. */
  lemma OperationalErrorsPassThrough<T>(status: int, message: string, code: int)
    ensures Reply<T>(Thrown(Operational(status, message)), code) == Failure(ErrorReply(status, message))
  {
  }

  /** The body of both `DELETE /:id` handlers: run the DELETE and throw the
      route's operational 404 when it changed no row, otherwise answer with
      the route's confirmation text. */
  function DeleteById<R>(t: map<Id, R>, id: Id, deleted: string, notFound: string): (h: Handled<map<Id, R>, string>)
    ensures h.outcome.Done? <==> id in t
    ensures h.outcome.Done? ==> h.state == t - {id} && h.outcome.value == deleted
    ensures h.outcome.Thrown? ==> h.state == t && h.outcome.error == Operational(404, notFound)
  {
    var w := Storage.Delete(t, id);
    if w.changes == 0 then Handled(t, Thrown(Operational(404, notFound)))
    else Handled(w.table, Done(deleted))
  }
}
