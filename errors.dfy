/** The outcome of an endpoint and the error handlers registered for the codes
    the API aborts with. */
module Errors {
  import opened Records

  /** The HTTP error statuses the application registers a handler for. */
  datatype Status = BadRequest | NotFound | MethodNotAllowed | Unprocessable | InternalServerError

  /** An endpoint either succeeds with a payload or aborts with a status. */
  datatype Response<+T> = Ok(payload: T) | Err(status: Status)

  /** The JSON body every error handler returns. */
  datatype ErrorEnvelope = ErrorEnvelope(success: bool, error: int, message: string)

  /** The numeric HTTP code of a status. */
  function Code(s: Status): (code: int)
    ensures 400 <= code < 600
  {
    match s
    case BadRequest => 400
    case NotFound => 404
    case MethodNotAllowed => 405
    case Unprocessable => 422
    case InternalServerError => 500
  }

  /** The message text the handler for a status reports. */
  function Message(s: Status): (m: string)
    ensures |m| > 0
  {
    match s
    case BadRequest => "Bad request"
    case NotFound => "Resource not found"
    case MethodNotAllowed => "Method not allowed"
    case Unprocessable => "Unprocessable entry"
    case InternalServerError => "Internal server error, please try again later"
  }

  /** The handler Flask dispatches `abort(code)` to, if the application registers one. */
  function HandlerFor(code: int): (r: Option<Status>)
    ensures r.Some? ==> Code(r.value) == code
    ensures r.None? ==> code !in {400, 404, 405, 422, 500}
  {
    if code == 400 then Some(BadRequest)
    else if code == 404 then Some(NotFound)
    else if code == 405 then Some(MethodNotAllowed)
    else if code == 422 then Some(Unprocessable)
    else if code == 500 then Some(InternalServerError)
    else None
  }

  /** The body a handler returns: never a success, carrying its own code. */
  function Envelope(s: Status): (e: ErrorEnvelope)
    ensures !e.success && e.error == Code(s) && e.message == Message(s)
    ensures HandlerFor(e.error) == Some(s)
  {
    ErrorEnvelope(false, Code(s), Message(s))
  }

  /** Every status is reachable through its own code, and two statuses never
      share a code or a message, so a client can tell them apart by either. */
  lemma HandlerTableIsOneToOne(s: Status, t: Status)
    ensures HandlerFor(Code(s)) == Some(s)
    ensures s != t ==> Code(s) != Code(t) && Message(s) != Message(t)
  {
  }
}
