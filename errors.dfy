/**
 * The server's error responses (src/lib/errors.ts): each handler answers with a JSON body
 * `{ error: message }` and a status code. The logging in `handleError` is left out.
 */
module ErrorResponses {
  import opened Wrappers

  /** A JSON error response: the status code and the `error` field of the body. */
  datatype Response = Response(status: int, error: string)

  /** The kinds of error the server reports. */
  datatype Kind = Internal | Invalid | Unauthorized | NotFound

  /**
   * `handleError`: always 500 with a fixed message; the error value itself is accepted and
   * never looked at, so nothing of it reaches the client.
   */
  function HandleError<E>(error: E): (r: Response)
    ensures r.status == 500 && r.error == "Internal Server Error"
  {
    Response(500, "Internal Server Error")
  }

  /** `handleValidationError`: 400 with the caller's message as given. */
  function HandleValidationError(message: string): (r: Response)
    ensures r.status == 400 && r.error == message
  {
    Response(400, message)
  }

  /** `handleUnauthorized`: 401; an omitted message (`None`) defaults to "Unauthorized". */
  function HandleUnauthorized(message: Option<string>): (r: Response)
    ensures r.status == 401
    ensures r.error == (if message.Some? then message.value else "Unauthorized")
  {
    Response(401, if message.Some? then message.value else "Unauthorized")
  }

  /** `handleNotFound`: 404; an omitted message (`None`) defaults to "Not Found". */
  function HandleNotFound(message: Option<string>): (r: Response)
    ensures r.status == 404
    ensures r.error == (if message.Some? then message.value else "Not Found")
  {
    Response(404, if message.Some? then message.value else "Not Found")
  }

  /** What a client learns from the status code alone. */
  function KindOf(status: int): Option<Kind> {
    if status == 500 then Some(Internal)
    else if status == 400 then Some(Invalid)
    else if status == 401 then Some(Unauthorized)
    else if status == 404 then Some(NotFound)
    else None
  }

  /**
   * Every handler's status tells the client which kind of error it was, whatever the message;
   * and two internal errors are indistinguishable, whatever went wrong.
   */
  lemma StatusIdentifiesKind<E>(e1: E, e2: E, message: string, given: Option<string>)
    ensures KindOf(HandleError(e1).status) == Some(Internal)
    ensures KindOf(HandleValidationError(message).status) == Some(Invalid)
    ensures KindOf(HandleUnauthorized(given).status) == Some(Unauthorized)
    ensures KindOf(HandleNotFound(given).status) == Some(NotFound)
    ensures HandleError(e1) == HandleError(e2)
  {
  }
}
