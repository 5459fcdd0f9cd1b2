/** src/lib/withAuth.ts: the session gate that wraps the API handlers, and the mapping of an
    error thrown by a handler to a response. */
module ApiAuth {
  import opened Common
  import opened Store

  /** What a thrown value can be: an `Error` with its message, or anything else. */
  datatype Thrown = ErrorObject(message: string) | OtherValue

  /** How a handler finishes: with a response, or by throwing. */
  datatype Outcome<T> = Returned(response: Response<T>) | Threw(thrown: Thrown)

  /** The response to a request without a signed-in user. */
  function AuthRequired<T>(): (r: Response<T>)
    ensures r.Fail? && r.Status() == 401
  {
    Fail(401, "Authentication required")
  }

  /** The `catch` block: constraint violations named in an `Error`'s message become 409 or
      400, everything else 500; a unique-constraint message wins over a foreign-key one. */
  function ErrorResponse<T>(e: Thrown): (r: Response<T>)
    ensures r.Fail?
    ensures r.Status() == 409 <==> e.ErrorObject? && Contains(e.message, "Unique constraint")
    ensures r.Status() == 400 <==>
              e.ErrorObject? && !Contains(e.message, "Unique constraint")
              && Contains(e.message, "Foreign key constraint")
    ensures r.Status() in {400, 409, 500}
  {
    if e.ErrorObject? && Contains(e.message, "Unique constraint") then Fail(409, "Resource already exists")
    else if e.ErrorObject? && Contains(e.message, "Foreign key constraint") then Fail(400, "Referenced resource not found")
    else Fail(500, "Internal server error")
  }

  /** `withAuth(handler)` applied to a request: 401 without a session user, otherwise the
      handler's response, or the mapped error when the handler throws. */
  function WithAuth<T>(session: Option<SessionUser>, handler: SessionUser -> Outcome<T>): (r: Response<T>)
    ensures session.None? ==> r == Fail(401, "Authentication required")
    ensures session.Some? && handler(session.value).Returned? ==> r == handler(session.value).response
    ensures session.Some? && handler(session.value).Threw? ==> r == ErrorResponse(handler(session.value).thrown)
  {
    match session
    case None => AuthRequired()
    case Some(user) =>
      match handler(user)
      case Returned(resp) => resp
      case Threw(e) => ErrorResponse(e)
  }

  /** The handler `withAuthAndParams` passes to `withAuth`: the route handler with the route
      parameters supplied. */
  function WithParams<P, T>(handler: (SessionUser, P) -> Outcome<T>, params: P): SessionUser -> Outcome<T> {
    (user: SessionUser) => handler(user, params)
  }

  /** `withAuthAndParams(handler)` applied to a request with route parameters: gated and
      error-mapped exactly as `withAuth`, with the handler seeing the parameters. */
  function WithAuthAndParams<P, T>(session: Option<SessionUser>, handler: (SessionUser, P) -> Outcome<T>, params: P)
    : (r: Response<T>)
    ensures session.None? ==> r == Fail(401, "Authentication required")
    ensures session.Some? && handler(session.value, params).Returned? ==> r == handler(session.value, params).response
    ensures session.Some? && handler(session.value, params).Threw? ==> r == ErrorResponse(handler(session.value, params).thrown)
  {
    WithAuth(session, WithParams(handler, params))
  }
}
