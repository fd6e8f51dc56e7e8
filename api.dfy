/// The HTTP boundary shared by both controllers: the roles a caller can
/// hold, the reply a handler sends, and the role check the auth middleware
/// performs before a protected handler runs.
module Api {
  import opened Store

  datatype Role = Student | Admin | Station

  /** The status a handler answers with: 200, 400, 404 and 500. `Denied`
      is the auth middleware's refusal, sent before the handler runs. */
  datatype Status = OK | BadRequest | NotFound | ServerError | Denied

  datatype Reply<T> = Reply(status: Status, body: Option<T>)

  /** The middleware lets a request through when its caller was resolved
      to a user whose role is on the route's list. */
  predicate Permits(allowed: set<Role>, caller: Option<Role>)
  {
    caller.Some? && caller.value in allowed
  }
}
