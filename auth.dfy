/**
 * The per-request context: the server-side session record the resolvers
 * read and write. The session store, its time-to-live and the cookie token
 * are outside this model; only the `userId` attribute and whether the
 * response cleared the `sid` cookie are kept.
 */
module Context {
  import opened Wrappers

  class Session {
    var userId: Option<int>
    var cookieCleared: bool

    /** A fresh, anonymous session. */
    constructor ()
      ensures userId == None && !cookieCleared
    {
      userId := None;
      cookieCleared := false;
    }
  }
}

/**
 * The `isAuth` middleware: it lets a resolver run only when the session
 * carries a truthy user id (present and non-zero, as JavaScript reads a
 * number), and otherwise raises "Not authenticated".
 */
module Auth {
  import opened Wrappers

  /** The outcome of a guarded resolver: the thrown authentication error, or what the resolver returned. */
  datatype Guarded<R> = NotAuthenticated | Proceed(value: R)

  /** JavaScript truthiness of the optional numeric session user id. */
  predicate Authenticated(userId: Option<int>) {
    userId.Some? && userId.value != 0
  }

  /**
   * The middleware: `next` is consulted only for an authenticated session,
   * and its result is passed through unchanged. The session is an input
   * value, so the guard cannot change it.
   */
  function IsAuth<R>(userId: Option<int>, next: () -> R): (r: Guarded<R>)
    ensures r.NotAuthenticated? <==> userId.None? || userId == Some(0)
    ensures r.Proceed? ==> r.value == next()
  {
    if !Authenticated(userId) then NotAuthenticated else Proceed(next())
  }
}
