/**
 * The user resolver: `register`, `login`, `logout` and `currentUser`.
 *
 * The user table is a map from id to row, kept by `Resolver` together with
 * the id counter and the argon2 functions; the session record is the
 * `Session` object of the request context, which these methods update.
 * argon2 is a pair of functions the model does not look inside, of which
 * only "a digest verifies against the password it was made from" is known.
 */
module UserResolver {
  import opened Wrappers
  import opened Entities
  import opened Validation
  import opened Context
  import opened Auth

  const UsernameTaken := FieldError("username", "Username is already taken")
  const UserNotFound := FieldError("username", "User not found")
  const PasswordIncorrect := FieldError("password", "Password is incorrect")

  /** The store's code for a violated unique constraint. */
  const UniqueViolation := "P2002"

  /** argon2: `hash` makes a digest of a password, `verify` checks a password against a digest. */
  datatype Argon = Argon(hash: string -> string, verify: (string, string) -> bool)

  /** A digest always verifies against the password it was made from. */
  ghost predicate Sound(argon: Argon) {
    forall p: string :: argon.verify(argon.hash(p), p)
  }

  /** A failed write: a known request error carrying its code, or any other failure. */
  datatype StoreError = KnownRequest(code: string) | Unknown

  /** The result of `register` and `login`: field errors, or the (possibly undefined) user. */
  datatype UserResponse = WithErrors(errors: seq<FieldError>) | WithUser(user: Option<User>)

  /** The primary key: every row is stored under its own id. */
  ghost predicate Keyed(users: map<int, User>) {
    forall id :: id in users ==> users[id].id == id
  }

  /** The unique index on `username`. */
  ghost predicate UniqueUsernames(users: map<int, User>) {
    forall i, j :: i in users && j in users && users[i].username == users[j].username ==> i == j
  }

  predicate Taken(users: map<int, User>, username: string) {
    exists id :: id in users && users[id].username == username
  }

  /** `findUnique({ where: { username } })`: the one row with that username, or null. */
  function FindByUsername(users: map<int, User>, username: string): (r: Option<User>)
    requires Keyed(users) && UniqueUsernames(users)
    ensures r.Some? <==> Taken(users, username)
    ensures r.Some? ==> r.value.id in users && users[r.value.id] == r.value && r.value.username == username
  {
    if Taken(users, username) then
      var id :| id in users && users[id].username == username;
      Some(users[id])
    else None
  }

  /**
   * How `user.create` ends: the failure the store reports on its own
   * (`fault`), else a unique-constraint violation when the username is
   * taken, else success (None).
   */
  function CreateFailure(users: map<int, User>, username: string, fault: Option<StoreError>): (r: Option<StoreError>)
    ensures fault.None? ==> (r.None? <==> !Taken(users, username))
    ensures r.Some? && !IsConflict(r.value) ==> r == fault
  {
    if fault.Some? then fault
    else if Taken(users, username) then Some(KnownRequest(UniqueViolation))
    else None
  }

  /** The failure `register` turns into a field error: a known request error with code P2002. */
  predicate IsConflict(e: StoreError) {
    e.KnownRequest? && e.code == UniqueViolation
  }

  class Resolver {
    var users: map<int, User>
    var nextId: int
    const argon: Argon

    ghost predicate Valid()
      reads this
    {
      && Sound(argon)
      && Keyed(users)
      && UniqueUsernames(users)
      && 1 <= nextId
      && forall id :: id in users ==> 1 <= id < nextId
    }

    constructor (argon: Argon)
      requires Sound(argon)
      ensures Valid() && users == map[] && this.argon == argon
    {
      users := map[];
      nextId := 1;
      this.argon := argon;
    }

    /**
     * `logout()`: the session is destroyed and the `sid` cookie cleared
     * whatever happens; the answer is false exactly when the session store
     * reports an error while destroying (`destroyFailed`).
     */
    method Logout(session: Session, destroyFailed: bool) returns (ok: bool)
      modifies session
      ensures session.userId == None && session.cookieCleared
      ensures ok <==> !destroyFailed
    {
      session.userId := None;
      session.cookieCleared := true;
      ok := !destroyFailed;
    }

    /**
     * `currentUser()`: null for a falsy session id or one that names no
     * stored user, otherwise that user; it changes nothing.
     */
    function CurrentUser(session: Session): (r: Option<User>)
      requires Valid()
      reads this, session
      ensures r.None? <==> !Authenticated(session.userId) || session.userId.value !in users
      ensures r.Some? ==> r.value.id == session.userId.value && r.value in users.Values
    {
      if !Authenticated(session.userId) then None
      else if session.userId.value !in users then None
      else Some(users[session.userId.value])
    }

    /**
     * `register(username, password)`: validation errors first; then the
     * digest of the password is stored with a new id. A taken username
     * becomes the "already taken" field error; any other store failure
     * (`fault`) is swallowed, leaving the user undefined and the session
     * id unset. On success the session belongs to the new user.
     */
    method Register(session: Session, username: string, password: string, fault: Option<StoreError>) returns (r: UserResponse)
      requires Valid()
      modifies this, session
      ensures Valid() && session.cookieCleared == old(session.cookieCleared)
      ensures ValidateRegister(username, password).Some? ==>
        && r == WithErrors(ValidateRegister(username, password).value)
        && users == old(users) && nextId == old(nextId) && session.userId == old(session.userId)
      ensures ValidateRegister(username, password).None? ==>
        var failure := CreateFailure(old(users), username, fault);
        && (failure.Some? && IsConflict(failure.value) ==>
              r == WithErrors([UsernameTaken]) && users == old(users) && nextId == old(nextId)
              && session.userId == old(session.userId))
        && (failure.Some? && !IsConflict(failure.value) ==>
              r == WithUser(None) && users == old(users) && nextId == old(nextId) && session.userId == None)
        && (failure.None? ==>
              var user := User(old(nextId), username, argon.hash(password));
              && !Taken(old(users), username) && old(nextId) !in old(users)
              && users == old(users)[old(nextId) := user] && nextId == old(nextId) + 1
              && r == WithUser(Some(user))
              && session.userId == Some(user.id) && Authenticated(session.userId))
    {
      var errors := ValidateRegister(username, password);
      if errors.Some? {
        return WithErrors(errors.value);
      }
      var hashedPassword := argon.hash(password);
      var user: Option<User> := None;
      var failure := CreateFailure(users, username, fault);
      if failure.None? {
        var row := User(nextId, username, hashedPassword);
        users := users[nextId := row];
        nextId := nextId + 1;
        user := Some(row);
      } else if IsConflict(failure.value) {
        return WithErrors([UsernameTaken]);
      }
      session.userId := if user.Some? then Some(user.value.id) else None;
      r := WithUser(user);
    }

    /**
     * `login(username, password)`: validation errors first; then an
     * unknown username and a password that does not verify against the
     * stored digest are field errors that leave the session alone; on
     * success the session belongs to the user found.
     */
    method Login(session: Session, username: string, password: string) returns (r: UserResponse)
      requires Valid()
      modifies session
      ensures session.cookieCleared == old(session.cookieCleared)
      ensures r.WithErrors? ==> session.userId == old(session.userId)
      ensures ValidateLogin(username, password).Some? ==> r == WithErrors(ValidateLogin(username, password).value)
      ensures ValidateLogin(username, password).None? && !Taken(users, username) ==> r == WithErrors([UserNotFound])
      ensures ValidateLogin(username, password).None? && Taken(users, username) ==>
        var user := FindByUsername(users, username).value;
        && (!argon.verify(user.password, password) ==> r == WithErrors([PasswordIncorrect]))
        && (argon.verify(user.password, password) ==>
              r == WithUser(Some(user)) && session.userId == Some(user.id) && Authenticated(session.userId))
      ensures r.WithUser? ==> r.user.Some? && r.user.value.username == username && r.user.value.id in users
    {
      var errors := ValidateLogin(username, password);
      if errors.Some? {
        return WithErrors(errors.value);
      }
      var user := FindByUsername(users, username);
      if user.None? {
        return WithErrors([UserNotFound]);
      }
      var isPasswordValid := argon.verify(user.value.password, password);
      if !isPasswordValid {
        return WithErrors([PasswordIncorrect]);
      }
      session.userId := Some(user.value.id);
      r := WithUser(user);
    }
  }
}
