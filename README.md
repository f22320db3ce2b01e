# blogit-server in Dafny

A model of the application logic of a small blog backend with a GraphQL API:
the three form validators, the `isAuth` session guard, the post resolver
(snippet, cursor pagination, lookup, per-user listing, create, update and
delete with ownership checks) and the user resolver (register, login,
logout, current user).

The ORM and the session store are replaced by in-memory state:

- the post table is `PostResolver.Resolver.table: map<int, Post>`, with ids from an
  auto-increment counter `nextId`;
- the user table is `UserResolver.Resolver.users: map<int, User>`, kept under the
  primary key (`Keyed`) and the unique index on `username` (`UniqueUsernames`);
- the request's session is a `Context.Session` object with `userId: Option<int>`
  and a `cookieCleared` flag. The post resolver reads it; the user resolver
  writes it. It is passed into every operation, as the request context is.

Read-only queries (`posts`, `post`, `getPostsByUser`, `currentUser`) are
functions of that state. Operations that change the state are methods
(`createPost`, `updatePost`, `deletePost`, `register`, `login`, `logout`).
A resolver behind `isAuth` returns `Guarded<R>`. `NotAuthenticated` stands for
the thrown "Not authenticated" error, so the resolver body does not run.
A session id is "truthy" when it is present and non-zero (`Auth.Authenticated`).

Collaborators the application cannot see are parameters:

- `order`: the rows the store returns for "ORDER BY createdAt DESC". It must list
  every row of the table once, newest first (`StoreOrder`). Rows with equal
  timestamps may come in any order.
- `parse`: the store's conversion of the cursor string to a timestamp.
- `now`: the store's clock when a post is created.
- `Argon(hash, verify)`: argon2. All the model knows is
  `verify(hash(p), p)` (`Sound`).
- `fault`: a failure that the store reports on its own while creating a user, such
  as a lost connection or a concurrent insert of the same name.
- `destroyFailed`: whether the session store reports an error while destroying the session.

The cursor follows the store's cursor semantics. Rows are taken from the first
row, in `order`, whose creation time equals the cursor. `skip: 1` then drops that
row. A cursor that matches no row gives an empty page.

Where the code does something a reader might not expect, the model follows the code:

- `posts` returns all `min(50, take) + 1` rows it fetched, including the extra
  row that only serves `hasMore`. So a `take` above 50 can return 51 rows, not 50
  (src/graphql/postResolver.ts:61-64).
- `logout` removes the `userId` from the request's session and clears the cookie
  even when the session store reports an error, and then answers false. A failed
  destroy may leave the stored session record alive, so a client that replays the
  old `sid` cookie is still authenticated. The model covers only the request's own
  session (src/graphql/userResolver.ts:13-26).
- `register` swallows every store failure other than P2002. It answers
  `{ user: undefined }` without errors and sets the session id to undefined.
  This logs out a user who was logged in (src/graphql/userResolver.ts:73-89).
- `validatePost` is imported from `../util/validatePost`
  (src/graphql/postResolver.ts:14), a file that is not part of this model. The
  model assumes that it behaves like the `validatePost` exported from
  src/util/validateUpdatePost.ts:3.
- `updatePost` returns the bare updated row (src/graphql/postResolver.ts:146)
  from a mutation declared to return `PostResponse` (:112), whereas `createPost`
  wraps its row as `{ post }` (:109). The declaration of `PostResponse` is not
  part of this model, so the effect on a client (presumably a null `post` after
  a successful update) is not modelled; `Updated(post)` is the resolver's own
  return value.
- Lengths are JavaScript `length`, counted in UTF-16 code units
  (`Validation.JsLength`): a character outside the Basic Multilingual Plane
  counts twice, so three emoji make a password of length six.

Files: `wrappers.dfy` (Option), `entities.dfy` (Post, User, FieldError,
PaginatedPosts), `validation.dfy`, `auth.dfy` (Session, isAuth),
`post_resolver.dfy`, `user_resolver.dfy`, `scenarios.dfy` (client runs
proved from the contracts).

## Model

| member | source | states |
|---|---|---|
| `Validation.ValidateRegister` | src/util/validateRegister.ts:3-26 | valid iff the username is non-empty and the password has at least 5 UTF-16 code units; otherwise exactly one error. Empty username gives "Please enter a username"; a short password with a non-empty username gives the length error |
| `Validation.JsLength` | src/util/validateRegister.ts:7-17 | JavaScript `length`: between the number of characters and twice it, and zero exactly for the empty string |
| `Validation.ValidateLogin` | src/util/validateLogin.ts:3-26 | valid iff both are non-empty (a 1-character password passes); otherwise exactly one error; username error first, then "Please enter a password" |
| `Validation.ValidatePost` | src/util/validateUpdatePost.ts:3-26 | valid iff title and body are non-empty; otherwise exactly one error: "Enter a title" when the title is empty (even if the body is too), else "Body cannot be left empty" |
| `Validation.Violations` | src/util/validateRegister.ts:7-23 | collect-all reference: no errors iff every rule holds; every violated rule's error is reported and every reported error belongs to a violated rule; the first reported error is the first violated rule's |
| `Validation.FirstErrorWins` | src/util/validateRegister.ts:7-25 | first-error-wins over the collect-all list: None iff every rule holds; otherwise exactly the error of the first violated rule, alone |
| `Validation.RegisterIsFirstErrorWins` | src/util/validateRegister.ts:7-25 | the register validator equals first-error-wins over its two rules in source order |
| `Validation.LoginIsFirstErrorWins` | src/util/validateLogin.ts:7-25 | the login validator equals first-error-wins over its two rules in source order |
| `Validation.PostIsFirstErrorWins` | src/util/validateUpdatePost.ts:7-25 | the post validator equals first-error-wins over its two rules in source order |
| `Validation.RegisterExamples` | src/util/validateRegister.ts:7-25 | ("", "abcd") and ("", "") give the username error; ("bob", "1234") and a two-emoji password give the length error; ("bob", "12345") and a three-emoji password pass; login accepts ("bob", "1") |
| `Auth.Authenticated` | src/middleware/isAuth.ts:5 | a session id passes the guard iff it is present and non-zero |
| `Auth.IsAuth` | src/middleware/isAuth.ts:4-10 | rejects exactly an absent or zero user id; otherwise returns exactly `next()`'s result; the session is an input value and is not changed |
| `PostResolver.BodySnippet` | src/graphql/postResolver.ts:21-24 | a prefix of the body of length min(50, body length) |
| `PostResolver.RealTake` | src/graphql/postResolver.ts:32 | the page size is `take` or 50, whichever is smaller |
| `PostResolver.CursorGiven` | src/graphql/postResolver.ts:36 | a cursor is used iff it is present and non-empty |
| `PostResolver.CursorIndex` | src/graphql/postResolver.ts:40 | the cursor position is the first row whose creation time equals the cursor; None iff no row has it |
| `PostResolver.Posts` | src/graphql/postResolver.ts:26-65 | at most min(50, take)+1 rows (at most 51); hasMore iff that many came back, iff more than min(50, take) rows lie after the cursor; a leading run of those rows, and all of them when hasMore is false; newest first, distinct, each a table row; no cursor starts at the newest; with a cursor no row is newer than it |
| `PostResolver.WindowShape` | src/graphql/postResolver.ts:36-59 | about `Window`: the rows the store reads are a suffix of the store order: all of it without a cursor, none when no row has the cursor's time, otherwise exactly the rows after the first row (in store order) holding that time, also when timestamps tie |
| `PostResolver.WindowFacts` | src/graphql/postResolver.ts:36-59 | the rows after the cursor (or all rows) are sorted, distinct, table rows, and no newer than the cursor |
| `PostResolver.CursorPageStartsAfterCursor` | src/graphql/postResolver.ts:36-47 | with a cursor at row k, the page is a leading run of the rows after k and never contains row k; with distinct timestamps every row is strictly older than the cursor |
| `PostResolver.NoCursorStartsAtNewest` | src/graphql/postResolver.ts:48-58 | with an absent or empty cursor and a non-empty table the page, whatever `take` is, starts at the newest post of the table |
| `PostResolver.NextWindow` | src/graphql/postResolver.ts:36-47 | the cursor taken from the n-th row of a window opens the window right after that row (distinct timestamps) |
| `PostResolver.PagesChain` | src/graphql/postResolver.ts:32-64 | with distinct timestamps, using the last returned row as the next cursor, two pages together are a leading run of the first page's window: no gap, no repeat |
| `PostResolver.PostById` | src/graphql/postResolver.ts:67-83 | the stored post when the id is present, else null; a function of the table, so the table is unchanged |
| `PostResolver.ByAuthor` | src/graphql/postResolver.ts:181-191 | exactly the rows of the given author, keeping newest-first order and distinctness |
| `PostResolver.PostsByUser` | src/graphql/postResolver.ts:178-194 | refused iff the session id is falsy; otherwise every row authored by the session user, each once, and only those, newest first |
| `PostResolver.Owns` | src/graphql/postResolver.ts:126 | a post is owned by a user iff it exists and its author is that user (the same test at line 165) |
| `PostResolver.Resolver.CreatePost` | src/graphql/postResolver.ts:85-110 | refused without a session; validation errors leave the table unchanged; otherwise adds exactly one row with a fresh id, the given title and body, `createdAt` = now, `authorId` = session user |
| `PostResolver.Resolver.UpdatePost` | src/graphql/postResolver.ts:112-147 | refused without a session; null iff the post is missing or not owned, before validation; the owner gets the validation errors with the table unchanged, or only that row's title and body change |
| `PostResolver.Resolver.DeletePost` | src/graphql/postResolver.ts:149-176 | refused without a session; true iff the post is missing or owned; the owner's post is removed; otherwise the table is unchanged |
| `UserResolver.FindByUsername` | src/graphql/userResolver.ts:104-108 | the one stored row with that username, present iff the name is taken |
| `UserResolver.CreateFailure` | src/graphql/userResolver.ts:63-86 | without a store fault the insert fails iff the username is taken; a failure that is not a P2002 conflict is the store's own fault |
| `UserResolver.IsConflict` | src/graphql/userResolver.ts:74-75 | a failure is turned into the "already taken" field error iff it is a known request error whose code is P2002 |
| `UserResolver.Resolver.Logout` | src/graphql/userResolver.ts:12-27 | the session id is removed and the cookie cleared in every case; answers false iff destroying reported an error |
| `UserResolver.Resolver.CurrentUser` | src/graphql/userResolver.ts:29-46 | null iff the session id is falsy or names no stored user; otherwise that user; reads only |
| `UserResolver.Resolver.Register` | src/graphql/userResolver.ts:48-90 | validation errors change nothing; a P2002 conflict gives "Username is already taken" and changes nothing; another failure gives an undefined user and unsets the session id; success adds one row holding hash(password) and authenticates the session as it |
| `UserResolver.Resolver.Login` | src/graphql/userResolver.ts:92-136 | validation errors, "User not found" and "Password is incorrect" leave the session unchanged; success iff the stored digest verifies, and then the session is that user |
| `Scenarios.RegisterThenLogin` | src/graphql/userResolver.ts:60-135 | registering a free name and logging in with the same password both succeed with the same user, and the session is authenticated as it |
| `Scenarios.RegisterTwice` | src/graphql/userResolver.ts:63-84 | the second registration of a name is the "already taken" error and adds no row |
| `Scenarios.LogoutEndsSession` | src/graphql/userResolver.ts:13-45 | after logout `currentUser` is null and a guarded query is refused |
| `Scenarios.OwnershipRun` | src/graphql/postResolver.ts:85-176 | a non-owner can neither update (even with empty fields) nor delete; the owner deletes; a second delete still answers true |

## Left out

- src/server.ts: Express, Apollo, CORS, Redis and the session middleware. This is I/O wiring. The 7-day cookie lifetime is store-driven expiry that the application never observes.
- GraphQL decorators, schema generation, promises and `console.log`.
- `updatedAt` on posts, `createdAt` and `updatedAt` on users, and the resolved `author` and `posts` relations (`include`). Rows carry `authorId` only.
- A negative `take`: `take` is a `nat`, since the store gives a negative take a reverse-direction meaning that is not part of this code.
- A cursor string that is not a date: the store's conversion is the parameter `parse`, and its error is not modelled.
- Store failures other than the one `register` catches: lookups, post writes, the foreign key on `authorId`, and the concurrent read-then-write race in `updatePost`/`deletePost`. These would propagate as unhandled errors.
- argon2 internals: hashing is deterministic in the model (no salt), and constant-time comparison is not modelled.
- The session store itself: creating a new session after destroy, and the cookie token.
- `PostResolver.BodySnippet`: counts Dafny characters, whereas JavaScript `slice` counts UTF-16 code units (and can cut a surrogate pair in half).
- A replayed session cookie after a failed `logout` destroy: the session store is not modelled, so the stored record that outlives the failure is not either.
- NaN as a session id (also falsy in JavaScript) is not modelled; ids are integers.
