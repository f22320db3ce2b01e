/**
 * Runs of the resolvers as a client sees them, proved from the resolvers'
 * contracts alone: the session moving from anonymous to authenticated and
 * back, the unique username, and the ownership rules on posts.
 */
module Scenarios {
  import opened Wrappers
  import opened Entities
  import opened Validation
  import opened Context
  import opened Auth
  import PostResolver
  import UserResolver

  /**
   * Registering a free username and then logging in with the same password
   * both succeed and yield the same user: the stored digest verifies.
   */
  method RegisterThenLogin(users: UserResolver.Resolver, session: Session, username: string, password: string)
    returns (registered: UserResolver.UserResponse, loggedIn: UserResolver.UserResponse)
    requires users.Valid() && !UserResolver.Taken(users.users, username)
    requires ValidateRegister(username, password).None?
    modifies users, session
    ensures users.Valid()
    ensures registered.WithUser? && registered.user.Some? && registered.user.value.username == username
    ensures loggedIn == registered
    ensures session.userId == Some(registered.user.value.id) && Authenticated(session.userId)
  {
    registered := users.Register(session, username, password, None);
    var user := registered.user.value;
    assert users.users[user.id] == user;
    assert UserResolver.Taken(users.users, username);
    loggedIn := users.Login(session, username, password);
  }

  /**
   * Registering the same username twice: the second attempt is the
   * "already taken" field error and adds no row.
   */
  method RegisterTwice(users: UserResolver.Resolver, session: Session, username: string, password: string)
    returns (first: UserResolver.UserResponse, second: UserResolver.UserResponse)
    requires users.Valid() && ValidateRegister(username, password).None?
    modifies users, session
    ensures users.Valid()
    ensures second == UserResolver.WithErrors([UserResolver.UsernameTaken])
    ensures users.users.Keys == old(users.users.Keys) + (if first.WithUser? then {old(users.nextId)} else {})
  {
    first := users.Register(session, username, password, None);
    assert UserResolver.Taken(users.users, username) by {
      if first.WithUser? {
        assert users.users[old(users.nextId)].username == username;
      }
    }
    ghost var afterFirst := users.users;
    second := users.Register(session, username, password, None);
    assert users.users == afterFirst;
  }

  /**
   * After logout, the request's own session no longer identifies anyone:
   * the current user is null and a guarded query is refused. This is the
   * session a client sees once it drops the cleared cookie; a client that
   * replays the old `sid` after a failed destroy reaches the stored record,
   * which the model does not have.
   */
  method LogoutEndsSession(users: UserResolver.Resolver, session: Session, destroyFailed: bool,
                           table: map<int, Post>, order: seq<Post>)
    returns (me: Option<User>, mine: Guarded<seq<Post>>)
    requires users.Valid() && PostResolver.StoreOrder(order, table)
    modifies session
    ensures me == None && mine == NotAuthenticated && session.cookieCleared
  {
    var _ := users.Logout(session, destroyFailed);
    me := users.CurrentUser(session);
    mine := PostResolver.PostsByUser(table, order, session.userId);
  }

  /**
   * A post's life under two users: the author creates it and can look it
   * up; the other user can neither update it (even with empty fields) nor
   * delete it; the author deletes it, and deleting it again still answers
   * true.
   */
  method OwnershipRun(posts: PostResolver.Resolver, author: Session, other: Session, title: string, body: string, now: int)
    requires posts.Valid()
    requires Authenticated(author.userId) && Authenticated(other.userId) && author.userId != other.userId
    requires ValidatePost(title, body).None?
    modifies posts
    ensures posts.Valid() && posts.table == old(posts.table)
  {
    var created := posts.CreatePost(author, title, body, now);
    var post := created.value.post;
    assert PostResolver.PostById(posts.table, post.id) == Some(post);
    ghost var withPost := posts.table;

    var refusedUpdate := posts.UpdatePost(other, post.id, "", "");
    assert refusedUpdate == Proceed(PostResolver.NoPost) && posts.table == withPost;
    var refusedDelete := posts.DeletePost(other, post.id);
    assert refusedDelete == Proceed(false) && posts.table == withPost;

    var deleted := posts.DeletePost(author, post.id);
    assert deleted == Proceed(true) && PostResolver.PostById(posts.table, post.id) == None;
    var again := posts.DeletePost(author, post.id);
    assert again == Proceed(true);
    assert posts.table == old(posts.table);
  }
}
