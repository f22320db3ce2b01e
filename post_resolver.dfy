/**
 * The post resolver: the `bodySnippet` field, the paginated listing, lookup
 * by id, the per-user listing, and create, update and delete guarded by
 * the session and by ownership.
 *
 * The post table is a map from id to row. Reads are functions of that map;
 * the three mutations are methods of `Resolver`, which holds the table. The
 * order in which the store returns rows for "ORDER BY createdAt DESC" is a
 * parameter `order`: it must list the table exactly once, newest first, and
 * rows with equal timestamps may come in any order, as in the store.
 */
module PostResolver {
  import opened Wrappers
  import opened Entities
  import opened Validation
  import opened Context
  import opened Auth

  const SnippetLength := 50
  const MaxTake := 50

  /** The result of `createPost`: field errors, or the created post. */
  datatype PostResponse = PostErrors(errors: seq<FieldError>) | PostCreated(post: Post)

  /** The result of `updatePost`: null (missing or not owned), field errors, or the updated post. */
  datatype UpdateResponse = NoPost | UpdateErrors(errors: seq<FieldError>) | Updated(post: Post)

  /** `bodySnippet`: the first 50 characters of the body, cut without regard to words. */
  function BodySnippet(body: string): (r: string)
    ensures r <= body
    ensures |r| == if |body| < SnippetLength then |body| else SnippetLength
  {
    if |body| <= SnippetLength then body else body[..SnippetLength]
  }

  // ---------------------------------------------------------------------
  // The store's view of the table

  /** Creation times never increase along the sequence. */
  ghost predicate NewestFirst(s: seq<Post>) {
    forall i, j :: 0 <= i < j < |s| ==> s[i].createdAt >= s[j].createdAt
  }

  ghost predicate DistinctIds(s: seq<Post>) {
    forall i, j :: 0 <= i < j < |s| ==> s[i].id != s[j].id
  }

  ghost predicate DistinctTimes(s: seq<Post>) {
    forall i, j :: 0 <= i < j < |s| ==> s[i].createdAt != s[j].createdAt
  }

  /** `order` lists every row of `table` exactly once. */
  ghost predicate Enumerates(order: seq<Post>, table: map<int, Post>) {
    && (forall i :: 0 <= i < |order| ==> order[i].id in table && table[order[i].id] == order[i])
    && (forall id :: id in table ==> table[id] in order)
    && DistinctIds(order)
  }

  /** The store's answer to "ORDER BY createdAt DESC": every row once, newest first. */
  ghost predicate StoreOrder(order: seq<Post>, table: map<int, Post>) {
    Enumerates(order, table) && NewestFirst(order)
  }

  /** A contiguous run of a sequence keeps its order, its distinctness and its rows. */
  lemma RunKeeps(s: seq<Post>, i: nat, j: nat)
    requires i <= j <= |s|
    ensures NewestFirst(s) ==> NewestFirst(s[i..j])
    ensures DistinctIds(s) ==> DistinctIds(s[i..j])
    ensures forall p :: p in s[i..j] ==> p in s
  {
    assert forall a :: 0 <= a < j - i ==> s[i..j][a] == s[i + a];
  }

  /** The head of a sorted, distinct sequence is newer than, and distinct from, every later row. */
  lemma HeadBoundsTail(s: seq<Post>)
    requires |s| > 0
    ensures NewestFirst(s) ==> forall p :: p in s[1..] ==> s[0].createdAt >= p.createdAt
    ensures DistinctIds(s) ==> forall p :: p in s[1..] ==> s[0].id != p.id
  {
    forall p | p in s[1..] ensures NewestFirst(s) ==> s[0].createdAt >= p.createdAt
      ensures DistinctIds(s) ==> s[0].id != p.id
    {
      var j :| 0 <= j < |s[1..]| && s[1..][j] == p;
      assert s[1 + j] == p;
    }
  }

  /** Putting a row in front keeps the order and distinctness when it is newer and new. */
  lemma ConsKeeps(x: Post, s: seq<Post>)
    ensures NewestFirst(s) && (forall p :: p in s ==> x.createdAt >= p.createdAt) ==> NewestFirst([x] + s)
    ensures DistinctIds(s) && (forall p :: p in s ==> x.id != p.id) ==> DistinctIds([x] + s)
  {
    var t := [x] + s;
    assert forall j :: 1 <= j < |t| ==> t[j] == s[j - 1] && t[j] in s;
  }

  /** Every row the store lists is the table's row under its id. */
  lemma RowsOfTable(order: seq<Post>, table: map<int, Post>)
    requires Enumerates(order, table)
    ensures forall p :: p in order ==> p.id in table && table[p.id] == p
  {
    forall p | p in order ensures p.id in table && table[p.id] == p {
      var i :| 0 <= i < |order| && order[i] == p;
    }
  }

  // ---------------------------------------------------------------------
  // posts(take, cursor)

  /** `Math.min(50, take)`: the page size, capped at 50. */
  function RealTake(take: nat): (r: nat)
    ensures r <= take && r <= MaxTake
    ensures r == take || r == MaxTake
  {
    if take < MaxTake then take else MaxTake
  }

  /** JavaScript truthiness of the optional cursor string: null and "" are both falsy. */
  predicate CursorGiven(cursor: Option<string>) {
    cursor.Some? && cursor.value != ""
  }

  /** The position of the first row whose creation time is `at`, where the store's cursor points. */
  function CursorIndex(s: seq<Post>, at: int): (r: Option<nat>)
    ensures r.Some? ==> r.value < |s| && s[r.value].createdAt == at
    ensures r.Some? ==> forall i :: 0 <= i < r.value ==> s[i].createdAt != at
    ensures r.None? ==> forall i :: 0 <= i < |s| ==> s[i].createdAt != at
  {
    if s == [] then None
    else if s[0].createdAt == at then Some(0)
    else match CursorIndex(s[1..], at)
      case None => None
      case Some(k) => Some(k + 1)
  }

  /**
   * The rows the store takes from before `take` applies: with a cursor,
   * those after the cursor row (`skip: 1`), or none when no row has that
   * creation time; without one, all rows from the newest.
   */
  function Window(order: seq<Post>, cursor: Option<string>, parse: string -> int): seq<Post> {
    if CursorGiven(cursor) then
      match CursorIndex(order, parse(cursor.value))
      case None => []
      case Some(k) => order[k + 1..]
    else order
  }

  /**
   * The window is a suffix of the store order: all of it without a cursor,
   * nothing when no row carries the cursor's time, and otherwise exactly
   * the rows after the first row carrying it (ties included).
   */
  lemma WindowShape(order: seq<Post>, cursor: Option<string>, parse: string -> int)
    ensures var w := Window(order, cursor, parse);
      && |w| <= |order| && w == order[|order| - |w|..]
      && (!CursorGiven(cursor) ==> w == order)
      && (CursorGiven(cursor) && (forall i :: 0 <= i < |order| ==> order[i].createdAt != parse(cursor.value)) ==> w == [])
      && (CursorGiven(cursor) && w != [] ==> |w| < |order| && order[|order| - |w| - 1].createdAt == parse(cursor.value))
      && (CursorGiven(cursor) ==> forall k ::
            (0 <= k < |order| && order[k].createdAt == parse(cursor.value)
             && forall i :: 0 <= i < k ==> order[i].createdAt != parse(cursor.value))
            ==> w == order[k + 1..])
  {
    if CursorGiven(cursor) {
      forall k | 0 <= k < |order| && order[k].createdAt == parse(cursor.value)
        && (forall i :: 0 <= i < k ==> order[i].createdAt != parse(cursor.value))
        ensures Window(order, cursor, parse) == order[k + 1..]
      {
        var c := CursorIndex(order, parse(cursor.value));
        assert c.Some?;
        assert !(c.value < k) && !(k < c.value);
      }
    }
  }

  /**
   * `posts(take, cursor)`: at most `min(50, take) + 1` rows in store order,
   * and `hasMore` when that many came back. The extra row is returned too.
   * `parse` is the store's conversion of the cursor string to a timestamp.
   */
  function Posts(table: map<int, Post>, order: seq<Post>, take: nat, cursor: Option<string>, parse: string -> int): (r: PaginatedPosts)
    requires StoreOrder(order, table)
    ensures |r.posts| <= RealTake(take) + 1 <= MaxTake + 1
    ensures r.hasMore <==> |r.posts| == RealTake(take) + 1
    ensures r.hasMore <==> |Window(order, cursor, parse)| > RealTake(take)
    ensures r.posts <= Window(order, cursor, parse)
    ensures !r.hasMore ==> r.posts == Window(order, cursor, parse)
    ensures NewestFirst(r.posts) && DistinctIds(r.posts)
    ensures forall p :: p in r.posts ==> p.id in table && table[p.id] == p
    ensures !CursorGiven(cursor) ==> r.posts <= order
    ensures CursorGiven(cursor) ==> forall p :: p in r.posts ==> p.createdAt <= parse(cursor.value)
  {
    var realTakePlusOne := RealTake(take) + 1;
    var rows := Window(order, cursor, parse);
    var n := if |rows| <= realTakePlusOne then |rows| else realTakePlusOne;
    WindowFacts(table, order, cursor, parse);
    RunKeeps(rows, 0, n);
    PaginatedPosts(rows[..n], n == realTakePlusOne)
  }

  /** The window is sorted, distinct, made of table rows, and older than the cursor. */
  lemma WindowFacts(table: map<int, Post>, order: seq<Post>, cursor: Option<string>, parse: string -> int)
    requires StoreOrder(order, table)
    ensures var w := Window(order, cursor, parse);
      && NewestFirst(w) && DistinctIds(w)
      && (forall p :: p in w ==> p.id in table && table[p.id] == p)
      && (CursorGiven(cursor) ==> forall p :: p in w ==> p.createdAt <= parse(cursor.value))
  {
    RowsOfTable(order, table);
    if CursorGiven(cursor) && CursorIndex(order, parse(cursor.value)).Some? {
      var k := CursorIndex(order, parse(cursor.value)).value;
      RunKeeps(order, k, |order|);
      assert order[k..] == order[k..|order|];
      HeadBoundsTail(order[k..]);
      assert order[k..][1..] == order[k + 1..];
      RunKeeps(order, k + 1, |order|);
      assert order[k + 1..] == order[k + 1..|order|];
    }
  }

  /**
   * With a cursor that points to row `k`, the page is the run that starts
   * right after row `k`, so it never holds that row; with distinct
   * timestamps every returned row is strictly older than the cursor.
   */
  lemma {:induction false} CursorPageStartsAfterCursor(table: map<int, Post>, order: seq<Post>, take: nat, cursor: Option<string>, parse: string -> int, k: nat)
    requires StoreOrder(order, table)
    requires CursorGiven(cursor) && CursorIndex(order, parse(cursor.value)) == Some(k)
    ensures var page := Posts(table, order, take, cursor, parse).posts;
      page <= order[k + 1..] && order[k] !in page
      && (DistinctTimes(order) ==> forall p :: p in page ==> p.createdAt < parse(cursor.value))
  {
    var page := Posts(table, order, take, cursor, parse).posts;
    assert page <= order[k + 1..];
    forall p | p in page
      ensures p != order[k]
      ensures DistinctTimes(order) ==> p.createdAt < parse(cursor.value)
    {
      var j :| 0 <= j < |page| && page[j] == p;
      assert order[k + 1 + j] == p;
    }
  }

  /** An absent or empty cursor starts the page at the newest row. */
  lemma {:induction false} NoCursorStartsAtNewest(table: map<int, Post>, order: seq<Post>, take: nat, cursor: Option<string>, parse: string -> int)
    requires StoreOrder(order, table)
    requires !CursorGiven(cursor) && order != []
    ensures Posts(table, order, take, cursor, parse).posts[0] == order[0]
    ensures forall id :: id in table ==> Posts(table, order, take, cursor, parse).posts[0].createdAt >= table[id].createdAt
  {
    forall id | id in table ensures order[0].createdAt >= table[id].createdAt {
      var j :| 0 <= j < |order| && order[j] == table[id];
    }
  }

  /**
   * Pages chain without gaps or repeats when timestamps are distinct:
   * using the last returned row's creation time as the next cursor, the
   * two pages together are the leading run of the first page's window.
   */
  lemma {:induction false} PagesChain(table: map<int, Post>, order: seq<Post>, take: nat, cursor: Option<string>, next: string, parse: string -> int)
    requires StoreOrder(order, table) && DistinctTimes(order)
    requires var page := Posts(table, order, take, cursor, parse).posts;
      page != [] && next != "" && parse(next) == page[|page| - 1].createdAt
    ensures var first := Posts(table, order, take, cursor, parse).posts;
      var second := Posts(table, order, take, Some(next), parse).posts;
      first + second <= Window(order, cursor, parse)
  {
    var w := Window(order, cursor, parse);
    var first := Posts(table, order, take, cursor, parse).posts;
    assert first <= w;
    assert first[|first| - 1] == w[|first| - 1];
    NextWindow(order, cursor, parse, |first|, next);
    var second := Posts(table, order, take, Some(next), parse).posts;
    assert second <= w[|first|..];
    PrefixThenPrefix(w, first, second);
  }

  /** The cursor taken from the n-th row of a window opens the window right after that row. */
  lemma NextWindow(order: seq<Post>, cursor: Option<string>, parse: string -> int, n: nat, next: string)
    requires DistinctTimes(order)
    requires 0 < n <= |Window(order, cursor, parse)|
    requires next != "" && parse(next) == Window(order, cursor, parse)[n - 1].createdAt
    ensures Window(order, Some(next), parse) == Window(order, cursor, parse)[n..]
  {
    var a: nat := if CursorGiven(cursor) then CursorIndex(order, parse(cursor.value)).value + 1 else 0;
    assert Window(order, cursor, parse) == order[a..];
    assert order[a + n - 1] == Window(order, cursor, parse)[n - 1];
    CursorAtDistinctTime(order, a + n - 1);
    assert order[a..][n..] == order[a + n..];
  }

  lemma PrefixThenPrefix(w: seq<Post>, first: seq<Post>, second: seq<Post>)
    requires first <= w && second <= w[|first|..]
    ensures first + second <= w
  {
    assert w == first + w[|first|..];
    assert forall i :: 0 <= i < |first + second| ==> (first + second)[i] == w[i];
  }

  /** With distinct timestamps the cursor finds exactly the row that carries its timestamp. */
  lemma CursorAtDistinctTime(order: seq<Post>, i: nat)
    requires DistinctTimes(order) && i < |order|
    ensures CursorIndex(order, order[i].createdAt) == Some(i)
  {
    var found := CursorIndex(order, order[i].createdAt);
    assert found.Some?;
    var f := found.value;
    assert !(f < i) && !(i < f);
  }

  // ---------------------------------------------------------------------
  // post(id) and getPostsByUser()

  /** `post(postId)`: the row with that id, or null when there is none. */
  function PostById(table: map<int, Post>, postId: int): (r: Option<Post>)
    ensures r.Some? <==> postId in table
    ensures r.Some? ==> r.value == table[postId]
  {
    if postId in table then Some(table[postId]) else None
  }

  /** The rows of `order` written by `authorId`, keeping their order (the store's `where` filter). */
  function ByAuthor(order: seq<Post>, authorId: int): (r: seq<Post>)
    ensures forall p :: p in r <==> p in order && p.authorId == authorId
    ensures NewestFirst(order) ==> NewestFirst(r)
    ensures DistinctIds(order) ==> DistinctIds(r)
  {
    if order == [] then []
    else
      var rest := ByAuthor(order[1..], authorId);
      HeadBoundsTail(order);
      RunKeeps(order, 1, |order|);
      assert order[1..] == order[1..|order|];
      ConsKeeps(order[0], rest);
      if order[0].authorId == authorId then [order[0]] + rest else rest
  }

  /**
   * `getPostsByUser()`: behind the guard, exactly the rows whose author is
   * the session user, each once, newest first.
   */
  function PostsByUser(table: map<int, Post>, order: seq<Post>, userId: Option<int>): (r: Guarded<seq<Post>>)
    requires StoreOrder(order, table)
    ensures r.NotAuthenticated? <==> !Authenticated(userId)
    ensures r.Proceed? ==> NewestFirst(r.value) && DistinctIds(r.value)
    ensures r.Proceed? ==> forall p :: p in r.value ==> p.id in table && table[p.id] == p && p.authorId == userId.value
    ensures r.Proceed? ==> forall id :: id in table && table[id].authorId == userId.value ==> table[id] in r.value
  {
    // The `isAuth` guard, inlined: the same test as `IsAuth`.
    if !Authenticated(userId) then NotAuthenticated
    else
      RowsOfTable(order, table);
      Proceed(ByAuthor(order, userId.value))
  }

  // ---------------------------------------------------------------------
  // The mutations

  /** `post.authorId === req.session.userId` for an existing post. */
  predicate Owns(table: map<int, Post>, postId: int, userId: int) {
    postId in table && table[postId].authorId == userId
  }

  /** Holds the post table; ids are assigned by auto-increment from `nextId`. */
  class Resolver {
    var table: map<int, Post>
    var nextId: int

    ghost predicate Valid()
      reads this
    {
      forall id :: id in table ==> table[id].id == id && id < nextId
    }

    constructor ()
      ensures Valid() && table == map[]
    {
      table := map[];
      nextId := 1;
    }

    /**
     * `createPost(title, body)`: behind the guard, validates first; on
     * success stores one new row authored by the session user and created
     * at `now` (the store's clock).
     */
    method CreatePost(session: Session, title: string, body: string, now: int) returns (r: Guarded<PostResponse>)
      requires Valid()
      modifies this
      ensures Valid()
      ensures r.NotAuthenticated? <==> !Authenticated(session.userId)
      ensures (r.NotAuthenticated? || r.value.PostErrors?) ==> table == old(table) && nextId == old(nextId)
      ensures r.Proceed? && ValidatePost(title, body).Some? ==> r.value == PostErrors(ValidatePost(title, body).value)
      ensures r.Proceed? && ValidatePost(title, body).None? ==>
        var post := Post(old(nextId), title, body, now, session.userId.value);
        && old(nextId) !in old(table)
        && table == old(table)[old(nextId) := post]
        && nextId == old(nextId) + 1
        && r.value == PostCreated(post)
    {
      // The `isAuth` guard, inlined: the same test as `IsAuth`.
      if !Authenticated(session.userId) {
        return NotAuthenticated;
      }
      var errors := ValidatePost(title, body);
      if errors.Some? {
        return Proceed(PostErrors(errors.value));
      }
      var post := Post(nextId, title, body, now, session.userId.value);
      table := table[nextId := post];
      nextId := nextId + 1;
      r := Proceed(PostCreated(post));
    }

    /**
     * `updatePost(postId, title, body)`: behind the guard, a missing post or
     * one owned by someone else gives null before the fields are checked;
     * the owner gets the field errors, or the row with the new title and
     * body, every other row unchanged.
     */
    method UpdatePost(session: Session, postId: int, title: string, body: string) returns (r: Guarded<UpdateResponse>)
      requires Valid()
      modifies this
      ensures Valid() && nextId == old(nextId)
      ensures r.NotAuthenticated? <==> !Authenticated(session.userId)
      ensures r.Proceed? ==> (r.value == NoPost <==> !Owns(old(table), postId, session.userId.value))
      ensures r.Proceed? && Owns(old(table), postId, session.userId.value) ==>
        (r.value.UpdateErrors? <==> ValidatePost(title, body).Some?)
      ensures r.Proceed? && r.value.UpdateErrors? ==> r.value.errors == ValidatePost(title, body).value
      ensures !(r.Proceed? && r.value.Updated?) ==> table == old(table)
      ensures r.Proceed? && r.value.Updated? ==>
        var post := old(table)[postId].(title := title, body := body);
        table == old(table)[postId := post] && r.value.post == post
    {
      // The `isAuth` guard, inlined: the same test as `IsAuth`.
      if !Authenticated(session.userId) {
        return NotAuthenticated;
      }
      var post := PostById(table, postId);
      if post.None? || post.value.authorId != session.userId.value {
        return Proceed(NoPost);
      }
      var errors := ValidatePost(title, body);
      if errors.Some? {
        return Proceed(UpdateErrors(errors.value));
      }
      var updatedPost := post.value.(title := title, body := body);
      table := table[postId := updatedPost];
      r := Proceed(Updated(updatedPost));
    }

    /**
     * `deletePost(postId)`: behind the guard, true for a missing post
     * (nothing to delete) and for the owner (the row is removed), false
     * for anyone else, whose request changes nothing.
     */
    method DeletePost(session: Session, postId: int) returns (r: Guarded<bool>)
      requires Valid()
      modifies this
      ensures Valid() && nextId == old(nextId)
      ensures r.NotAuthenticated? <==> !Authenticated(session.userId)
      ensures r.Proceed? ==> (r.value <==> postId !in old(table) || Owns(old(table), postId, session.userId.value))
      ensures r.Proceed? && Owns(old(table), postId, session.userId.value) ==> table == old(table) - {postId}
      ensures !(r.Proceed? && Owns(old(table), postId, session.userId.value)) ==> table == old(table)
    {
      // The `isAuth` guard, inlined: the same test as `IsAuth`.
      if !Authenticated(session.userId) {
        return NotAuthenticated;
      }
      var post := PostById(table, postId);
      if post.None? {
        return Proceed(true);
      }
      if post.value.authorId == session.userId.value {
        table := table - {postId};
        return Proceed(true);
      }
      r := Proceed(false);
    }
  }
}
