/**
 * The records the resolvers exchange with the store and the client: posts,
 * users, field errors and the paginated page. Timestamps are plain integers.
 */
module Entities {

  /** A validation or business-rule failure on one input field; never persisted. */
  datatype FieldError = FieldError(field: string, message: string)

  /** A row of the post table; `createdAt` is the store-assigned creation time. */
  datatype Post = Post(id: int, title: string, body: string, createdAt: int, authorId: int)

  /**
   * A row of the user table. `password` holds the argon2 digest, never the
   * plaintext; the GraphQL type does not expose it.
   */
  datatype User = User(id: int, username: string, password: string)

  /** One page of the post listing. */
  datatype PaginatedPosts = PaginatedPosts(posts: seq<Post>, hasMore: bool)
}
