/** The shape of the stored state: the `users`, `posts` and `likes` tables,
    their key, reference and vector-dimension constraints, and the errors the
    database reports when an insert would break one of them. */
module Schema {

  /** Dimension of every `vector` column (users.embedding, posts.embedding). */
  const Dim: nat := 1536

  type UserId = string
  /** Post and like ids are generated uuids; the model draws them from a counter. */
  type PostId = nat
  type LikeId = nat
  type Vector = seq<real>

  datatype Option<+T> = None | Some(value: T)

  /** What the database (or the JavaScript runtime) throws. */
  datatype Error =
    | PrimaryKeyViolation  // users.id already present
    | UniqueViolation      // (userId, postId) already liked
    | ForeignKeyViolation  // a referenced user or post does not exist
    | DimensionMismatch    // a vector that is not 1536 long
    | NotFound             // `result[0]` of an empty select dereferenced

  datatype Result<+T> = Ok(value: T) | Err(error: Error)

  /** A row of `users`. Both timestamps are filled by `defaultNow()`. */
  datatype User = User(
    id: UserId,
    username: string,
    profileImage: string,
    bio: string,
    embedding: Vector,
    createdAt: int,
    lastEmbeddingUpdate: int)

  /** A row of `posts`. */
  datatype Post = Post(
    id: PostId,
    userId: UserId,
    videoUrl: string,
    description: string,
    embedding: Vector,
    createdAt: int)

  /** A row of `likes`. */
  datatype Like = Like(id: LikeId, userId: UserId, postId: PostId, createdAt: int)

  predicate IsVector(v: Vector) {
    |v| == Dim
  }

  function PostIds(posts: seq<Post>): set<PostId> {
    set p | p in posts :: p.id
  }

  function LikeIds(likes: seq<Like>): set<LikeId> {
    set l | l in likes :: l.id
  }

  /** posts.id is the primary key. */
  predicate UniquePostIds(posts: seq<Post>) {
    forall i, j :: 0 <= i < j < |posts| ==> posts[i].id != posts[j].id
  }

  /** likes.id is the primary key. */
  predicate UniqueLikeIds(likes: seq<Like>) {
    forall i, j :: 0 <= i < j < |likes| ==> likes[i].id != likes[j].id
  }

  /** The unique constraint on (likes.userId, likes.postId). */
  predicate UniquePairs(likes: seq<Like>) {
    forall i, j :: 0 <= i < j < |likes| ==>
      likes[i].userId != likes[j].userId || likes[i].postId != likes[j].postId
  }

  /** Every constraint the schema declares, plus the facts that the store's
      clock and id counter are ahead of every stored timestamp and id. */
  predicate WellFormed(users: map<UserId, User>, posts: seq<Post>, likes: seq<Like>, clock: int, nextId: nat) {
    && (forall u :: u in users ==>
          && users[u].id == u
          && IsVector(users[u].embedding)
          && users[u].createdAt <= clock
          && users[u].lastEmbeddingUpdate <= clock)
    && (forall p :: p in posts ==>
          && p.userId in users
          && IsVector(p.embedding)
          && p.id < nextId
          && p.createdAt <= clock)
    && UniquePostIds(posts)
    && (forall l :: l in likes ==>
          && l.userId in users
          && l.postId in PostIds(posts)
          && l.id < nextId
          && l.createdAt <= clock)
    && UniqueLikeIds(likes)
    && UniquePairs(likes)
  }
}
