/** The rows `getVideos` returns (actions/actions.ts:30-108): one row per
    post, with its author, its distinct-like count, an optional similarity to
    the viewer's taste vector, and whether the viewer has liked it. */
module Feed {
  import opened Schema
  import opened LikeTable

  /** A row of the grouped query, after `has_liked` is added. `similarity` is
      `None` where the query had no such field. */
  datatype VideoRow = VideoRow(
    id: PostId,
    videoUrl: string,
    description: string,
    createdAt: int,
    username: Option<string>,
    profileImage: Option<string>,
    userId: UserId,
    embedding: Vector,
    likes: int,
    similarity: Option<real>,
    hasLiked: bool)

  /** What a call of `getVideos` produces: `undefined` when there is no
      viewer, an exception, or the rows. */
  datatype FeedResult = Undefined | Thrown(error: Error) | Videos(rows: seq<VideoRow>)

  /** JavaScript truthiness of an optional user id: `null`, `undefined` and
      the empty string are falsy. */
  predicate Truthy(viewer: Option<UserId>) {
    viewer.Some? && viewer.value != ""
  }

  /** One grouped row: the left join on `users` gives the author's name and
      image (null when absent), `COUNT(DISTINCT likes.id)` the like count, and
      `1 - (posts.embedding <=> query)` the similarity when a query vector is
      given. `distance` stands for pgvector's cosine distance `<=>`. */
  function RowOf(p: Post, users: map<UserId, User>, likes: seq<Like>, liked: set<PostId>,
                 query: Option<Vector>, distance: (Vector, Vector) -> real): VideoRow
  {
    VideoRow(
      p.id, p.videoUrl, p.description, p.createdAt,
      if p.userId in users then Some(users[p.userId].username) else None,
      if p.userId in users then Some(users[p.userId].profileImage) else None,
      p.userId, p.embedding,
      |LikeIdsOn(likes, p.id)|,
      if query.Some? then Some(1.0 - distance(p.embedding, query.value)) else None,
      p.id in liked)
  }

  /** The grouped query over all posts, in table order (the query has no
      ORDER BY, so any order is what the database may return). */
  function Rows(posts: seq<Post>, users: map<UserId, User>, likes: seq<Like>, liked: set<PostId>,
                query: Option<Vector>, distance: (Vector, Vector) -> real): (rows: seq<VideoRow>)
    ensures |rows| == |posts|
    ensures forall i :: 0 <= i < |posts| ==>
      var row, p := rows[i], posts[i];
      && row.id == p.id && row.videoUrl == p.videoUrl && row.description == p.description
      && row.createdAt == p.createdAt && row.userId == p.userId && row.embedding == p.embedding
      && (row.username.Some? <==> p.userId in users)
      && (row.profileImage.Some? <==> p.userId in users)
      && (p.userId in users ==>
            row.username.value == users[p.userId].username
            && row.profileImage.value == users[p.userId].profileImage)
      && row.likes == |LikeIdsOn(likes, p.id)|
      && (row.hasLiked <==> p.id in liked)
      && (row.similarity.None? <==> query.None?)
      && (query.Some? ==> row.similarity.value == 1.0 - distance(p.embedding, query.value))
  {
    seq(|posts|, i requires 0 <= i < |posts| => RowOf(posts[i], users, likes, liked, query, distance))
  }

  /** Grouping by post never fans out: with unique post ids, every post has
      exactly one row, and the row ids are exactly the post ids. */
  lemma OneRowPerPost(posts: seq<Post>, users: map<UserId, User>, likes: seq<Like>, liked: set<PostId>,
                      query: Option<Vector>, distance: (Vector, Vector) -> real)
    requires UniquePostIds(posts)
    ensures var rows := Rows(posts, users, likes, liked, query, distance);
      && (forall i, j :: 0 <= i < j < |rows| ==> rows[i].id != rows[j].id)
      && (set r | r in rows :: r.id) == PostIds(posts)
  {
  }
}
