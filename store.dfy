/** The server actions of actions/actions.ts as operations on one database
    object, and the taste-vector update they trigger. Each statement that
    takes a timestamp (`defaultNow()`, `NOW()`) ticks `clock` by one; each
    generated uuid is the next value of `nextId`. */
module Store {
  import opened Schema
  import opened LikeTable
  import opened Taste
  import opened Feed

  /** `updateUserEmbedding`'s default `likeThreshold`, as `toggleLike` calls it. */
  const LikeThreshold: int := 3

  /** The post with id `pid` that the join on `posts.id` pairs a like with. */
  function FindPost(posts: seq<Post>, pid: PostId): (r: Option<Post>)
    ensures r.Some? <==> pid in PostIds(posts)
    ensures r.Some? ==> r.value in posts && r.value.id == pid
  {
    if posts == [] then None
    else if posts[0].id == pid then Some(posts[0])
    else
      assert forall p :: p in posts ==> p == posts[0] || p in posts[1..];
      FindPost(posts[1..], pid)
  }

  /** `likes inner join posts on likes.postId = posts.id`, selecting the
      post's embedding: one vector per like whose post exists. */
  function JoinPosts(ls: seq<Like>, posts: seq<Post>): (es: seq<Vector>)
    ensures |es| <= |ls|
    ensures (forall l :: l in ls ==> l.postId in PostIds(posts)) ==>
      && |es| == |ls|
      && forall k :: 0 <= k < |ls| ==> es[k] == FindPost(posts, ls[k].postId).value.embedding
    ensures forall k :: 0 <= k < |es| ==> exists p :: p in posts && es[k] == p.embedding
  {
    if ls == [] then []
    else
      var rest := JoinPosts(ls[1..], posts);
      assert forall l :: l in ls[1..] ==> l in ls;
      match FindPost(posts, ls[0].postId)
      case None => rest
      case Some(p) => [p.embedding] + rest
  }

  /** The likes of `u` created after `u`'s `lastEmbeddingUpdate`. For a user
      with no row the subquery is NULL and the comparison selects nothing. */
  function Pending(users: map<UserId, User>, likes: seq<Like>, u: UserId): (r: seq<Like>)
    ensures forall l :: l in r <==>
      l in likes && u in users && l.userId == u && l.createdAt > users[u].lastEmbeddingUpdate
  {
    if u in users then NewLikes(likes, u, users[u].lastEmbeddingUpdate) else []
  }

  /** The window holds each of the user's likes since the last update
      exactly as often as the table does, so its length is the `count(*)`
      that is compared with the threshold. */
  lemma PendingCounts(users: map<UserId, User>, likes: seq<Like>, u: UserId)
    ensures forall l ::
      multiset(Pending(users, likes, u))[l] == (if u in users && l.userId == u && l.createdAt > users[u].lastEmbeddingUpdate then multiset(likes)[l] else 0)
  {
    if u in users {
      FilterCounts(likes, (l: Like) => l.userId == u && l.createdAt > users[u].lastEmbeddingUpdate);
    }
  }

  /** The users table and the clock after `updateUserEmbedding(u, threshold)`
      (actions/actions.ts:153-220): unchanged when fewer than `threshold` likes
      are pending or none of them joins a post; otherwise `u`'s row is retuned
      towards the mean of the liked posts' embeddings at time `clock + 1`. */
  function TasteUpdate(users: map<UserId, User>, posts: seq<Post>, likes: seq<Like>, clock: int,
                       u: UserId, threshold: int): (r: (map<UserId, User>, int))
    requires u in users ==> IsVector(users[u].embedding)
    ensures r.1 == clock || r.1 == clock + 1
  {
    var pending := Pending(users, likes, u);
    if |pending| < threshold then (users, clock)
    else
      var liked := JoinPosts(pending, posts);
      if |liked| == 0 then (users, clock)
      else
        assert pending[0] in pending;
        (users[u := Retune(users[u], liked, clock + 1)], clock + 1)
  }

  // ---------------------------------------------------------------------------
  // Properties of the taste update

  /** In a well-formed database every pending like joins its post. */
  lemma PendingJoins(users: map<UserId, User>, posts: seq<Post>, likes: seq<Like>, clock: int, nextId: nat, u: UserId)
    requires WellFormed(users, posts, likes, clock, nextId)
    ensures |JoinPosts(Pending(users, likes, u), posts)| == |Pending(users, likes, u)|
  {
  }

  /** The update happens exactly when `u` exists and has at least
      `threshold` (and at least one) likes since the last update: a count
      equal to the threshold proceeds. Then every other user is unchanged and
      each component of `u`'s vector moves 30% of the way to the mean of the
      liked posts' components, the vector keeps 1536 components and every
      other column of the row is kept; otherwise nothing changes. */
  lemma TasteUpdateWhen(users: map<UserId, User>, posts: seq<Post>, likes: seq<Like>, clock: int, nextId: nat,
                        u: UserId, threshold: int)
    requires WellFormed(users, posts, likes, clock, nextId)
    ensures var (us, c) := TasteUpdate(users, posts, likes, clock, u, threshold);
      var pending := Pending(users, likes, u);
      && (c == clock + 1 <==> u in users && |pending| >= threshold && |pending| > 0)
      && (c == clock ==> us == users)
      && (c == clock + 1 ==>
            && us.Keys == users.Keys
            && (forall v :: v in users && v != u ==> us[v] == users[v])
            && us[u].lastEmbeddingUpdate == clock + 1
            && |us[u].embedding| == Dim
            && us[u] == users[u].(embedding := us[u].embedding, lastEmbeddingUpdate := clock + 1)
            && forall i :: 0 <= i < Dim ==>
                 us[u].embedding[i] == users[u].embedding[i]
                   + (ComponentSum(JoinPosts(pending, posts), i) / (|pending| as real) - users[u].embedding[i])
                     * LearningRate)
  {
  }

  /** After an update no like is pending any more: the next call starts a new window. */
  lemma WindowConsumed(users: map<UserId, User>, posts: seq<Post>, likes: seq<Like>, clock: int, nextId: nat,
                       u: UserId, threshold: int)
    requires WellFormed(users, posts, likes, clock, nextId)
    ensures var (us, c) := TasteUpdate(users, posts, likes, clock, u, threshold);
      c == clock + 1 ==> Pending(us, likes, u) == []
  {
    var (us, c) := TasteUpdate(users, posts, likes, clock, u, threshold);
    if c == clock + 1 {
      TasteUpdateWhen(users, posts, likes, clock, nextId, u, threshold);
      assert us[u].lastEmbeddingUpdate == clock + 1;
      NoNewLikes(likes, u, clock + 1);
    }
  }

  /** The update keeps every table constraint. */
  lemma TasteUpdatePreserves(users: map<UserId, User>, posts: seq<Post>, likes: seq<Like>, clock: int, nextId: nat,
                             u: UserId, threshold: int)
    requires WellFormed(users, posts, likes, clock, nextId)
    ensures var (us, c) := TasteUpdate(users, posts, likes, clock, u, threshold);
      WellFormed(us, posts, likes, c, nextId)
  {
  }

  /** The branch of the update that writes: the user exists, and the new
      state is well formed. */
  lemma RetuneStep(users: map<UserId, User>, posts: seq<Post>, likes: seq<Like>, clock: int, nextId: nat,
                   u: UserId, threshold: int)
    requires WellFormed(users, posts, likes, clock, nextId)
    requires |Pending(users, likes, u)| >= threshold && |JoinPosts(Pending(users, likes, u), posts)| > 0
    ensures u in users
    ensures var next := users[u := Retune(users[u], JoinPosts(Pending(users, likes, u), posts), clock + 1)];
      && TasteUpdate(users, posts, likes, clock, u, threshold) == (next, clock + 1)
      && WellFormed(next, posts, likes, clock + 1, nextId)
  {
    var pending := Pending(users, likes, u);
    assert pending[0] in pending;
    TasteUpdatePreserves(users, posts, likes, clock, nextId, u, threshold);
  }

  /** Running the update twice in a row is the same as running it once. */
  lemma TasteUpdateIdempotent(users: map<UserId, User>, posts: seq<Post>, likes: seq<Like>, clock: int, nextId: nat,
                              u: UserId, threshold: int)
    requires WellFormed(users, posts, likes, clock, nextId)
    ensures var (us, c) := TasteUpdate(users, posts, likes, clock, u, threshold);
      (us, c) == TasteUpdate(us, posts, likes, c, u, threshold)
  {
  }

  /** Taste vectors stay within [-b, b] when every post's vector and the
      user's own vector do (cold-start vectors lie within [-1, 1]). */
  lemma TasteUpdateStaysBounded(users: map<UserId, User>, posts: seq<Post>, likes: seq<Like>, clock: int, nextId: nat,
                                u: UserId, threshold: int, b: real)
    requires WellFormed(users, posts, likes, clock, nextId) && b >= 0.0
    requires forall p :: p in posts ==> Bounded(p.embedding, b)
    requires u in users ==> Bounded(users[u].embedding, b)
    ensures var (us, c) := TasteUpdate(users, posts, likes, clock, u, threshold);
      u in us ==> Bounded(us[u].embedding, b)
  {
    var (us, c) := TasteUpdate(users, posts, likes, clock, u, threshold);
    TasteUpdateWhen(users, posts, likes, clock, nextId, u, threshold);
    if c == clock + 1 {
      var liked := JoinPosts(Pending(users, likes, u), posts);
      forall k | 0 <= k < |liked|
        ensures Bounded(liked[k], b)
      {
        var p :| p in posts && liked[k] == p.embedding;
      }
      RetuneStaysBounded(users[u], liked, clock + 1, b);
    }
  }

  /** Every user's and every post's vector lies within [-b, b]. */
  ghost predicate AllBounded(users: map<UserId, User>, posts: seq<Post>, b: real) {
    && (forall v :: v in users ==> Bounded(users[v].embedding, b))
    && (forall p :: p in posts ==> Bounded(p.embedding, b))
  }

  /** The taste update keeps every vector of the database within [-b, b]. */
  lemma TasteUpdateKeepsAllBounded(users: map<UserId, User>, posts: seq<Post>, likes: seq<Like>, clock: int,
                                   nextId: nat, u: UserId, threshold: int, b: real)
    requires WellFormed(users, posts, likes, clock, nextId) && b >= 0.0
    requires AllBounded(users, posts, b)
    ensures AllBounded(TasteUpdate(users, posts, likes, clock, u, threshold).0, posts, b)
  {
    TasteUpdateWhen(users, posts, likes, clock, nextId, u, threshold);
    TasteUpdateStaysBounded(users, posts, likes, clock, nextId, u, threshold, b);
  }

  // ---------------------------------------------------------------------------
  // The database

  class Db {
    var users: map<UserId, User>
    var posts: seq<Post>
    var likes: seq<Like>
    /** The last timestamp handed out. */
    var clock: int
    /** The next generated uuid. */
    var nextId: nat

    ghost predicate Valid()
      reads this
    {
      WellFormed(users, posts, likes, clock, nextId)
    }

    /** Empty tables. */
    constructor ()
      ensures Valid()
      ensures users == map[] && posts == [] && likes == [] && clock == 0 && nextId == 0
    {
      users, posts, likes, clock, nextId := map[], [], [], 0, 0;
    }

    /** `createUser` (actions/actions.ts:8-18): inserts a user with an empty
        bio and a random vector of 1536 components in [-1, 1); both
        timestamps are the time of the insert. An id that is already taken is
        a primary-key violation and changes nothing. */
    method CreateUser(id: UserId, username: string, profileImage: string) returns (r: Result<()>)
      requires Valid()
      modifies this
      ensures Valid()
      ensures r.Err? <==> id in old(users)
      ensures r.Err? ==> r.error == PrimaryKeyViolation && unchanged(this)
      ensures r.Ok? ==>
        && id in users && users == old(users)[id := users[id]]
        && users[id].id == id && users[id].username == username
        && users[id].profileImage == profileImage && users[id].bio == ""
        && ColdStart(users[id].embedding)
        && users[id].createdAt == clock && users[id].lastEmbeddingUpdate == clock
        && clock == old(clock) + 1
        && posts == old(posts) && likes == old(likes) && nextId == old(nextId)
      ensures r.Ok? ==> Pending(users, likes, id) == []
      ensures old(AllBounded(users, posts, 1.0)) ==> AllBounded(users, posts, 1.0)
    {
      if id in users {
        return Err(PrimaryKeyViolation);
      }
      assert ColdStart(Zeros(Dim));
      var noise: Vector :| ColdStart(noise);
      assert ColdStart(noise);
      ColdStartBounded(noise);
      var now := clock + 1;
      var before := users;
      users := users[id := User(id, username, profileImage, "", noise, now, now)];
      clock := now;
      assert forall v :: v in users ==> v == id || (v in before && users[v] == before[v]);
      NoNewLikes(likes, id, now);
      return Ok(());
    }

    /** `createPost` (actions/actions.ts:20-28): inserts a post with a new
        id. A vector that is not 1536 long is refused by the column type, and
        an author that does not exist by the foreign key. */
    method CreatePost(userId: UserId, videoUrl: string, description: string, embedding: Vector)
      returns (r: Result<()>)
      requires Valid()
      modifies this
      ensures Valid()
      ensures r.Err? <==> !IsVector(embedding) || userId !in old(users)
      ensures r.Err? ==>
        && r.error == (if !IsVector(embedding) then DimensionMismatch else ForeignKeyViolation)
        && unchanged(this)
      ensures r.Ok? ==>
        && posts == old(posts) + [Post(old(nextId), userId, videoUrl, description, embedding, old(clock) + 1)]
        && users == old(users) && likes == old(likes)
        && clock == old(clock) + 1 && nextId == old(nextId) + 1
      ensures old(AllBounded(users, posts, 1.0)) && Bounded(embedding, 1.0) ==> AllBounded(users, posts, 1.0)
    {
      if !IsVector(embedding) {
        return Err(DimensionMismatch);
      }
      if userId !in users {
        return Err(ForeignKeyViolation);
      }
      var post := Post(nextId, userId, videoUrl, description, embedding, clock + 1);
      assert PostIds(posts + [post]) == PostIds(posts) + {post.id};
      posts := posts + [post];
      clock := clock + 1;
      nextId := nextId + 1;
      return Ok(());
    }

    /** `likePost` (actions/actions.ts:115-121): inserts a like with a new
        id. A pair that is already liked violates the unique constraint
        (reported first); a missing user or post violates a foreign key. */
    method LikePost(u: UserId, p: PostId) returns (r: Result<()>)
      requires Valid()
      modifies this
      ensures Valid()
      ensures r.Err? <==> HasLike(old(likes), u, p) || u !in old(users) || p !in PostIds(old(posts))
      ensures r.Err? ==>
        && r.error == (if HasLike(old(likes), u, p) then UniqueViolation else ForeignKeyViolation)
        && unchanged(this)
      ensures r.Ok? ==>
        && likes == old(likes) + [Like(old(nextId), u, p, old(clock) + 1)]
        && users == old(users) && posts == old(posts)
        && clock == old(clock) + 1 && nextId == old(nextId) + 1
    {
      if HasLike(likes, u, p) {
        return Err(UniqueViolation);
      }
      if u !in users || p !in PostIds(posts) {
        return Err(ForeignKeyViolation);
      }
      var like := Like(nextId, u, p, clock + 1);
      AppendUnique(likes, like);
      likes := likes + [like];
      clock := clock + 1;
      nextId := nextId + 1;
      return Ok(());
    }

    /** `updateUserEmbedding` (actions/actions.ts:153-220): the users table
        and the clock become `TasteUpdate` of the old state; the other tables
        are untouched. */
    method UpdateUserEmbedding(u: UserId, likeThreshold: int)
      requires Valid()
      modifies this
      ensures Valid()
      ensures (users, clock) == TasteUpdate(old(users), old(posts), old(likes), old(clock), u, likeThreshold)
      ensures posts == old(posts) && likes == old(likes) && nextId == old(nextId)
      ensures old(AllBounded(users, posts, 1.0)) ==> AllBounded(users, posts, 1.0)
    {
      var table, now := users, clock;
      if AllBounded(table, posts, 1.0) {
        TasteUpdateKeepsAllBounded(table, posts, likes, now, nextId, u, likeThreshold, 1.0);
      }
      var pending := Pending(table, likes, u);
      if |pending| < likeThreshold {
        return;
      }
      var liked := JoinPosts(pending, posts);
      if |liked| == 0 {
        return;
      }
      RetuneStep(table, posts, likes, now, nextId, u, likeThreshold);
      users, clock := table[u := Retune(table[u], liked, now + 1)], now + 1;
    }

    /** `toggleLike` (actions/actions.ts:123-151). An existing like of the
        pair is deleted and the result is false. Otherwise the like is
        inserted (a missing user or post throws and changes nothing), the
        taste update runs with the default threshold, and the result is true.
        Either way, a returned value says whether the pair is now liked. */
    method ToggleLike(u: UserId, p: PostId) returns (r: Result<bool>)
      requires Valid()
      modifies this
      ensures Valid()
      ensures r.Ok? ==> (HasLike(likes, u, p) <==> r.value)
      ensures old(HasLike(likes, u, p)) ==>
        && r == Ok(false)
        && likes == WithoutPair(old(likes), u, p)
        && users == old(users) && posts == old(posts) && clock == old(clock) && nextId == old(nextId)
      ensures !old(HasLike(likes, u, p)) && (u !in old(users) || p !in PostIds(old(posts))) ==>
        r == Err(ForeignKeyViolation) && unchanged(this)
      ensures !old(HasLike(likes, u, p)) && u in old(users) && p in PostIds(old(posts)) ==>
        && r == Ok(true)
        && likes == old(likes) + [Like(old(nextId), u, p, old(clock) + 1)]
        && posts == old(posts) && nextId == old(nextId) + 1
        && (users, clock) == TasteUpdate(old(users), old(posts), likes, old(clock) + 1, u, LikeThreshold)
      ensures old(AllBounded(users, posts, 1.0)) ==> AllBounded(users, posts, 1.0)
    {
      if HasLike(likes, u, p) {
        WithoutPairContents(likes, u, p);
        WithoutPairKeepsUnique(likes, u, p);
        likes := WithoutPair(likes, u, p);
        return Ok(false);
      }
      var inserted := LikePost(u, p);
      if inserted.Err? {
        return Err(inserted.error);
      }
      assert likes[|likes| - 1] in likes;
      UpdateUserEmbedding(u, LikeThreshold);
      return Ok(true);
    }

    /** `getUserEmbedding` (actions/actions.ts:222-225): the user's vector;
        for an unknown user `result[0]` is undefined and reading its
        embedding throws. */
    function GetUserEmbedding(u: UserId): (r: Result<Vector>)
      reads this
      requires Valid()
      ensures r.Ok? <==> u in users
      ensures r.Err? ==> r.error == NotFound
      ensures r.Ok? ==> IsVector(r.value) && r.value == users[u].embedding
    {
      if u in users then Ok(users[u].embedding) else Err(NotFound)
    }

    /** `getVideos` (actions/actions.ts:30-108). Without a (truthy) viewer it
        returns undefined; for an unknown viewer `getUserEmbedding` throws.
        Otherwise every post gives one row, carrying its author's name and
        image, the number of distinct users who like it, its similarity to
        the viewer's vector and whether the viewer likes it. */
    function GetVideos(viewer: Option<UserId>, distance: (Vector, Vector) -> real): (r: FeedResult)
      reads this
      requires Valid()
      ensures r.Undefined? <==> !Truthy(viewer)
      ensures r.Thrown? <==> Truthy(viewer) && viewer.value !in users
      ensures r.Thrown? ==> r.error == NotFound
      ensures r.Videos? ==> |r.rows| == |posts| && forall i :: 0 <= i < |posts| ==>
        var row, p := r.rows[i], posts[i];
        && row.id == p.id && row.videoUrl == p.videoUrl && row.description == p.description
        && row.createdAt == p.createdAt && row.userId == p.userId && row.embedding == p.embedding
        && row.username == Some(users[p.userId].username)
        && row.profileImage == Some(users[p.userId].profileImage)
        && row.likes == |LikersOf(likes, p.id)|
        && (row.hasLiked <==> HasLike(likes, viewer.value, p.id))
        && row.similarity == Some(1.0 - distance(p.embedding, users[viewer.value].embedding))
    {
      if !Truthy(viewer) then Undefined
      else
        var liked := LikedPostIds(likes, viewer.value);
        match GetUserEmbedding(viewer.value)
        case Err(e) => Thrown(e)
        case Ok(v) =>
          LikeCounts(likes);
          Videos(Rows(posts, users, likes, liked, Some(v), distance))
    }
  }
  /** Two `toggleLike` calls on the same pair in a row leave the same pairs
      liked as before; when the first call inserted the like, the second
      deletes it and the likes table is exactly as before. */
  method ToggleLikeTwice(db: Db, u: UserId, p: PostId) returns (first: Result<bool>, second: Result<bool>)
    requires db.Valid()
    modifies db
    ensures db.Valid()
    ensures Pairs(db.likes) == Pairs(old(db.likes))
    ensures first == Ok(true) ==> second == Ok(false) && db.likes == old(db.likes)
    ensures first == Ok(false) ==> second == Ok(true)
    ensures first.Err? ==> second == first && db.likes == old(db.likes)
  {
    ghost var before := db.likes;
    if HasLike(before, u, p) {
      var l :| l in before && l.userId == u && l.postId == p;
      assert u in db.users && p in PostIds(db.posts);
    }
    first := db.ToggleLike(u, p);
    ghost var middle := db.likes;
    if first == Ok(false) {
      WithoutPairContents(before, u, p);
    }
    second := db.ToggleLike(u, p);
    if first == Ok(true) {
      LikeThenUnlike(before, middle[|middle| - 1]);
    } else if first == Ok(false) {
      UnlikeThenLike(before, db.likes[|db.likes| - 1]);
    }
  }
}
