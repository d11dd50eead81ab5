# Video feed likes and taste vectors, in Dafny

This project models the like, feed and taste-profile layer of a short-video
app. Three tables hold the state: `users`, `posts` and `likes`. Users and
posts each carry a 1536-dimensional vector.

- A user gets a random starting taste vector.
- Toggling a like inserts or deletes the (user, post) row.
- After an insert, the taste update runs. Once at least three likes have
  accumulated since the user's last update, it moves the user's vector 30% of
  the way towards the mean of the liked posts' vectors.
- The feed gives one row per post, with its distinct-like count, its
  similarity to the viewer's vector and whether the viewer liked it.
- The client patches the clicked row after a toggle instead of reloading.

Modules:

- `Schema` (`schema.dfy`): the three tables as datatypes, the error kinds,
  and `WellFormed`. `WellFormed` collects the primary keys, the foreign keys,
  the unique (userId, postId) constraint and the vector dimension.
- `LikeTable` (`likes.dfy`): the queries run against `likes`, as functions of
  its rows. This covers the existence test, the delete, the "created since"
  window, the viewer's liked set and per-post counts. Its lemmas cover
  uniqueness, toggle round trips and counting.
- `Taste` (`taste.dfy`): the averaging and learning-rate arithmetic over
  `real`. Its lemmas cover the exact formula, the mean of equal vectors,
  bounds, and the worked two-dimensional example.
- `Feed` (`feed.dfy`): the shape of a feed row and the grouped query.
- `Store` (`store.dfy`): class `Db` holds the tables, a timestamp clock and an
  id counter. Its methods are the server actions. `TasteUpdate` specifies
  `updateUserEmbedding`, and lemmas state what it does.
- `VideoFeed` (`video_feed.dfy`): `handleLike` and its per-index list update.
  Lemmas show that the patched list agrees with the likes table whenever the
  list agreed before the click.

Timestamps: every statement that calls `defaultNow()` or `NOW()` takes
`clock + 1` and advances the clock. Generated uuids are the next value of the
counter `nextId`.

The model follows the code in these behaviours:

- A duplicate like insert throws a unique violation. `likePost` does not
  catch it, so it is not treated as success.
- `getVideos` without a viewer returns `undefined`, not a feed without
  similarity. `app/page.tsx:12` turns that into an empty list.
- `getVideos` for a viewer with no users row throws. `result[0]` is undefined
  there, so the call does not fall back to an unranked feed.
- The rows are not sorted by similarity.
- An error in the taste update is not swallowed. In this model no error can
  occur there.

## Model

| member | source | states |
|---|---|---|
| Store.FindPost | actions/actions.ts:180 | the join finds a post for an id exactly when some post has that id, and the post it finds has that id |
| LikeTable.LikedPostIds | actions/actions.ts:32-38 | a post is in the viewer's liked set exactly when the viewer has a like on it |
| LikeTable.AppendUnique | db/schema.ts:35-37 | inserting a like keeps (userId, postId) unique exactly when the pair is not yet liked, and keeps ids unique exactly when the id is new |
| LikeTable.WithoutPairContents | actions/actions.ts:135-140 | after the delete the pair is no longer liked, exactly the other rows remain, and every other pair is liked as before |
| LikeTable.WithoutPairKeepsUnique | actions/actions.ts:135-140 | the delete keeps the unique pair constraint and the id key |
| LikeTable.WithoutPairRemovesOne | actions/actions.ts:133-140 | deleting a liked pair from a table with unique pairs removes exactly one row |
| LikeTable.LikeThenUnlike | actions/actions.ts:133-150 | inserting a like on an unliked pair and then deleting that pair gives back the same table |
| LikeTable.UnlikeThenLike | actions/actions.ts:133-150 | deleting a liked pair and then inserting it again gives the same set of liked pairs |
| LikeTable.DistinctLikeCount | actions/actions.ts:55 | under both keys, `COUNT(DISTINCT likes.id)` on a post equals the number of distinct users who like it |
| LikeTable.LikeCounts | actions/actions.ts:55 | the same for every post at once |
| LikeTable.CountAfterInsert | actions/actions.ts:144-147 | inserting a like with a new id raises its post's count by one and leaves every other post's count alone |
| LikeTable.CountAfterDelete | actions/actions.ts:135-140 | deleting a liked pair lowers its post's count by one and leaves every other post's count alone |
| LikeTable.FilterCounts | actions/actions.ts:155-169 | a `WHERE` keeps every row it accepts as often as the table holds it and drops every other row |
| LikeTable.NoNewLikes | actions/actions.ts:163-167 | when no like is newer than the window start, the window is empty |
| Taste.AddInto | actions/actions.ts:200 | one reducer step keeps the accumulator's length |
| Taste.Accumulate | actions/actions.ts:199-200 | the reduce keeps the accumulator's length |
| Taste.AccumulateIsSum | actions/actions.ts:199-200 | the reduce gives, for each index, the start value plus the sum over the liked posts of that component, with 0 for a missing one |
| Taste.Average | actions/actions.ts:199-201 | the mean has 1536 components, each the component sum divided by the number of liked posts |
| Taste.ShortVectorCountsInDivisor | actions/actions.ts:200-201 | a post with a missing component adds 0 but still counts in the divisor |
| Taste.AverageOfCopies | actions/actions.ts:199-201 | the mean of copies of one vector is that vector |
| Taste.MoveToward | actions/actions.ts:204-210 | each component keeps 70% of its gap to the target and lies between the old value and the target |
| Taste.MoveTowardSelf | actions/actions.ts:207-210 | moving towards the current vector changes nothing |
| Taste.Retune | actions/actions.ts:207-219 | the new row has a 1536-vector with `new[i] = cur[i] + (avg[i] - cur[i]) * 0.3`, the update time as `lastEmbeddingUpdate`, and every other field unchanged |
| Taste.AverageBounded | actions/actions.ts:199-201 | the mean of vectors within [-b, b] stays within [-b, b] |
| Taste.RetuneStaysBounded | actions/actions.ts:207-210 | if the user's vector and the liked vectors lie within [-b, b], so does the updated vector |
| Taste.ColdStartBounded | actions/actions.ts:9 | a starting vector lies within [-1, 1], the bound `Db.CreateUser`, `Db.UpdateUserEmbedding` and `Db.ToggleLike` keep for every vector |
| Taste.TwoDimensionExample | actions/actions.ts:199-210 | with vectors [1, 1] and [-1, 1] the mean is [0, 1], and a step from [0, 0] gives [0, 0.3] |
| Feed.Rows | actions/actions.ts:45-76 | one row per post, in order; row i carries post i's id, url, description, time, author and vector, the author's name and image exactly when the author has a users row (null otherwise), the number of distinct like ids on the post, `has_liked` exactly when the post is in the viewer's liked set, and a similarity `1 - distance(post, query)` exactly when a query vector is given |
| Feed.OneRowPerPost | actions/actions.ts:65-67 | grouping never fans out: the row ids are distinct and are exactly the post ids |
| Store.JoinPosts | actions/actions.ts:175-190 | the inner join gives at most one vector per like, each the vector of an existing post; when every liked post exists it gives exactly one per like, the k-th being the vector of the k-th like's post |
| Store.Pending | actions/actions.ts:155-169 | the window holds exactly the user's likes created after the user's `lastEmbeddingUpdate`, and nothing for an unknown user |
| Store.PendingCounts | actions/actions.ts:155-172 | the window holds each of the user's newer likes as often as the table does and no other row, so its length is the `count(*)` of the query |
| Store.TasteUpdate | actions/actions.ts:153-220 | the clock either stays put or advances by one tick |
| Store.PendingJoins | actions/actions.ts:175-192 | in a well-formed database every like in the window joins its post |
| Store.TasteUpdateWhen | actions/actions.ts:153-219 | the update happens exactly when the user exists and has at least `threshold` likes (and at least one) in the window, so a count equal to the threshold proceeds; then other users are unchanged, `lastEmbeddingUpdate` is the new time, the vector keeps 1536 components, each moving 30% towards the mean of the liked posts, and every other column of the row is kept; otherwise nothing changes |
| Store.WindowConsumed | actions/actions.ts:213-219 | after an update no like is in the window |
| Store.RetuneStep | actions/actions.ts:172-219 | with enough likes in the window and at least one joined post, the update writes the retuned row at the next tick and keeps every table constraint |
| Store.TasteUpdatePreserves | actions/actions.ts:213-219 | the update keeps every table constraint |
| Store.TasteUpdateIdempotent | actions/actions.ts:153-220 | for any threshold, running the update twice in a row is the same as running it once |
| Store.TasteUpdateStaysBounded | actions/actions.ts:199-210 | taste vectors stay within [-b, b] when every post's vector and the user's starting vector do |
| Store.TasteUpdateKeepsAllBounded | actions/actions.ts:199-219 | if every user's and every post's vector lies within [-b, b], so does every vector after the update |
| Store.Db.constructor | db/schema.ts:3-38 | empty tables satisfy every constraint |
| Store.Db.CreateUser | actions/actions.ts:8-18 | a taken id is a primary-key violation and changes nothing; otherwise only the new user is added, with the given name and image, an empty bio, a vector of 1536 components in [-1, 1), both timestamps equal to the insert time, and no like in its window; if every stored vector lay within [-1, 1] before, every one does after |
| Store.Db.CreatePost | actions/actions.ts:20-28 | a vector that is not 1536 long is refused first, then an unknown author; otherwise exactly one post with a new id and the insert time is appended; a vector within [-1, 1] keeps every stored vector within [-1, 1] |
| Store.Db.LikePost | actions/actions.ts:115-121 | an already liked pair is a unique violation, then a missing user or post is a foreign-key violation, and either changes nothing; otherwise exactly one like with a new id and the insert time is appended |
| Store.Db.UpdateUserEmbedding | actions/actions.ts:153-220 | the users table and clock become `TasteUpdate` of the old state, the other tables are untouched, the constraints hold, and vectors within [-1, 1] stay within [-1, 1] |
| Store.Db.ToggleLike | actions/actions.ts:123-151 | a liked pair is deleted with result false and users, posts and clock unchanged; an unliked pair is inserted with result true, followed by the taste update with threshold 3, or throws a foreign-key violation with nothing changed; a returned value says whether the pair is now liked; vectors within [-1, 1] stay within [-1, 1] |
| Store.Db.GetUserEmbedding | actions/actions.ts:222-225 | the user's 1536-vector when the user exists, a thrown error otherwise |
| Store.Db.GetVideos | actions/actions.ts:30-108 | `undefined` exactly without a truthy viewer, and a thrown error exactly for an unknown viewer; otherwise one row per post with its author, the number of distinct users liking it, `has_liked` exactly when the viewer likes it, and similarity `1 - distance(post, viewer)` |
| Store.ToggleLikeTwice | actions/actions.ts:123-151 | two toggles of one pair leave the liked pairs as before; if the first inserted, the second deletes and the likes table is exactly as before |
| VideoFeed.ToggledRows | components/VideoFeed.tsx:24-35 | the list keeps its length and every other row; the clicked row takes the returned `has_liked`, its count moves by +1 or -1, and its other fields are kept |
| VideoFeed.ToggleTwice | components/VideoFeed.tsx:24-35 | patching a row with one answer and then the opposite answer restores the list |
| VideoFeed.FreshFeedInSync | actions/actions.ts:65-76 | a fetched feed has distinct row ids, and every row shows the table's like count and the viewer's like |
| VideoFeed.LikeKeepsInSync | components/VideoFeed.tsx:22-35 | after the server inserts the like, the patched list again shows the table's counts and likes |
| VideoFeed.UnlikeKeepsInSync | components/VideoFeed.tsx:22-35 | after the server deletes the like, the patched list again shows the table's counts and likes |
| VideoFeed.HandleLike | components/VideoFeed.tsx:19-36 | without a truthy user nothing changes; a liked pair is deleted with users, posts, clock and id counter unchanged, and the row patched as unliked; an unliked pair with an existing user and post is inserted with a new id at the next tick, followed by the taste update with threshold 3 and posts unchanged, and the row patched as liked; otherwise the server throws and nothing changes; a list that matched the table before the click still matches it afterwards |

## Left out

- Authentication, webhooks, blob storage and the embeddings service are left
  out. User ids and post vectors are given to the model.
- Rendering, routing, the upload form and configuration are left out. They
  hold no logic.
- `getUser` (actions/actions.ts:110-113) is left out. It is a plain select
  that no modelled operation depends on.
- Cosine distance is pgvector's `<=>` operator, which is not part of this
  model. `GetVideos` takes it as a function parameter, and nothing is claimed
  about ordering by similarity.
- Floating point is not modelled. Arithmetic is over `real`, so rounding,
  NaN and overflow are not covered.
- `Math.random()` is modelled as an arbitrary choice of a vector with
  components in [-1, 1).
- Concurrency is left out. Concurrent toggles and concurrent taste updates
  are out of scope.
- Uuid collisions are left out. Generated ids come from a counter, so they
  are always fresh.
- Post ids that are not valid uuid strings are left out. Post ids are
  naturals.
- The comments, replies, follows and notes tables are left out. No modelled
  operation uses them.
- Null columns are left out. `createUser` and `createPost` always write
  every column the model keeps, and embeddings are never null.
- Feed.Rows: the row order is table order. The query has no ORDER BY, so
  the database may return the rows in any order.
- Store.Db.GetVideos: the branch for a viewer without an embedding
  (actions/actions.ts:77-106) cannot be reached in the model. Every stored
  user has a vector. `Feed.Rows` still covers that branch, giving no
  similarity when no query vector is passed.
- Taste.MoveToward: requires the current vector to be no longer than the
  target. A longer current vector gives NaN for the extra components in
  JavaScript, which reals cannot express. A shorter one gives a shorter
  result, which the model covers. In a well-formed database both are 1536
  long.
