/** The queries `actions/actions.ts` runs against the `likes` table, as
    functions of the table's rows, and what they promise: the existence test
    and the delete of `toggleLike`, the "created since" window of
    `updateUserEmbedding`, the viewer's liked set and the per-post count of
    `getVideos`. */
module LikeTable {
  import opened Schema

  /** The rows of `s` that satisfy `keep`, in table order (a `where` clause). */
  function Filter(s: seq<Like>, keep: Like -> bool): (r: seq<Like>)
    ensures |r| <= |s|
    ensures forall l :: l in r <==> l in s && keep(l)
  {
    if s == [] then []
    else
      var last := s[|s| - 1];
      var rest := Filter(s[..|s| - 1], keep);
      assert s == s[..|s| - 1] + [last];
      if keep(last) then rest + [last] else rest
  }

  /** `select from likes where userId = u and postId = p` is not empty. */
  predicate HasLike(likes: seq<Like>, u: UserId, p: PostId) {
    exists l :: l in likes && l.userId == u && l.postId == p
  }

  /** The `where` clause that spares every row but those of the pair (u, p). */
  function OtherPairs(u: UserId, p: PostId): Like -> bool {
    (l: Like) => !(l.userId == u && l.postId == p)
  }

  /** `delete from likes where userId = u and postId = p`. */
  function WithoutPair(likes: seq<Like>, u: UserId, p: PostId): seq<Like> {
    Filter(likes, OtherPairs(u, p))
  }

  /** `select from likes where userId = u and createdAt > since`. */
  function NewLikes(likes: seq<Like>, u: UserId, since: int): seq<Like> {
    Filter(likes, (l: Like) => l.userId == u && l.createdAt > since)
  }

  /** The (user, post) pairs that are liked: the observable like relation. */
  function Pairs(likes: seq<Like>): set<(UserId, PostId)> {
    set l | l in likes :: (l.userId, l.postId)
  }

  /** `likedPostIds` in getVideos: the posts the viewer has a like on. */
  function LikedPostIds(likes: seq<Like>, u: UserId): (r: set<PostId>)
    ensures forall p :: p in r <==> HasLike(likes, u, p)
  {
    set l | l in likes && l.userId == u :: l.postId
  }

  /** The like ids on a post: `COUNT(DISTINCT likes.id)` is its size. */
  function LikeIdsOn(likes: seq<Like>, p: PostId): set<LikeId> {
    set l | l in likes && l.postId == p :: l.id
  }

  /** The users with a like on a post. */
  function LikersOf(likes: seq<Like>, p: PostId): set<UserId> {
    set l | l in likes && l.postId == p :: l.userId
  }

  // ---------------------------------------------------------------------------
  // Filters

  lemma FilterAppend(s: seq<Like>, x: Like, keep: Like -> bool)
    ensures Filter(s + [x], keep) == Filter(s, keep) + (if keep(x) then [x] else [])
  {
  }

  /** The filter keeps every selected row as often as the table holds it
      and no other row: the length of a `where` result is the number of
      matching rows. */
  lemma {:induction false} FilterCounts(s: seq<Like>, keep: Like -> bool)
    ensures forall l :: multiset(Filter(s, keep))[l] == (if keep(l) then multiset(s)[l] else 0)
  {
    if s != [] {
      var init, last := s[..|s| - 1], s[|s| - 1];
      assert s == init + [last];
      FilterCounts(init, keep);
      assert multiset(s) == multiset(init) + multiset{last};
    }
  }

  lemma {:induction false} FilterKeepsAll(s: seq<Like>, keep: Like -> bool)
    requires forall l :: l in s ==> keep(l)
    ensures Filter(s, keep) == s
  {
    if s != [] {
      var init := s[..|s| - 1];
      assert forall l :: l in init ==> l in s;
      FilterKeepsAll(init, keep);
      assert s == init + [s[|s| - 1]];
    }
  }

  lemma {:induction false} FilterDropsAll(s: seq<Like>, keep: Like -> bool)
    requires forall l :: l in s ==> !keep(l)
    ensures Filter(s, keep) == []
  {
    if s != [] {
      var init := s[..|s| - 1];
      assert forall l :: l in init ==> l in s;
      FilterDropsAll(init, keep);
    }
  }

  lemma {:induction false} FilterKeepsUnique(s: seq<Like>, keep: Like -> bool)
    requires UniquePairs(s) && UniqueLikeIds(s)
    ensures UniquePairs(Filter(s, keep)) && UniqueLikeIds(Filter(s, keep))
  {
    if s != [] {
      var init, last := s[..|s| - 1], s[|s| - 1];
      assert s == init + [last];
      AppendUnique(init, last);
      FilterKeepsUnique(init, keep);
      if keep(last) {
        var rest := Filter(init, keep);
        AppendUnique(rest, last);
      }
    }
  }

  /** Appending a row keeps both keys unique exactly when its pair and its id are new. */
  lemma AppendUnique(s: seq<Like>, x: Like)
    ensures UniquePairs(s + [x]) <==> UniquePairs(s) && !HasLike(s, x.userId, x.postId)
    ensures UniqueLikeIds(s + [x]) <==> UniqueLikeIds(s) && x.id !in LikeIds(s)
  {
    var t := s + [x];
    if UniquePairs(t) {
      assert forall i :: 0 <= i < |s| ==> s[i] == t[i];
      forall l | l in s
        ensures l.userId != x.userId || l.postId != x.postId
      {
        var i :| 0 <= i < |s| && s[i] == l;
        assert t[i] == l && t[|s|] == x;
      }
    }
    if UniquePairs(s) && !HasLike(s, x.userId, x.postId) {
      forall i, j | 0 <= i < j < |t|
        ensures t[i].userId != t[j].userId || t[i].postId != t[j].postId
      {
        if j == |s| {
          assert t[i] in s;
        } else {
          assert t[i] == s[i] && t[j] == s[j];
        }
      }
    }
    if UniqueLikeIds(t) {
      assert forall i :: 0 <= i < |s| ==> s[i] == t[i];
      forall l | l in s
        ensures l.id != x.id
      {
        var i :| 0 <= i < |s| && s[i] == l;
        assert t[i] == l && t[|s|] == x;
      }
    }
    if UniqueLikeIds(s) && x.id !in LikeIds(s) {
      forall i, j | 0 <= i < j < |t|
        ensures t[i].id != t[j].id
      {
        if j == |s| {
          assert t[i] in s;
        } else {
          assert t[i] == s[i] && t[j] == s[j];
        }
      }
    }
  }

  /** Under the unique constraint a pair names at most one row. */
  lemma SamePairSameLike(s: seq<Like>, a: Like, b: Like)
    requires UniquePairs(s) && a in s && b in s
    requires a.userId == b.userId && a.postId == b.postId
    ensures a == b
  {
  }

  /** Under the primary key an id names at most one row. */
  lemma SameIdSameLike(s: seq<Like>, a: Like, b: Like)
    requires UniqueLikeIds(s) && a in s && b in s && a.id == b.id
    ensures a == b
  {
  }

  // ---------------------------------------------------------------------------
  // Toggling

  /** Deleting a pair removes exactly the rows of that pair and keeps the others. */
  lemma WithoutPairContents(likes: seq<Like>, u: UserId, p: PostId)
    ensures !HasLike(WithoutPair(likes, u, p), u, p)
    ensures forall l :: l in WithoutPair(likes, u, p) <==> l in likes && (l.userId != u || l.postId != p)
    ensures forall v, q :: (v != u || q != p) ==> (HasLike(WithoutPair(likes, u, p), v, q) <==> HasLike(likes, v, q))
  {
  }

  /** The delete keeps both keys of the table unique. */
  lemma WithoutPairKeepsUnique(likes: seq<Like>, u: UserId, p: PostId)
    requires UniquePairs(likes) && UniqueLikeIds(likes)
    ensures UniquePairs(WithoutPair(likes, u, p)) && UniqueLikeIds(WithoutPair(likes, u, p))
  {
    FilterKeepsUnique(likes, OtherPairs(u, p));
  }

  /** When the pair is liked, the delete removes exactly one row. */
  lemma {:induction false} WithoutPairRemovesOne(likes: seq<Like>, u: UserId, p: PostId)
    requires UniquePairs(likes) && HasLike(likes, u, p)
    ensures |WithoutPair(likes, u, p)| == |likes| - 1
  {
    var keep := OtherPairs(u, p);
    var init, last := likes[..|likes| - 1], likes[|likes| - 1];
    assert likes == init + [last];
    FilterAppend(init, last, keep);
    assert UniquePairs(init) by { AppendUnique(init, last); }
    if last.userId == u && last.postId == p {
      assert !HasLike(init, u, p) by { AppendUnique(init, last); }
      FilterKeepsAll(init, keep);
    } else {
      var l :| l in likes && l.userId == u && l.postId == p;
      assert l in init;
      WithoutPairRemovesOne(init, u, p);
    }
  }

  /** Like, then unlike: the table is exactly as before. */
  lemma LikeThenUnlike(likes: seq<Like>, l: Like)
    requires !HasLike(likes, l.userId, l.postId)
    ensures WithoutPair(likes + [l], l.userId, l.postId) == likes
  {
    var keep := OtherPairs(l.userId, l.postId);
    FilterAppend(likes, l, keep);
    FilterKeepsAll(likes, keep);
  }

  /** Unlike, then like again: the same pairs are liked as before (the row
      is a new one, with a new id and creation time). */
  lemma UnlikeThenLike(likes: seq<Like>, l: Like)
    requires HasLike(likes, l.userId, l.postId)
    ensures Pairs(WithoutPair(likes, l.userId, l.postId) + [l]) == Pairs(likes)
  {
  }

  // ---------------------------------------------------------------------------
  // Counting

  /** How appending one row changes a post's like ids and likers. */
  lemma OnAppend(s: seq<Like>, x: Like, p: PostId)
    ensures LikeIdsOn(s + [x], p) == LikeIdsOn(s, p) + (if x.postId == p then {x.id} else {})
    ensures LikersOf(s + [x], p) == LikersOf(s, p) + (if x.postId == p then {x.userId} else {})
  {
  }

  /** Under both keys, `COUNT(DISTINCT likes.id)` on a post is the number of
      distinct users who like it: no user is counted twice. */
  lemma {:induction false} DistinctLikeCount(likes: seq<Like>, p: PostId)
    requires UniquePairs(likes) && UniqueLikeIds(likes)
    ensures |LikeIdsOn(likes, p)| == |LikersOf(likes, p)|
  {
    if likes != [] {
      var init, last := likes[..|likes| - 1], likes[|likes| - 1];
      assert likes == init + [last];
      AppendUnique(init, last);
      DistinctLikeCount(init, p);
      OnAppend(init, last, p);
      if last.postId == p {
        assert last.id !in LikeIdsOn(init, p);
        assert last.userId !in LikersOf(init, p);
      }
    }
  }

  /** `DistinctLikeCount` for every post at once. */
  lemma LikeCounts(likes: seq<Like>)
    requires UniquePairs(likes) && UniqueLikeIds(likes)
    ensures forall p :: |LikeIdsOn(likes, p)| == |LikersOf(likes, p)|
  {
    forall p
      ensures |LikeIdsOn(likes, p)| == |LikersOf(likes, p)|
    {
      DistinctLikeCount(likes, p);
    }
  }

  /** Appending a like with a new id raises its post's count by one and no other. */
  lemma CountAfterInsert(likes: seq<Like>, l: Like, q: PostId)
    requires l.id !in LikeIds(likes)
    ensures |LikeIdsOn(likes + [l], q)| == |LikeIdsOn(likes, q)| + (if q == l.postId then 1 else 0)
  {
    if q == l.postId {
      assert LikeIdsOn(likes + [l], q) == LikeIdsOn(likes, q) + {l.id};
      assert l.id !in LikeIdsOn(likes, q);
    } else {
      assert LikeIdsOn(likes + [l], q) == LikeIdsOn(likes, q);
    }
  }

  /** Deleting a liked pair lowers its post's count by one and no other. */
  lemma CountAfterDelete(likes: seq<Like>, u: UserId, p: PostId, q: PostId)
    requires UniquePairs(likes) && UniqueLikeIds(likes) && HasLike(likes, u, p)
    ensures |LikeIdsOn(WithoutPair(likes, u, p), q)| == |LikeIdsOn(likes, q)| - (if q == p then 1 else 0)
  {
    var w := WithoutPair(likes, u, p);
    WithoutPairContents(likes, u, p);
    var x :| x in likes && x.userId == u && x.postId == p;
    if q == p {
      forall id | id in LikeIdsOn(likes, q) - {x.id}
        ensures id in LikeIdsOn(w, q)
      {
        var y :| y in likes && y.postId == q && y.id == id;
        if y.userId == u {
          SamePairSameLike(likes, x, y);
        }
        assert y in w;
      }
      forall id | id in LikeIdsOn(w, q)
        ensures id in LikeIdsOn(likes, q) - {x.id}
      {
        var y :| y in w && y.postId == q && y.id == id;
        if y.id == x.id {
          SameIdSameLike(likes, x, y);
        }
      }
      assert LikeIdsOn(w, q) == LikeIdsOn(likes, q) - {x.id};
    } else {
      assert LikeIdsOn(w, q) == LikeIdsOn(likes, q);
    }
  }

  /** Nothing in the "since" window is at or before its start. */
  lemma NoNewLikes(likes: seq<Like>, u: UserId, since: int)
    requires forall l :: l in likes ==> l.createdAt <= since
    ensures NewLikes(likes, u, since) == []
  {
    FilterDropsAll(likes, (l: Like) => l.userId == u && l.createdAt > since);
  }
}
