/** `handleLike` of components/VideoFeed.tsx:19-36: the viewer toggles a like
    on the server, and the client patches the clicked row of its list instead
    of fetching the feed again. The lemmas show that the patch agrees with the
    server: a list that matched the likes table before the click matches it
    after. */
module VideoFeed {
  import opened Schema
  import opened LikeTable
  import opened Feed
  import opened Store

  /** The clicked row after the server answered `isLiked`. */
  function Toggled(row: VideoRow, isLiked: bool): VideoRow {
    row.(hasLiked := isLiked, likes := row.likes + (if isLiked then 1 else -1))
  }

  /** The list after `setVideos`: the row at `index` is patched, every other
      row is kept; an index outside the list patches nothing. */
  function ToggledRows(videos: seq<VideoRow>, index: int, isLiked: bool): (r: seq<VideoRow>)
    ensures |r| == |videos|
    ensures forall i :: 0 <= i < |videos| && i != index ==> r[i] == videos[i]
    ensures 0 <= index < |videos| ==> r[index].hasLiked == isLiked
    ensures 0 <= index < |videos| ==> r[index].likes == videos[index].likes + (if isLiked then 1 else -1)
    ensures 0 <= index < |videos| ==>
      r[index] == videos[index].(hasLiked := r[index].hasLiked, likes := r[index].likes)
  {
    seq(|videos|, i requires 0 <= i < |videos| => if i == index then Toggled(videos[i], isLiked) else videos[i])
  }

  /** A row shows the like count and the viewer's like as the table has them. */
  predicate InSync(row: VideoRow, likes: seq<Like>, u: UserId) {
    row.likes == |LikeIdsOn(likes, row.id)| && (row.hasLiked <==> HasLike(likes, u, row.id))
  }

  predicate FeedInSync(rows: seq<VideoRow>, likes: seq<Like>, u: UserId) {
    forall i :: 0 <= i < |rows| ==> InSync(rows[i], likes, u)
  }

  predicate DistinctIds(rows: seq<VideoRow>) {
    forall i, j :: 0 <= i < j < |rows| ==> rows[i].id != rows[j].id
  }

  /** A like followed by an unlike of the same row, or the reverse, restores
      the row as it was (when it showed the state the first click changed). */
  lemma ToggleTwice(videos: seq<VideoRow>, index: int, isLiked: bool)
    requires 0 <= index < |videos| ==> videos[index].hasLiked == !isLiked
    ensures ToggledRows(ToggledRows(videos, index, isLiked), index, !isLiked) == videos
  {
  }

  /** The feed the viewer gets from `getVideos` matches the likes table, one
      row per post. */
  lemma FreshFeedInSync(db: Db, u: UserId, distance: (Vector, Vector) -> real)
    requires db.Valid()
    ensures var r := db.GetVideos(Some(u), distance);
      r.Videos? ==> FeedInSync(r.rows, db.likes, u) && DistinctIds(r.rows)
  {
  }

  /** After the server inserted the viewer's like, the patched list matches
      the new table: the clicked post counts one more like and shows it as
      liked, and no other row changes. */
  lemma LikeKeepsInSync(rows: seq<VideoRow>, likes: seq<Like>, index: int, l: Like)
    requires FeedInSync(rows, likes, l.userId) && DistinctIds(rows)
    requires 0 <= index < |rows| && rows[index].id == l.postId
    requires !HasLike(likes, l.userId, l.postId) && l.id !in LikeIds(likes)
    ensures FeedInSync(ToggledRows(rows, index, true), likes + [l], l.userId)
  {
    var next := ToggledRows(rows, index, true);
    forall i | 0 <= i < |rows|
      ensures InSync(next[i], likes + [l], l.userId)
    {
      CountAfterInsert(likes, l, rows[i].id);
      assert l in likes + [l];
      if i != index {
        assert rows[i].id != l.postId by {
          if i < index {} else {}
        }
        assert forall x :: x in likes + [l] <==> x in likes || x == l;
      }
    }
  }

  /** After the server deleted the viewer's like, the patched list matches
      the new table: the clicked post counts one like fewer and shows it as not
      liked, and no other row changes. */
  lemma UnlikeKeepsInSync(rows: seq<VideoRow>, likes: seq<Like>, index: int, u: UserId)
    requires FeedInSync(rows, likes, u) && DistinctIds(rows)
    requires UniquePairs(likes) && UniqueLikeIds(likes)
    requires 0 <= index < |rows| && HasLike(likes, u, rows[index].id)
    ensures FeedInSync(ToggledRows(rows, index, false), WithoutPair(likes, u, rows[index].id), u)
  {
    var p := rows[index].id;
    var next := ToggledRows(rows, index, false);
    WithoutPairContents(likes, u, p);
    forall i | 0 <= i < |rows|
      ensures InSync(next[i], WithoutPair(likes, u, p), u)
    {
      CountAfterDelete(likes, u, p, rows[i].id);
      if i != index {
        assert rows[i].id != p by {
          if i < index {} else {}
        }
      }
    }
  }

  /** `handleLike(postId, index)`. Without a (truthy) signed-in user it does
      nothing. Otherwise it toggles the like on the server; if that throws the
      list is kept, else the row at `index` is patched with the answer. When
      the list matched the table before and its row `index` is the clicked
      post, it matches the table afterwards. */
  method HandleLike(db: Db, viewer: Option<UserId>, postId: PostId, index: int, videos: seq<VideoRow>)
    returns (next: seq<VideoRow>)
    requires db.Valid()
    modifies db
    ensures db.Valid()
    ensures !Truthy(viewer) ==> next == videos && unchanged(db)
    ensures Truthy(viewer) && old(HasLike(db.likes, viewer.value, postId)) ==>
      && db.likes == WithoutPair(old(db.likes), viewer.value, postId)
      && db.users == old(db.users) && db.posts == old(db.posts)
      && db.clock == old(db.clock) && db.nextId == old(db.nextId)
      && next == ToggledRows(videos, index, false)
    ensures Truthy(viewer) && !old(HasLike(db.likes, viewer.value, postId))
            && viewer.value in old(db.users) && postId in PostIds(old(db.posts)) ==>
      && db.likes == old(db.likes) + [Like(old(db.nextId), viewer.value, postId, old(db.clock) + 1)]
      && db.posts == old(db.posts) && db.nextId == old(db.nextId) + 1
      && (db.users, db.clock) == TasteUpdate(old(db.users), old(db.posts), db.likes, old(db.clock) + 1, viewer.value, LikeThreshold)
      && next == ToggledRows(videos, index, true)
    ensures Truthy(viewer) && !old(HasLike(db.likes, viewer.value, postId))
            && (viewer.value !in old(db.users) || postId !in PostIds(old(db.posts))) ==>
      next == videos && unchanged(db)
    ensures Truthy(viewer) && FeedInSync(videos, old(db.likes), viewer.value) && DistinctIds(videos)
            && 0 <= index < |videos| && videos[index].id == postId
            ==> FeedInSync(next, db.likes, viewer.value)
  {
    if !Truthy(viewer) {
      return videos;
    }
    var u := viewer.value;
    ghost var before, firstId := db.likes, db.nextId;
    var isLiked := db.ToggleLike(u, postId);
    if isLiked.Err? {
      return videos;
    }
    next := ToggledRows(videos, index, isLiked.value);
    if FeedInSync(videos, before, u) && DistinctIds(videos) && 0 <= index < |videos| && videos[index].id == postId {
      if isLiked.value {
        var l := db.likes[|db.likes| - 1];
        assert l.id == firstId && l.id !in LikeIds(before);
        LikeKeepsInSync(videos, before, index, l);
      } else {
        UnlikeKeepsInSync(videos, before, index, u);
      }
    }
  }
}
