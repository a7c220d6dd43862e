/** The read queries of the store as functions over a snapshot of the
    tables: the two post feeds with their activity ranking, the per-user and
    per-post listings, followers and followings, the user search and the
    notification listing, each with the count query the handlers pair with
    it to compute the number of pages. */
module Queries {
  import opened Wrappers
  import opened Rel
  import opened Ordering
  import opened Text
  import opened Schema

  /** A post joined with its author, `posts INNER JOIN users ON p.user_id = u.id`. */
  type PostRow = (Post, User)

  /** A notification joined with its actor, `notifications INNER JOIN users ON n.actor_id = u.id`. */
  type NotificationRow = (Notification, User)

  function PostAuthor(p: Post): int { p.userId }
  function NotificationActor(n: Notification): int { n.actorId }

  /** Every post row with its author row. */
  function PostsWithAuthors(t: Tables): seq<PostRow>
  {
    JoinOn(t.posts, t.users, PostAuthor, UserKey)
  }

  /** Foreign keys: every post's author and every notification's actor is a user. */
  ghost predicate AuthorsExist(t: Tables)
  {
    forall p :: p in t.posts ==> HasKey(t.users, UserKey, p.userId)
  }

  ghost predicate ActorsExist(t: Tables)
  {
    forall n :: n in t.notifications ==> HasKey(t.users, UserKey, n.actorId)
  }

  // ---------------------------------------------------------------------
  // LIMIT / OFFSET

  /** `LIMIT limit OFFSET skip` as the database runs it: a negative offset or
      limit is a query error, otherwise the rows at [skip, skip + limit). */
  function SqlPage<T>(rows: seq<T>, skip: int, limit: int): (r: Result<seq<T>>)
    ensures r.Ok? <==> skip >= 0 && limit >= 0
    ensures r.Ok? ==> |r.value| <= limit
    ensures r.Ok? ==> forall k :: 0 <= k < |r.value| ==> skip + k < |rows| && r.value[k] == rows[skip + k]
    ensures r.Ok? && skip + limit <= |rows| ==> |r.value| == limit
  {
    if limit < 0 then Err("LIMIT must not be negative")
    else if skip < 0 then Err("OFFSET must not be negative")
    else Ok(Page(rows, skip, limit))
  }

  /** A page of an ordered result: every row on it comes from the rows, and
      it is in order. */
  lemma RankedPage<T(!new)>(rows: seq<T>, key: T -> Pair, skip: int, limit: int)
    requires skip >= 0 && limit >= 0
    ensures var r := SqlPage(SortDesc(rows, key), skip, limit);
      r.Ok? && SortedDesc(r.value, key) && forall x :: x in r.value ==> x in rows
  {
    var s := SortDesc(rows, key);
    SortDescCorrect(rows, key);
    PageOfSortedIsSorted(s, key, skip, limit);
    var r := Page(s, skip, limit);
    forall x | x in r ensures x in rows {
      var k :| 0 <= k < |r| && r[k] == x;
      assert s[skip + k] in multiset(s);
    }
  }

  /** Walking pages 1, 2, ... of an ordered result with a positive limit
      reaches every row, on a page no later than the page count of the
      unordered rows. */
  lemma RankedPagesCover<T(!new)>(rows: seq<T>, key: T -> Pair, x: T, limit: int)
    requires limit > 0 && x in rows
    ensures exists page :: (1 <= page <= NoOfPages(|rows|, limit)
      && SqlPage(SortDesc(rows, key), Skip(page, limit), limit).Ok?
      && x in SqlPage(SortDesc(rows, key), Skip(page, limit), limit).value)
  {
    var s := SortDesc(rows, key);
    SortDescCorrect(rows, key);
    assert x in multiset(s);
    var page := PageCoversRow(s, x, limit);
    assert SqlPage(s, Skip(page, limit), limit) == Ok(Page(s, Skip(page, limit), limit));
  }

  /** Pages 1 .. NoOfPages of an ordered result hold rows and every later
      page is empty: the count query and the listing agree. */
  lemma RankedPagesEnd<T(!new)>(rows: seq<T>, key: T -> Pair, page: int, limit: int)
    requires limit > 0 && page >= 1
    ensures SqlPage(SortDesc(rows, key), Skip(page, limit), limit).Ok?
    ensures SqlPage(SortDesc(rows, key), Skip(page, limit), limit).value == [] <==> page > NoOfPages(|rows|, limit)
  {
    SortDescCorrect(rows, key);
    PageEmptyIffBeyondLast(SortDesc(rows, key), page, limit);
  }

  // ---------------------------------------------------------------------
  // Engagement counts and the activity score

  function LikesOf(postId: int): Like -> bool { (l: Like) => l.likedPostId == postId }
  function BookmarksOf(postId: int): Bookmark -> bool { (b: Bookmark) => b.bookmarkedPostId == postId }
  function CommentsOf(postId: int): Post -> bool { (p: Post) => p.parentPostId == Some(postId) }

  function Liker(l: Like): int { l.likedById }
  function Bookmarker(b: Bookmark): int { b.bookmarkedById }

  /** `COUNT(DISTINCT l.liked_by_id)` over the likes of the post. */
  function LikesCount(t: Tables, postId: int): nat
  {
    |Values(t.likes, LikesOf(postId), Liker)|
  }

  /** `COUNT(DISTINCT c.id)` over the direct children of the post. */
  function CommentsCount(t: Tables, postId: int): nat
  {
    |Values(t.posts, CommentsOf(postId), PostKey)|
  }

  /** `COUNT(DISTINCT b.bookmarked_by_id)` over the bookmarks of the post. */
  function BookmarksCount(t: Tables, postId: int): nat
  {
    |Values(t.bookmarks, BookmarksOf(postId), Bookmarker)|
  }

  /** With one like per (liker, post) pair, the distinct likers of a post are
      as many as its like rows. */
  lemma LikesCountIsRowCount(t: Tables, postId: int)
    requires UniqueBy(t.likes, LikeKey)
    ensures LikesCount(t, postId) == |Filter(t.likes, LikesOf(postId))|
  {
    DistinctCount(t.likes, LikesOf(postId), Liker);
  }

  /** With distinct post ids, the comment count is the number of children. */
  lemma CommentsCountIsRowCount(t: Tables, postId: int)
    requires UniqueBy(t.posts, PostKey)
    ensures CommentsCount(t, postId) == |Filter(t.posts, CommentsOf(postId))|
  {
    DistinctCount(t.posts, CommentsOf(postId), PostKey);
  }

  lemma BookmarksCountIsRowCount(t: Tables, postId: int)
    requires UniqueBy(t.bookmarks, BookmarkKey)
    ensures BookmarksCount(t, postId) == |Filter(t.bookmarks, BookmarksOf(postId))|
  {
    DistinctCount(t.bookmarks, BookmarksOf(postId), Bookmarker);
  }

  /** The weights of likes, comments and bookmarks in the activity score. */
  datatype Weights = Weights(likes: nat, comments: nat, bookmarks: nat)

  /** The feed handlers' weights 0.7, 0.8 and 0.5, multiplied by ten. */
  const FeedWeights := Weights(7, 8, 5)

  function ActivityScore(t: Tables, w: Weights, postId: int): nat
  {
    w.likes * LikesCount(t, postId) + w.comments * CommentsCount(t, postId) + w.bookmarks * BookmarksCount(t, postId)
  }

  /** `ORDER BY activity_score DESC, post_created_at DESC`. */
  function FeedKey(t: Tables, w: Weights): PostRow -> Pair
  {
    (row: PostRow) => (ActivityScore(t, w, row.0.id), row.0.createdAt)
  }

  /** `ORDER BY p.post_created_at DESC`. */
  function NewestPostFirst(row: PostRow): Pair { (row.0.createdAt, 0) }

  function Scaled(w: Weights, c: nat): Weights
  {
    Weights(c * w.likes, c * w.comments, c * w.bookmarks)
  }

  lemma ScoreScales(t: Tables, w: Weights, c: nat, postId: int)
    ensures ActivityScore(t, Scaled(w, c), postId) == c * ActivityScore(t, w, postId)
  {
    var l, m, b := LikesCount(t, postId), CommentsCount(t, postId), BookmarksCount(t, postId);
    assert ActivityScore(t, Scaled(w, c), postId) == (c * w.likes) * l + (c * w.comments) * m + (c * w.bookmarks) * b;
    assert ActivityScore(t, w, postId) == w.likes * l + w.comments * m + w.bookmarks * b;
    ScaleSum(c, w.likes, w.comments, w.bookmarks, l, m, b);
  }

  lemma ScaleSum(c: int, x: int, y: int, z: int, l: int, m: int, b: int)
    ensures (c * x) * l + (c * y) * m + (c * z) * b == c * (x * l + y * m + z * b)
  {
    assert (c * x) * l == c * (x * l);
    assert (c * y) * m == c * (y * m);
    assert (c * z) * b == c * (z * b);
    assert c * (x * l + y * m + z * b) == c * (x * l) + c * (y * m) + c * (z * b);
  }

  lemma ScaleKeepsRank(a: int, b: int, c: nat, x: int, y: int)
    requires c > 0
    ensures RanksBefore((c * a, x), (c * b, y)) <==> RanksBefore((a, x), (b, y))
  {
    if a > b {
      MulMonotone(b + 1, a, c);
    } else if a < b {
      MulMonotone(a + 1, b, c);
    }
  }

  /** Multiplying every weight by the same positive factor (0.7, 0.8, 0.5
      into 7, 8, 5) does not change the order of any set of feed rows. */
  lemma ScaledWeightsSameOrder(t: Tables, w: Weights, c: nat, rows: seq<PostRow>)
    requires c > 0
    ensures SortDesc(rows, FeedKey(t, Scaled(w, c))) == SortDesc(rows, FeedKey(t, w))
  {
    forall x, y | x in rows && y in rows
      ensures RanksBefore(FeedKey(t, Scaled(w, c))(x), FeedKey(t, Scaled(w, c))(y))
          <==> RanksBefore(FeedKey(t, w)(x), FeedKey(t, w)(y))
    {
      ScoreScales(t, w, c, x.0.id);
      ScoreScales(t, w, c, y.0.id);
      ScaleKeepsRank(ActivityScore(t, w, x.0.id), ActivityScore(t, w, y.0.id), c, x.0.createdAt, y.0.createdAt);
    }
    SortDescSameOrder(rows, FeedKey(t, Scaled(w, c)), FeedKey(t, w));
  }

  // ---------------------------------------------------------------------
  // Visibility and the feeds

  /** `follower` has a follow edge to `following`. */
  predicate Follows(follows: seq<Follow>, follower: int, following: int)
  {
    exists f :: f in follows && f.followerId == follower && f.followingId == following
  }

  /** The viewer may see the target's content: the target is public, or the
      viewer follows the target, or the viewer is the target. */
  predicate CanView(follows: seq<Follow>, viewerId: int, target: User)
  {
    target.isPublic || Follows(follows, viewerId, target.id) || viewerId == target.id
  }

  function InUserFeed(follows: seq<Follow>, viewerId: int): PostRow -> bool
  {
    (row: PostRow) => row.0.parentPostId.None? && CanView(follows, viewerId, row.1)
  }

  function InPublicFeed(row: PostRow): bool
  {
    row.0.parentPostId.None? && row.1.isPublic
  }

  /** The rows the authenticated feed ranks: top-level posts whose author
      the viewer may see. */
  function UserFeedRows(t: Tables, viewerId: int): (r: seq<PostRow>)
    ensures forall row :: row in r <==>
      row.0 in t.posts && row.1 in t.users && row.1.id == row.0.userId
      && row.0.parentPostId.None? && CanView(t.follows, viewerId, row.1)
  {
    Filter(PostsWithAuthors(t), InUserFeed(t.follows, viewerId))
  }

  /** The rows the public feed ranks: top-level posts of public authors. */
  function PublicFeedRows(t: Tables): (r: seq<PostRow>)
    ensures forall row :: row in r <==>
      row.0 in t.posts && row.1 in t.users && row.1.id == row.0.userId
      && row.0.parentPostId.None? && row.1.isPublic
  {
    Filter(PostsWithAuthors(t), InPublicFeed)
  }

  /** `GetUserPostFeed`: one page of the viewer's feed in activity order. */
  function UserPostFeed(t: Tables, w: Weights, viewerId: int, skip: int, limit: int): (r: Result<seq<PostRow>>)
    ensures r.Ok? <==> skip >= 0 && limit >= 0
    ensures r.Ok? ==> |r.value| <= limit && SortedDesc(r.value, FeedKey(t, w))
    ensures r.Ok? ==> forall row :: row in r.value ==> row in UserFeedRows(t, viewerId)
  {
    if skip >= 0 && limit >= 0 then
      RankedPage(UserFeedRows(t, viewerId), FeedKey(t, w), skip, limit);
      SqlPage(SortDesc(UserFeedRows(t, viewerId), FeedKey(t, w)), skip, limit)
    else
      SqlPage([], skip, limit)
  }

  /** `GetUserPostFeedCount`. */
  function UserPostFeedCount(t: Tables, viewerId: int): nat
  {
    |UserFeedRows(t, viewerId)|
  }

  /** `GetPublicPosts`: one page of the public feed in activity order. */
  function PublicPosts(t: Tables, w: Weights, skip: int, limit: int): (r: Result<seq<PostRow>>)
    ensures r.Ok? <==> skip >= 0 && limit >= 0
    ensures r.Ok? ==> |r.value| <= limit && SortedDesc(r.value, FeedKey(t, w))
    ensures r.Ok? ==> forall row :: row in r.value ==> row in PublicFeedRows(t)
  {
    if skip >= 0 && limit >= 0 then
      RankedPage(PublicFeedRows(t), FeedKey(t, w), skip, limit);
      SqlPage(SortDesc(PublicFeedRows(t), FeedKey(t, w)), skip, limit)
    else
      SqlPage([], skip, limit)
  }

  /** `GetPublicPostsCount`. */
  function PublicPostsCount(t: Tables): nat
  {
    |PublicFeedRows(t)|
  }

  /** A feed page is exactly the positions [skip, skip + limit) of the
      ranked eligible rows. */
  lemma UserFeedIsSlice(t: Tables, w: Weights, viewerId: int, skip: int, limit: int)
    requires skip >= 0 && limit >= 0
    ensures var all := SortDesc(UserFeedRows(t, viewerId), FeedKey(t, w));
      var r := UserPostFeed(t, w, viewerId, skip, limit).value;
      |r| == (if skip >= |all| then 0 else Min(limit, |all| - skip))
      && forall k :: 0 <= k < |r| ==> r[k] == all[skip + k]
  {
  }

  /** Every eligible post of the viewer's feed is on some page from 1 to the
      page count the handler computes from `GetUserPostFeedCount`, and the
      pages after it are empty. */
  lemma UserFeedPagesCover(t: Tables, w: Weights, viewerId: int, row: PostRow, limit: int)
    requires limit > 0 && row in UserFeedRows(t, viewerId)
    ensures exists page :: (1 <= page <= NoOfPages(UserPostFeedCount(t, viewerId), limit)
      && UserPostFeed(t, w, viewerId, Skip(page, limit), limit).Ok?
      && row in UserPostFeed(t, w, viewerId, Skip(page, limit), limit).value)
  {
    RankedPagesCover(UserFeedRows(t, viewerId), FeedKey(t, w), row, limit);
  }

  lemma UserFeedPagesEnd(t: Tables, w: Weights, viewerId: int, page: int, limit: int)
    requires limit > 0 && page >= 1
    ensures UserPostFeed(t, w, viewerId, Skip(page, limit), limit).Ok?
    ensures UserPostFeed(t, w, viewerId, Skip(page, limit), limit).value == []
      <==> page > NoOfPages(UserPostFeedCount(t, viewerId), limit)
  {
    RankedPagesEnd(UserFeedRows(t, viewerId), FeedKey(t, w), page, limit);
  }

  lemma PublicPagesCover(t: Tables, w: Weights, row: PostRow, limit: int)
    requires limit > 0 && row in PublicFeedRows(t)
    ensures exists page :: (1 <= page <= NoOfPages(PublicPostsCount(t), limit)
      && PublicPosts(t, w, Skip(page, limit), limit).Ok?
      && row in PublicPosts(t, w, Skip(page, limit), limit).value)
  {
    RankedPagesCover(PublicFeedRows(t), FeedKey(t, w), row, limit);
  }

  lemma PublicPagesEnd(t: Tables, w: Weights, page: int, limit: int)
    requires limit > 0 && page >= 1
    ensures PublicPosts(t, w, Skip(page, limit), limit).Ok?
    ensures PublicPosts(t, w, Skip(page, limit), limit).value == []
      <==> page > NoOfPages(PublicPostsCount(t), limit)
  {
    RankedPagesEnd(PublicFeedRows(t), FeedKey(t, w), page, limit);
  }

  /** Every public post is in every viewer's feed, so the public count never
      exceeds a viewer's feed count. */
  lemma PublicFeedWithinUserFeed(t: Tables, viewerId: int)
    ensures forall row :: row in PublicFeedRows(t) ==> row in UserFeedRows(t, viewerId)
    ensures PublicPostsCount(t) <= UserPostFeedCount(t, viewerId)
  {
    FilterMonotone(PostsWithAuthors(t), InPublicFeed, InUserFeed(t.follows, viewerId));
  }

  /** A private author's posts reach exactly the author and their
      followers. */
  lemma PrivatePostsReachFollowersOnly(t: Tables, viewerId: int, row: PostRow)
    requires row in PostsWithAuthors(t) && row.0.parentPostId.None? && !row.1.isPublic
    ensures row in UserFeedRows(t, viewerId) <==> Follows(t.follows, viewerId, row.1.id) || viewerId == row.1.id
  {
  }

  // ---------------------------------------------------------------------
  // Per-user and per-post listings

  function TopLevelBy(userId: int): Post -> bool
  {
    (p: Post) => p.parentPostId.None? && p.userId == userId
  }

  /** The rows `GetPostsByUserId` orders: the user's top-level posts. */
  function UserPostsRows(t: Tables, userId: int): (r: seq<PostRow>)
    ensures forall row :: row in r <==>
      row.0 in t.posts && row.1 in t.users && row.1.id == row.0.userId
      && row.0.parentPostId.None? && row.0.userId == userId
  {
    Filter(PostsWithAuthors(t), OnLeft(TopLevelBy(userId)))
  }

  /** `GetPostsByUserId`: a page of the user's top-level posts, newest first. */
  function PostsByUserId(t: Tables, userId: int, skip: int, limit: int): (r: Result<seq<PostRow>>)
    ensures r.Ok? <==> skip >= 0 && limit >= 0
    ensures r.Ok? ==> |r.value| <= limit && SortedDesc(r.value, NewestPostFirst)
    ensures r.Ok? ==> forall row :: row in r.value ==> row in UserPostsRows(t, userId)
  {
    if skip >= 0 && limit >= 0 then
      RankedPage(UserPostsRows(t, userId), NewestPostFirst, skip, limit);
      SqlPage(SortDesc(UserPostsRows(t, userId), NewestPostFirst), skip, limit)
    else
      SqlPage([], skip, limit)
  }

  /** `GetPostsCountByUser`: counted on the posts table alone. */
  function PostsCountByUser(t: Tables, userId: int): nat
  {
    |Filter(t.posts, TopLevelBy(userId))|
  }

  /** The count has no join, yet it counts the listing's rows once the user
      exists (the handlers look the user up first). */
  lemma PostsCountByUserMatches(t: Tables, userId: int)
    requires UniqueBy(t.users, UserKey) && HasKey(t.users, UserKey, userId)
    ensures PostsCountByUser(t, userId) == |UserPostsRows(t, userId)|
  {
    JoinOnExact(t.posts, t.users, PostAuthor, UserKey, TopLevelBy(userId));
  }

  /** The rows `GetPostComments` orders: the post's direct children. */
  function CommentRows(t: Tables, postId: int): (r: seq<PostRow>)
    ensures forall row :: row in r <==>
      row.0 in t.posts && row.1 in t.users && row.1.id == row.0.userId
      && row.0.parentPostId == Some(postId)
  {
    Filter(PostsWithAuthors(t), OnLeft(CommentsOf(postId)))
  }

  /** `GetPostComments`: a page of direct replies, newest first. */
  function PostComments(t: Tables, postId: int, skip: int, limit: int): (r: Result<seq<PostRow>>)
    ensures r.Ok? <==> skip >= 0 && limit >= 0
    ensures r.Ok? ==> |r.value| <= limit && SortedDesc(r.value, NewestPostFirst)
    ensures r.Ok? ==> forall row :: row in r.value ==> row in CommentRows(t, postId)
  {
    if skip >= 0 && limit >= 0 then
      RankedPage(CommentRows(t, postId), NewestPostFirst, skip, limit);
      SqlPage(SortDesc(CommentRows(t, postId), NewestPostFirst), skip, limit)
    else
      SqlPage([], skip, limit)
  }

  /** `GetPostCommentsCount`. */
  function PostCommentsCount(t: Tables, postId: int): nat
  {
    |Filter(t.posts, CommentsOf(postId))|
  }

  /** With every author present, the comment count is the listing's size; it
      is also the comments count shown on the post. */
  lemma PostCommentsCountMatches(t: Tables, postId: int)
    requires UniqueBy(t.users, UserKey) && AuthorsExist(t) && UniqueBy(t.posts, PostKey)
    ensures PostCommentsCount(t, postId) == |CommentRows(t, postId)|
    ensures PostCommentsCount(t, postId) == CommentsCount(t, postId)
  {
    JoinOnExact(t.posts, t.users, PostAuthor, UserKey, CommentsOf(postId));
    CommentsCountIsRowCount(t, postId);
  }

  // ---------------------------------------------------------------------
  // Post metadata

  datatype PostWithMetaData = PostWithMetaData(
    post: Post, user: User, images: seq<PostImage>,
    likesCount: nat, commentsCount: nat, bookmarksCount: nat)

  function ImagesOf(postId: int): PostImage -> bool { (i: PostImage) => i.postId == postId }

  /** A ranked row with its images (`SELECT ... FROM post_images WHERE
      post_id=$1`) and its three engagement counts.  The author columns of
      the feed and list joins leave out `is_active`. */
  function WithMetaData(t: Tables, row: PostRow): (m: PostWithMetaData)
    ensures m.post == row.0 && m.user == Projected(row.1)
    ensures forall i :: i in m.images <==> i in t.postImages && i.postId == row.0.id
    ensures m.likesCount == LikesCount(t, row.0.id)
    ensures m.commentsCount == CommentsCount(t, row.0.id)
    ensures m.bookmarksCount == BookmarksCount(t, row.0.id)
  {
    PostWithMetaData(row.0, Projected(row.1), Filter(t.postImages, ImagesOf(row.0.id)),
      LikesCount(t, row.0.id), CommentsCount(t, row.0.id), BookmarksCount(t, row.0.id))
  }

  // ---------------------------------------------------------------------
  // Followers and followings

  function EdgesTo(userId: int): Follow -> bool { (f: Follow) => f.followingId == userId }
  function EdgesFrom(userId: int): Follow -> bool { (f: Follow) => f.followerId == userId }
  function NewestEdgeFirst(f: Follow): Pair { (f.followedAt, 0) }

  /** The users whose id is one of `ids`, in table order (`WHERE id IN (...)`
      with no ORDER BY). */
  function UsersIn(users: seq<User>, ids: set<int>): (r: seq<User>)
    ensures forall u :: u in r <==> u in users && u.id in ids
  {
    Filter(users, (u: User) => u.id in ids)
  }

  /** `GetFollowers`: the users at positions [skip, skip + limit) of the
      edges into `userId`, newest edge first. */
  function Followers(t: Tables, userId: int, skip: int, limit: int): (r: Result<seq<User>>)
    ensures r.Ok? <==> skip >= 0 && limit >= 0
    ensures r.Ok? ==> forall u :: u in r.value ==> u in t.users && Follows(t.follows, u.id, userId)
  {
    match SqlPage(SortDesc(Filter(t.follows, EdgesTo(userId)), NewestEdgeFirst), skip, limit)
    case Err(m) => Err(m)
    case Ok(page) =>
      RankedPage(Filter(t.follows, EdgesTo(userId)), NewestEdgeFirst, skip, limit);
      Ok(UsersIn(t.users, set f | f in page :: f.followerId))
  }

  /** `GetFollowersCount`: the number of edges into `userId`. */
  function FollowersCount(t: Tables, userId: int): nat
  {
    |Filter(t.follows, EdgesTo(userId))|
  }

  /** `GetFollowings`: the users at positions [skip, skip + limit) of the
      edges out of `userId`, newest edge first. */
  function Followings(t: Tables, userId: int, skip: int, limit: int): (r: Result<seq<User>>)
    ensures r.Ok? <==> skip >= 0 && limit >= 0
    ensures r.Ok? ==> forall u :: u in r.value ==> u in t.users && Follows(t.follows, userId, u.id)
  {
    match SqlPage(SortDesc(Filter(t.follows, EdgesFrom(userId)), NewestEdgeFirst), skip, limit)
    case Err(m) => Err(m)
    case Ok(page) =>
      RankedPage(Filter(t.follows, EdgesFrom(userId)), NewestEdgeFirst, skip, limit);
      Ok(UsersIn(t.users, set f | f in page :: f.followingId))
  }

  /** `GetFollowingsCount`: the number of edges out of `userId`. */
  function FollowingsCount(t: Tables, userId: int): nat
  {
    |Filter(t.follows, EdgesFrom(userId))|
  }

  /** The follower listing misses no one: the follower of every edge at a
      position on the page is returned when that user exists. */
  lemma FollowersPageComplete(t: Tables, userId: int, skip: int, limit: int, k: int, u: User)
    requires skip >= 0 && limit >= 0
    requires var edges := SortDesc(Filter(t.follows, EdgesTo(userId)), NewestEdgeFirst);
      0 <= k < limit && skip + k < |edges| && u in t.users && u.id == edges[skip + k].followerId
    ensures u in Followers(t, userId, skip, limit).value
  {
    var edges := SortDesc(Filter(t.follows, EdgesTo(userId)), NewestEdgeFirst);
    var page := SqlPage(edges, skip, limit).value;
    assert page[k] == edges[skip + k];
  }

  lemma FollowingsPageComplete(t: Tables, userId: int, skip: int, limit: int, k: int, u: User)
    requires skip >= 0 && limit >= 0
    requires var edges := SortDesc(Filter(t.follows, EdgesFrom(userId)), NewestEdgeFirst);
      0 <= k < limit && skip + k < |edges| && u in t.users && u.id == edges[skip + k].followingId
    ensures u in Followings(t, userId, skip, limit).value
  {
    var edges := SortDesc(Filter(t.follows, EdgesFrom(userId)), NewestEdgeFirst);
    var page := SqlPage(edges, skip, limit).value;
    assert page[k] == edges[skip + k];
  }

  /** With one edge per pair, a user's follower count is the number of
      distinct followers. */
  lemma FollowersCountDistinct(t: Tables, userId: int)
    requires UniqueBy(t.follows, FollowKey)
    ensures FollowersCount(t, userId) == |Values(t.follows, EdgesTo(userId), (f: Follow) => f.followerId)|
  {
    DistinctCount(t.follows, EdgesTo(userId), (f: Follow) => f.followerId);
  }

  // ---------------------------------------------------------------------
  // User search

  /** An ILIKE pattern: the exact text, or the text anywhere (`%text%`). */
  datatype Pattern = Exactly(text: string) | Containing(text: string)

  /** `s ILIKE pattern`, case-insensitive on ASCII letters. */
  predicate ILike(s: string, pat: Pattern)
  {
    match pat
    case Exactly(text) => ToLower(s) == ToLower(text)
    case Containing(text) => ContainsSub(ToLower(s), ToLower(text))
  }

  /** The search handler's pattern: "" for an empty text, `%text%` otherwise. */
  function SearchPattern(text: string): (pat: Pattern)
    ensures text == "" ==> pat == Exactly("")
    ensures text != "" ==> pat == Containing(text)
  {
    if text == "" then Exactly("") else Containing(text)
  }

  function SearchHit(text: string): User -> bool
  {
    (u: User) => u.isActive && ILike(u.username, SearchPattern(text))
  }

  /** `ORDER BY followers_count DESC, u.created_at DESC`. */
  function SearchKey(t: Tables): User -> Pair
  {
    (u: User) => (FollowersCount(t, u.id), u.createdAt)
  }

  /** `GetUsersBySearchText`: a page of the matching active users, most
      followed first. */
  function UsersBySearchText(t: Tables, text: string, skip: int, limit: int): (r: Result<seq<User>>)
    ensures r.Ok? <==> skip >= 0 && limit >= 0
    ensures r.Ok? ==> |r.value| <= limit && SortedDesc(r.value, SearchKey(t))
    ensures r.Ok? ==> forall u :: u in r.value ==> u in t.users && u.isActive && ILike(u.username, SearchPattern(text))
  {
    var hits := Filter(t.users, SearchHit(text));
    if skip >= 0 && limit >= 0 then
      RankedPage(hits, SearchKey(t), skip, limit);
      SqlPage(SortDesc(hits, SearchKey(t)), skip, limit)
    else
      SqlPage([], skip, limit)
  }

  /** `GetUsersBySearchTextCount`: always `%text%`, active or not. */
  function UsersBySearchTextCount(t: Tables, text: string): nat
  {
    |Filter(t.users, (u: User) => ILike(u.username, Containing(text)))|
  }

  /** An empty search matches only users whose username is empty ... */
  lemma EmptySearchMatchesEmptyUsernames(t: Tables, skip: int, limit: int)
    requires skip >= 0 && limit >= 0
    ensures forall u :: u in UsersBySearchText(t, "", skip, limit).value ==> u.username == ""
  {
  }

  /** ... while its count counts every user. */
  lemma EmptySearchCountsEveryone(t: Tables)
    ensures UsersBySearchTextCount(t, "") == |t.users|
  {
    forall u | u in t.users ensures ILike(u.username, Containing("")) {
      assert OccursAt(ToLower(u.username), ToLower(""), 0);
    }
    FilterAllMatch(t.users, (u: User) => ILike(u.username, Containing("")));
  }

  /** For a non-empty text every listed user is counted. */
  lemma SearchWithinCount(t: Tables, text: string)
    requires text != ""
    ensures |Filter(t.users, SearchHit(text))| <= UsersBySearchTextCount(t, text)
  {
    FilterMonotone(t.users, SearchHit(text), (u: User) => ILike(u.username, Containing(text)));
  }

  // ---------------------------------------------------------------------
  // Notifications

  function AddressedTo(userId: int): Notification -> bool { (n: Notification) => n.userId == userId }
  function NewestNotificationFirst(row: NotificationRow): Pair { (row.0.createdAt, 0) }

  /** The recipient's notifications joined with their actors' rows. */
  function AddressedWithActors(t: Tables, userId: int): seq<NotificationRow>
  {
    Filter(JoinOn(t.notifications, t.users, NotificationActor, UserKey), OnLeft(AddressedTo(userId)))
  }

  /** The scan of each joined row: the actor columns leave out `is_active`. */
  function ScanActors(rows: seq<NotificationRow>): (r: seq<NotificationRow>)
    ensures |r| == |rows|
    ensures forall k :: 0 <= k < |rows| ==> r[k] == (rows[k].0, Projected(rows[k].1))
  {
    seq(|rows|, k requires 0 <= k < |rows| => (rows[k].0, Projected(rows[k].1)))
  }

  /** The rows `GetNotificationsByUserId` orders: the recipient's
      notifications, each with its actor as the join's column list reads it. */
  function NotificationRows(t: Tables, userId: int): (r: seq<NotificationRow>)
    ensures forall row :: row in r <==>
      row.0 in t.notifications && row.0.userId == userId
      && exists u :: u in t.users && u.id == row.0.actorId && row.1 == Projected(u)
  {
    ScannedActorsMembers(t, userId);
    ScanActors(AddressedWithActors(t, userId))
  }

  lemma ScannedActorsMembers(t: Tables, userId: int)
    ensures forall row :: row in ScanActors(AddressedWithActors(t, userId)) <==>
      row.0 in t.notifications && row.0.userId == userId
      && exists u :: u in t.users && u.id == row.0.actorId && row.1 == Projected(u)
  {
    var joined := AddressedWithActors(t, userId);
    var r := ScanActors(joined);
    forall row: NotificationRow | row in r
      ensures row.0 in t.notifications && row.0.userId == userId
      ensures exists u :: u in t.users && u.id == row.0.actorId && row.1 == Projected(u)
    {
      var k :| 0 <= k < |r| && r[k] == row;
      assert joined[k] in joined;
    }
    forall row: NotificationRow | row.0 in t.notifications && row.0.userId == userId
                 && exists u :: u in t.users && u.id == row.0.actorId && row.1 == Projected(u)
      ensures row in r
    {
      var u :| u in t.users && u.id == row.0.actorId && row.1 == Projected(u);
      assert (row.0, u) in joined;
      var k :| 0 <= k < |joined| && joined[k] == (row.0, u);
      assert r[k] == row;
    }
  }

  /** `GetNotificationsByUserId`: a page of the recipient's notifications,
      newest first. */
  function NotificationsByUserId(t: Tables, userId: int, skip: int, limit: int): (r: Result<seq<NotificationRow>>)
    ensures r.Ok? <==> skip >= 0 && limit >= 0
    ensures r.Ok? ==> |r.value| <= limit && SortedDesc(r.value, NewestNotificationFirst)
    ensures r.Ok? ==> forall row :: row in r.value ==> row in NotificationRows(t, userId)
  {
    if skip >= 0 && limit >= 0 then
      RankedPage(NotificationRows(t, userId), NewestNotificationFirst, skip, limit);
      SqlPage(SortDesc(NotificationRows(t, userId), NewestNotificationFirst), skip, limit)
    else
      SqlPage([], skip, limit)
  }

  /** `GetNotificationsByUserIdCount`: counted without the join. */
  function NotificationsCount(t: Tables, userId: int): nat
  {
    |Filter(t.notifications, AddressedTo(userId))|
  }

  /** The count bounds the listing, and equals it when every actor exists. */
  lemma NotificationsCountMatches(t: Tables, userId: int)
    requires UniqueBy(t.users, UserKey)
    ensures |NotificationRows(t, userId)| <= NotificationsCount(t, userId)
    ensures ActorsExist(t) ==> |NotificationRows(t, userId)| == NotificationsCount(t, userId)
  {
    assert |NotificationRows(t, userId)| == |AddressedWithActors(t, userId)|;
    JoinOnAtMost(t.notifications, t.users, NotificationActor, UserKey, AddressedTo(userId));
    if ActorsExist(t) {
      JoinOnExact(t.notifications, t.users, NotificationActor, UserKey, AddressedTo(userId));
    }
  }

  /** The rows `GetNotificationsByActorIdAndPostId` and
      `UpdateNotificationByActorIdAndPostId` act on: actor, post and type,
      whoever the recipient is. */
  function NotificationMatch(actorId: int, postId: int, kind: NotificationType): Notification -> bool
  {
    (n: Notification) => n.actorId == actorId && n.postId == postId && n.kind == kind
  }
}
