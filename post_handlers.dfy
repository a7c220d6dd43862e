/** The post endpoints: the feeds, creating, commenting on and deleting
    posts, and the like and bookmark toggles with the notifications they
    send.  Each handler takes the id the authentication middleware put in
    the request context, the decoded request and the store; the JSON
    decoding and the parameter parsing before the first storage call are
    not modelled. */
module PostHandlers {
  import opened Wrappers
  import opened Rel
  import opened Ordering
  import opened Text
  import opened Schema
  import opened Queries
  import opened Storage
  import opened Replies

  /** The handlers' `maxRetries` for a notification. */
  const MaxNotificationRetries := 3

  /** Attempt `i` (counting from 0) of creating a notification fails.  The
      store's failures are an oracle: `failures[i]` says whether attempt `i`
      fails, and attempts past its end succeed. */
  predicate AttemptFails(failures: seq<bool>, i: int)
  {
    0 <= i < |failures| && failures[i]
  }

  /** The first attempt from `from` on, below `maxRetries`, that succeeds. */
  function FirstSuccessFrom(failures: seq<bool>, from: nat, maxRetries: int): (r: Option<nat>)
    ensures r.Some? ==> from <= r.value < maxRetries && !AttemptFails(failures, r.value)
    ensures r.Some? ==> forall j :: from <= j < r.value ==> AttemptFails(failures, j)
    ensures r.None? <==> forall j :: from <= j < maxRetries ==> AttemptFails(failures, j)
    decreases maxRetries - from
  {
    if from >= maxRetries then None
    else if !AttemptFails(failures, from) then Some(from)
    else FirstSuccessFrom(failures, from + 1, maxRetries)
  }

  /** The attempt that succeeds when at most `maxRetries` are made. */
  function FirstSuccess(failures: seq<bool>, maxRetries: int): (r: Option<nat>)
    ensures r.Some? ==> r.value < maxRetries && !AttemptFails(failures, r.value)
    ensures r.Some? ==> forall j :: 0 <= j < r.value ==> AttemptFails(failures, j)
    ensures r.None? <==> forall j :: 0 <= j < maxRetries ==> AttemptFails(failures, j)
  {
    FirstSuccessFrom(failures, 0, maxRetries)
  }

  /** With no retry allowed the notification is never sent. */
  lemma NoRetriesNeverSend(failures: seq<bool>, maxRetries: int)
    requires maxRetries <= 0
    ensures FirstSuccess(failures, maxRetries).None?
  {
  }

  /** `sendNotification`: tries to create the notification up to
      `maxRetries` times and stops at the first attempt that succeeds.  It
      returns whether one did, and the number of attempts made. */
  method SendNotification(s: Store, userId: int, actorId: int, kind: NotificationType, postId: int,
                          maxRetries: int, now: int, failures: seq<bool>)
    returns (ok: bool, attempts: nat)
    modifies s`notifications, s`nextNotificationId
    requires s.NotificationsValid()
    ensures s.NotificationsValid()
    ensures ok <==> FirstSuccess(failures, maxRetries).Some?
    ensures ok ==> attempts == FirstSuccess(failures, maxRetries).value + 1
    ensures !ok ==> attempts == if maxRetries < 0 then 0 else maxRetries
    ensures ok ==> s.nextNotificationId == old(s.nextNotificationId) + 1
    ensures ok ==> s.notifications == old(s.notifications) + [Notification(old(s.nextNotificationId), userId, kind, actorId, now, postId)]
    ensures !ok ==> s.notifications == old(s.notifications) && s.nextNotificationId == old(s.nextNotificationId)
  {
    ok := false;
    var i := 0;
    while i < maxRetries
      invariant 0 <= i && (maxRetries >= 0 ==> i <= maxRetries) && (maxRetries < 0 ==> i == 0)
      invariant forall j :: 0 <= j < i ==> AttemptFails(failures, j)
      invariant s.notifications == old(s.notifications) && s.nextNotificationId == old(s.nextNotificationId)
      invariant s.NotificationsValid()
    {
      var created := s.CreateNotification(userId, actorId, postId, kind, now, AttemptFails(failures, i));
      if created.Ok? {
        ok := true;
        break;
      }
      i := i + 1;
    }
    attempts := if ok then i + 1 else i;
  }

  /** Some notification of `kind` by `actorId` on `postId` exists. */
  predicate Notified(notifications: seq<Notification>, actorId: int, postId: int, kind: NotificationType)
  {
    exists n :: n in notifications && NotificationMatch(actorId, postId, kind)(n)
  }

  /** `GetPostsHandler`: the viewer's feed, page `page` of `limit` posts,
      with the number of pages. */
  method GetPostsHandler(s: Store, userId: int, page: int, limit: int) returns (r: Listing<PostWithMetaData>)
    requires limit != 0
    ensures s.GetUserById(userId).None? ==> r == Rejected(Reply(StatusBadRequest, "authenticated user not found"))
    ensures s.GetUserById(userId).Some? && (limit < 0 || GoSkip(page, limit) < 0) ==>
      r == Rejected(Reply(StatusInternalServerError, InternalServerError))
    ensures s.GetUserById(userId).Some? && limit > 0 && GoSkip(page, limit) >= 0 ==>
      var rows := UserPostFeed(s.Snapshot(), FeedWeights, userId, GoSkip(page, limit), limit).value;
      r.Listed? && r.noOfPages == NoOfPages(UserPostFeedCount(s.Snapshot(), userId), limit)
      && |r.items| == |rows| && forall k :: 0 <= k < |rows| ==> r.items[k] == WithMetaData(s.Snapshot(), rows[k])
  {
    var user := s.GetUserById(userId);
    if user.None? {
      r := Rejected(Reply(StatusBadRequest, "authenticated user not found"));
      return;
    }
    var skip := GoSkip(page, limit);
    var posts := s.GetUserPostFeed(skip, limit, user.value.id, FeedWeights);
    if posts.Err? {
      r := Rejected(Reply(StatusInternalServerError, InternalServerError));
      return;
    }
    var total := UserPostFeedCount(s.Snapshot(), user.value.id);
    r := Listed(posts.value, NoOfPages(total, limit));
  }

  /** `GetPublicPostsHandler`: page `page` of the public posts, with the
      number of pages. */
  method GetPublicPostsHandler(s: Store, page: int, limit: int) returns (r: Listing<PostWithMetaData>)
    requires limit != 0
    ensures limit < 0 || GoSkip(page, limit) < 0 ==> r == Rejected(Reply(StatusInternalServerError, InternalServerError))
    ensures limit > 0 && GoSkip(page, limit) >= 0 ==>
      var rows := PublicPosts(s.Snapshot(), FeedWeights, GoSkip(page, limit), limit).value;
      r.Listed? && r.noOfPages == NoOfPages(PublicPostsCount(s.Snapshot()), limit)
      && |r.items| == |rows| && forall k :: 0 <= k < |rows| ==> r.items[k] == WithMetaData(s.Snapshot(), rows[k])
  {
    var skip := GoSkip(page, limit);
    var posts := s.GetPublicPosts(skip, limit, FeedWeights);
    if posts.Err? {
      r := Rejected(Reply(StatusInternalServerError, InternalServerError));
      return;
    }
    r := Listed(posts.value, NoOfPages(PublicPostsCount(s.Snapshot()), limit));
  }

  /** `CreatePostHandler`: a top-level post with the trimmed content, and an
      image row per url when there are urls. */
  method CreatePostHandler(s: Store, userId: int, content: string, urls: seq<string>, now: int) returns (reply: Reply)
    modifies s`posts, s`postImages, s`nextPostId, s`nextImageId
    requires s.PostsValid() && s.ImagesValid()
    ensures s.PostsValid() && s.ImagesValid()
    ensures s.GetUserById(userId).None? ==> reply == Reply(StatusBadRequest, "authenticated user not found")
    ensures s.GetUserById(userId).Some? && TrimSpace(content) == "" ==>
      reply == Reply(StatusBadRequest, "post content is required")
    ensures s.GetUserById(userId).None? || TrimSpace(content) == "" ==>
      s.posts == old(s.posts) && s.postImages == old(s.postImages)
      && s.nextPostId == old(s.nextPostId) && s.nextImageId == old(s.nextImageId)
    ensures s.GetUserById(userId).Some? && TrimSpace(content) != "" ==>
      reply == Reply(StatusCreated, "created post successfully")
      && s.posts == old(s.posts) + [Post(old(s.nextPostId), TrimSpace(content), userId, None, now)]
      && s.postImages == old(s.postImages) + ImageRows(urls, old(s.nextImageId), old(s.nextPostId))
  {
    var user := s.GetUserById(userId);
    if user.None? {
      reply := Reply(StatusBadRequest, "authenticated user not found");
      return;
    }
    assert user.value.id == userId;
    reply := PublishPost(s, userId, content, urls, now);
  }

  /** `CreatePostHandler` once the author is known: the trimmed content
      must not be empty. */
  method PublishPost(s: Store, userId: int, content: string, urls: seq<string>, now: int) returns (reply: Reply)
    modifies s`posts, s`postImages, s`nextPostId, s`nextImageId
    requires s.PostsValid() && s.ImagesValid() && s.GetUserById(userId).Some?
    ensures s.PostsValid() && s.ImagesValid()
    ensures TrimSpace(content) == "" ==>
      reply == Reply(StatusBadRequest, "post content is required")
      && s.posts == old(s.posts) && s.postImages == old(s.postImages)
      && s.nextPostId == old(s.nextPostId) && s.nextImageId == old(s.nextImageId)
    ensures TrimSpace(content) != "" ==>
      reply == Reply(StatusCreated, "created post successfully")
      && s.posts == old(s.posts) + [Post(old(s.nextPostId), TrimSpace(content), userId, None, now)]
      && s.postImages == old(s.postImages) + ImageRows(urls, old(s.nextImageId), old(s.nextPostId))
  {
    var postContent := TrimSpace(content);
    if postContent == "" {
      reply := Reply(StatusBadRequest, "post content is required");
      return;
    }
    StorePost(s, postContent, urls, userId, now);
    reply := Reply(StatusCreated, "created post successfully");
  }

  /** The insert `CreatePostHandler` picks: with images when URLs came,
      the plain insert otherwise.  Both succeed, the author being known. */
  method StorePost(s: Store, content: string, urls: seq<string>, userId: int, now: int)
    modifies s`posts, s`postImages, s`nextPostId, s`nextImageId
    requires s.PostsValid() && s.ImagesValid() && s.GetUserById(userId).Some?
    ensures s.PostsValid() && s.ImagesValid()
    ensures s.posts == old(s.posts) + [Post(old(s.nextPostId), content, userId, None, now)]
    ensures s.postImages == old(s.postImages) + ImageRows(urls, old(s.nextImageId), old(s.nextPostId))
  {
    if |urls| != 0 {
      var created := s.CreatePostWithImages(content, urls, userId, None, now);
      assert created.Ok?;
    } else {
      var created := s.CreatePost(content, userId, now);
      assert created.Ok?;
      assert ImageRows(urls, old(s.nextImageId), old(s.nextPostId)) == [];
    }
  }

  /** Who is told about a comment on `parent`: its owner for a comment
      without images, but the parent post's id for a comment with images,
      as the handler passes `parentPost.Id` as the recipient there. */
  function CommentRecipient(parent: Post, urls: seq<string>): (recipient: int)
    ensures |urls| == 0 ==> recipient == parent.userId
    ensures |urls| != 0 ==> recipient == parent.id
  {
    if |urls| != 0 then parent.id else parent.userId
  }

  /** `CreateChildPostHandler`: a comment on `parentPostId`, and a comment
      notification for the parent's owner when that is someone else. */
  method CreateChildPostHandler(s: Store, userId: int, parentPostId: int, content: string, urls: seq<string>,
                                now: int, failures: seq<bool>)
    returns (reply: Reply)
    modifies s`posts, s`postImages, s`nextPostId, s`nextImageId, s`notifications, s`nextNotificationId
    requires s.PostsValid() && s.ImagesValid() && s.NotificationsValid()
    ensures s.PostsValid() && s.ImagesValid() && s.NotificationsValid()
    ensures s.GetUserById(userId).None? ==> reply == Reply(StatusBadRequest, "authenticated user not found")
    ensures s.GetUserById(userId).Some? && old(s.GetPostById(parentPostId)).None? ==>
      reply == Reply(StatusBadRequest, "parent post not found")
    ensures s.GetUserById(userId).Some? && old(s.GetPostById(parentPostId)).Some? && TrimSpace(content) == "" ==>
      reply == Reply(StatusBadRequest, "post content is required")
    ensures s.GetUserById(userId).None? || old(s.GetPostById(parentPostId)).None? || TrimSpace(content) == "" ==>
      s.posts == old(s.posts) && s.postImages == old(s.postImages)
      && s.nextPostId == old(s.nextPostId) && s.nextImageId == old(s.nextImageId)
      && s.notifications == old(s.notifications) && s.nextNotificationId == old(s.nextNotificationId)
    ensures s.GetUserById(userId).Some? && old(s.GetPostById(parentPostId)).Some? && TrimSpace(content) != "" ==>
      var parent := old(s.GetPostById(parentPostId)).value;
      s.posts == old(s.posts) + [Post(old(s.nextPostId), TrimSpace(content), userId, Some(parentPostId), now)]
      && s.postImages == old(s.postImages) + ImageRows(urls, old(s.nextImageId), old(s.nextPostId))
      && (parent.userId == userId ==>
            reply == Reply(StatusCreated, "post created successfully")
            && s.notifications == old(s.notifications) && s.nextNotificationId == old(s.nextNotificationId))
      && (parent.userId != userId ==>
            (reply == Reply(StatusCreated, "post created successfully") <==> FirstSuccess(failures, MaxNotificationRetries).Some?)
            && (reply.status == StatusCreated ==>
                  s.notifications == old(s.notifications)
                    + [Notification(old(s.nextNotificationId), CommentRecipient(parent, urls), CommentNotification, userId, now, parentPostId)])
            && (reply.status != StatusCreated ==>
                  reply == Reply(StatusInternalServerError, InternalServerError) && s.notifications == old(s.notifications)))
  {
    var user := s.GetUserById(userId);
    if user.None? {
      reply := Reply(StatusBadRequest, "authenticated user not found");
      return;
    }
    var parentPost := s.GetPostById(parentPostId);
    if parentPost.None? {
      reply := Reply(StatusBadRequest, "parent post not found");
      return;
    }
    var parentPostOwnerId := parentPost.value.userId;
    var postContent := TrimSpace(content);
    if postContent == "" {
      reply := Reply(StatusBadRequest, "post content is required");
      return;
    }
    var recipient;
    if |urls| != 0 {
      var created := s.CreatePostWithImages(postContent, urls, user.value.id, Some(parentPost.value.id), now);
      assert created.Ok?;
      recipient := parentPost.value.id;
    } else {
      var created := s.CreateChildPost(postContent, user.value.id, parentPost.value.id, now);
      assert created.Ok?;
      assert ImageRows(urls, old(s.nextImageId), old(s.nextPostId)) == [];
      recipient := parentPostOwnerId;
    }
    if parentPostOwnerId != user.value.id {
      var ok, _ := SendNotification(s, recipient, user.value.id, CommentNotification, parentPost.value.id,
                                    MaxNotificationRetries, now, failures);
      if !ok {
        reply := Reply(StatusInternalServerError, InternalServerError);
        return;
      }
    }
    reply := Reply(StatusCreated, "post created successfully");
  }

  /** `DeletePostHandler`: only the author of a post may delete it. */
  method DeletePostHandler(s: Store, userId: int, postId: int) returns (reply: Reply)
    modifies s`posts
    requires s.PostsValid()
    ensures s.PostsValid()
    ensures s.GetUserById(userId).None? ==> reply == Reply(StatusBadRequest, "authenticated user not found")
    ensures s.GetUserById(userId).Some? && old(s.GetPostById(postId)).None? ==>
      reply == Reply(StatusBadRequest, "post not found")
    ensures s.GetUserById(userId).Some? && old(s.GetPostById(postId)).Some? && old(s.GetPostById(postId)).value.userId != userId ==>
      reply == Reply(StatusUnauthorized, "unauthorized to delete post")
    ensures reply.status == StatusOK <==>
      s.GetUserById(userId).Some? && old(s.GetPostById(postId)).Some? && old(s.GetPostById(postId)).value.userId == userId
    ensures reply.status == StatusOK ==>
      reply.message == "post deleted successfully" && s.posts == Filter(old(s.posts), KeyIsNot(PostKey, postId))
    ensures reply.status != StatusOK ==> s.posts == old(s.posts)
  {
    var user := s.GetUserById(userId);
    if user.None? {
      reply := Reply(StatusBadRequest, "authenticated user not found");
      return;
    }
    var post := s.GetPostById(postId);
    if post.None? {
      reply := Reply(StatusBadRequest, "post not found");
      return;
    }
    if post.value.userId != user.value.id {
      reply := Reply(StatusUnauthorized, "unauthorized to delete post");
      return;
    }
    var deleted := s.DeletePostById(post.value.id);
    assert deleted.Success?;
    reply := Reply(StatusOK, "post deleted successfully");
  }

  /** The notification step of a new like on someone else's post: the
      like notifications this actor already gave on the post get the time
      `now`, and when there are none a new one is sent to the owner. */
  method NotifyLike(s: Store, ownerId: int, actorId: int, postId: int, now: int, failures: seq<bool>) returns (ok: bool)
    modifies s`notifications, s`nextNotificationId
    requires s.NotificationsValid()
    ensures s.NotificationsValid()
    ensures Notified(old(s.notifications), actorId, postId, LikeNotification) ==>
      ok && s.notifications == Update(old(s.notifications), NotificationMatch(actorId, postId, LikeNotification), Touched(now))
    ensures Notified(old(s.notifications), actorId, postId, LikeNotification) ==> s.nextNotificationId == old(s.nextNotificationId)
    ensures !Notified(old(s.notifications), actorId, postId, LikeNotification) ==>
      (ok <==> FirstSuccess(failures, MaxNotificationRetries).Some?)
    ensures !Notified(old(s.notifications), actorId, postId, LikeNotification) && ok ==>
      s.notifications == old(s.notifications) + [Notification(old(s.nextNotificationId), ownerId, LikeNotification, actorId, now, postId)]
    ensures !ok ==> s.notifications == old(s.notifications) && s.nextNotificationId == old(s.nextNotificationId)
  {
    var existing := s.GetNotificationsByActorIdAndPostId(actorId, postId, LikeNotification);
    if |existing| != 0 {
      assert existing[0] in existing;
      var updated := s.UpdateNotificationByActorIdAndPostId(actorId, postId, LikeNotification, now);
      assert updated.Ok?;
      ok := true;
    } else {
      var attempts;
      ok, attempts := SendNotification(s, ownerId, actorId, LikeNotification, postId, MaxNotificationRetries, now, failures);
    }
  }

  /** `LikePostHandler`: likes the post when the user has not liked it and
      unlikes it otherwise.  A new like on someone else's post refreshes the
      time of the like notification the user already gave on that post, or
      sends a new one. */
  method LikePostHandler(s: Store, userId: int, postId: int, now: int, failures: seq<bool>) returns (reply: Reply)
    modifies s`likes, s`notifications, s`nextNotificationId
    requires s.LikesValid() && s.NotificationsValid()
    ensures s.LikesValid() && s.NotificationsValid()
    ensures s.GetUserById(userId).None? ==> reply == Reply(StatusBadRequest, "authenticated user not found")
    ensures s.GetUserById(userId).Some? && s.GetPostById(postId).None? ==> reply == Reply(StatusBadRequest, "post not found")
    ensures s.GetUserById(userId).None? || s.GetPostById(postId).None? ==>
      s.likes == old(s.likes) && s.notifications == old(s.notifications) && s.nextNotificationId == old(s.nextNotificationId)
    ensures s.GetUserById(userId).Some? && s.GetPostById(postId).Some? && old(s.GetLike(userId, postId)).Some? ==>
      reply == Reply(StatusOK, "unliked post")
      && s.likes == Filter(old(s.likes), KeyIsNot(LikeKey, (userId, postId)))
      && s.notifications == old(s.notifications) && s.nextNotificationId == old(s.nextNotificationId)
    ensures s.GetUserById(userId).Some? && s.GetPostById(postId).Some? && old(s.GetLike(userId, postId)).None? ==>
      var owner := s.GetPostById(postId).value.userId;
      s.likes == old(s.likes) + [Like(userId, postId, now)]
      && (owner == userId ==>
            reply == Reply(StatusCreated, "liked post")
            && s.notifications == old(s.notifications) && s.nextNotificationId == old(s.nextNotificationId))
      && (owner != userId && Notified(old(s.notifications), userId, postId, LikeNotification) ==>
            reply == Reply(StatusCreated, "liked post")
            && s.notifications == Update(old(s.notifications), NotificationMatch(userId, postId, LikeNotification), Touched(now))
            && s.nextNotificationId == old(s.nextNotificationId))
      && (owner != userId && !Notified(old(s.notifications), userId, postId, LikeNotification) ==>
            (reply == Reply(StatusCreated, "liked post") <==> FirstSuccess(failures, MaxNotificationRetries).Some?)
            && (reply == Reply(StatusCreated, "liked post") || reply == Reply(StatusInternalServerError, InternalServerError))
            && (reply.status == StatusCreated ==>
                  s.notifications == old(s.notifications) + [Notification(old(s.nextNotificationId), owner, LikeNotification, userId, now, postId)])
            && (reply.status != StatusCreated ==>
                  reply == Reply(StatusInternalServerError, InternalServerError) && s.notifications == old(s.notifications)))
  {
    var user := s.GetUserById(userId);
    if user.None? {
      reply := Reply(StatusBadRequest, "authenticated user not found");
      return;
    }
    var post := s.GetPostById(postId);
    if post.None? {
      reply := Reply(StatusBadRequest, "post not found");
      return;
    }
    var existingLike := s.GetLike(user.value.id, post.value.id);
    if existingLike.None? {
      var like := s.CreateLike(user.value.id, post.value.id, now);
      assert like.Ok?;
      var postOwnerId := post.value.userId;
      if postOwnerId != user.value.id {
        var ok := NotifyLike(s, postOwnerId, user.value.id, post.value.id, now, failures);
        if !ok {
          reply := Reply(StatusInternalServerError, InternalServerError);
          return;
        }
      }
      reply := Reply(StatusCreated, "liked post");
    } else {
      var removed := s.RemoveLike(existingLike.value.likedById, existingLike.value.likedPostId);
      assert removed.Success?;
      reply := Reply(StatusOK, "unliked post");
    }
  }

  /** `BookmarkPostHandler`: bookmarks the post when the user has not and
      removes the bookmark otherwise.  It writes only the bookmarks table. */
  method BookmarkPostHandler(s: Store, userId: int, postId: int, now: int) returns (reply: Reply)
    modifies s`bookmarks
    requires s.BookmarksValid()
    ensures s.BookmarksValid()
    ensures s.GetUserById(userId).None? ==> reply == Reply(StatusBadRequest, "authenticated user not found")
    ensures s.GetUserById(userId).Some? && s.GetPostById(postId).None? ==> reply == Reply(StatusBadRequest, "post not found")
    ensures s.GetUserById(userId).None? || s.GetPostById(postId).None? ==> s.bookmarks == old(s.bookmarks)
    ensures s.GetUserById(userId).Some? && s.GetPostById(postId).Some? && old(s.GetBookmark(userId, postId)).Some? ==>
      reply == Reply(StatusOK, "removed bookmark")
      && s.bookmarks == Filter(old(s.bookmarks), KeyIsNot(BookmarkKey, (userId, postId)))
    ensures s.GetUserById(userId).Some? && s.GetPostById(postId).Some? && old(s.GetBookmark(userId, postId)).None? ==>
      reply == Reply(StatusCreated, "bookmarked post")
      && s.bookmarks == old(s.bookmarks) + [Bookmark(userId, postId, now)]
  {
    var user := s.GetUserById(userId);
    if user.None? {
      reply := Reply(StatusBadRequest, "authenticated user not found");
      return;
    }
    var post := s.GetPostById(postId);
    if post.None? {
      reply := Reply(StatusBadRequest, "post not found");
      return;
    }
    var existingBookmark := s.GetBookmark(user.value.id, postId);
    if existingBookmark.None? {
      var bookmark := s.CreateBookmark(user.value.id, post.value.id, now);
      assert bookmark.Ok?;
      reply := Reply(StatusCreated, "bookmarked post");
    } else {
      var removed := s.RemoveBookmark(existingBookmark.value.bookmarkedById, existingBookmark.value.bookmarkedPostId);
      assert removed.Success?;
      reply := Reply(StatusOK, "removed bookmark");
    }
  }

  /** Liking a post and then liking it again leaves the likes table as it
      was: the first request inserts the like, the second finds it and
      deletes exactly it. */
  method LikeTwiceRestores(s: Store, userId: int, postId: int, now: int, later: int, failures: seq<bool>)
    returns (first: Reply, second: Reply)
    modifies s`likes, s`notifications, s`nextNotificationId
    requires s.LikesValid() && s.NotificationsValid()
    requires s.GetUserById(userId).Some? && s.GetPostById(postId).Some? && s.GetLike(userId, postId).None?
    ensures first == Reply(StatusCreated, "liked post") || first == Reply(StatusInternalServerError, InternalServerError)
    ensures second == Reply(StatusOK, "unliked post")
    ensures s.likes == old(s.likes)
  {
    var before := s.likes;
    first := LikePostHandler(s, userId, postId, now, failures);
    DeleteUndoesInsert(before, LikeKey, Like(userId, postId, now));
    second := LikePostHandler(s, userId, postId, later, failures);
  }

  /** Bookmarking a post and then bookmarking it again leaves the bookmarks
      table as it was. */
  method BookmarkTwiceRestores(s: Store, userId: int, postId: int, now: int, later: int)
    returns (first: Reply, second: Reply)
    modifies s`bookmarks
    requires s.BookmarksValid()
    requires s.GetUserById(userId).Some? && s.GetPostById(postId).Some? && s.GetBookmark(userId, postId).None?
    ensures first == Reply(StatusCreated, "bookmarked post")
    ensures second == Reply(StatusOK, "removed bookmark")
    ensures s.bookmarks == old(s.bookmarks)
  {
    var before := s.bookmarks;
    first := BookmarkPostHandler(s, userId, postId, now);
    assert s.bookmarks == before + [Bookmark(userId, postId, now)];
    DeleteUndoesInsert(before, BookmarkKey, Bookmark(userId, postId, now));
    assert s.GetBookmark(userId, postId).Some?;
    second := BookmarkPostHandler(s, userId, postId, later);
  }

  /** A refreshed like notification keeps its id, recipient, actor, post
      and type; only its time becomes `now`. */
  lemma RefreshKeepsNotification(notifications: seq<Notification>, actorId: int, postId: int, now: int, y: Notification)
    requires y in Update(notifications, NotificationMatch(actorId, postId, LikeNotification), Touched(now))
    ensures exists x :: (x in notifications
      && if NotificationMatch(actorId, postId, LikeNotification)(x) then y == x.(createdAt := now) else y == x)
  {
    UpdateRows(notifications, NotificationMatch(actorId, postId, LikeNotification), Touched(now), y);
  }
}
