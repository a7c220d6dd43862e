/** The user endpoints: follow requests, following and accepting requests,
    the visibility check in front of another user's lists, those lists, and
    the profile update. */
module UserHandlers {
  import opened Wrappers
  import opened Rel
  import opened Ordering
  import opened Text
  import opened Schema
  import opened Queries
  import opened Storage
  import opened Replies

  /** The checks before a follow request is sent or withdrawn, in the
      handler's order: the first that fails gives the reply's message. */
  function FollowRequestRejection(s: Store, userId: int, receiverId: int): (r: Option<string>)
    reads s`users, s`follows
    ensures s.GetUserById(userId).None? ==> r == Some("user not found")
    ensures s.GetUserById(userId).Some? && s.GetUserById(receiverId).None? ==> r == Some("request receiver user not found")
    ensures s.GetUserById(userId).Some? && s.GetUserById(receiverId).Some? && receiverId == userId ==>
      r == Some("user cannot send follow request to itself")
    ensures s.GetUserById(userId).Some? && s.GetUserById(receiverId).Some? && receiverId != userId
            && s.GetUserById(receiverId).value.isPublic ==>
      r == Some("request receiver is a public account , follow request not required")
    ensures r.None? <==>
      s.GetUserById(userId).Some? && s.GetUserById(receiverId).Some? && receiverId != userId
      && !s.GetUserById(receiverId).value.isPublic && !Follows(s.follows, userId, receiverId)
    ensures r == Some("already following this user") <==>
      s.GetUserById(userId).Some? && s.GetUserById(receiverId).Some? && receiverId != userId
      && !s.GetUserById(receiverId).value.isPublic && Follows(s.follows, userId, receiverId)
  {
    var user := s.GetUserById(userId);
    var receiver := s.GetUserById(receiverId);
    if user.None? then Some("user not found")
    else if receiver.None? then Some("request receiver user not found")
    else if receiver.value.id == user.value.id then Some("user cannot send follow request to itself")
    else if receiver.value.isPublic then Some("request receiver is a public account , follow request not required")
    else if s.GetFollow(user.value.id, receiver.value.id).Some? then Some("already following this user")
    else None
  }

  /** `FollowRequestHandler`: sends a follow request to a private account
      the user does not follow yet, or withdraws the one already sent.
      Both replies are 201. */
  method FollowRequestHandler(s: Store, userId: int, receiverId: int, now: int) returns (reply: Reply)
    modifies s`followRequests
    requires s.FollowRequestsValid()
    ensures s.FollowRequestsValid()
    ensures FollowRequestRejection(s, userId, receiverId).Some? ==>
      reply == Reply(StatusBadRequest, FollowRequestRejection(s, userId, receiverId).value)
      && s.followRequests == old(s.followRequests)
    ensures FollowRequestRejection(s, userId, receiverId).None? && old(s.GetFollowRequest(userId, receiverId)).None? ==>
      reply == Reply(StatusCreated, "sent follow request")
      && s.followRequests == old(s.followRequests) + [FollowRequest(userId, receiverId, now)]
    ensures FollowRequestRejection(s, userId, receiverId).None? && old(s.GetFollowRequest(userId, receiverId)).Some? ==>
      reply == Reply(StatusCreated, "removed follow request")
      && s.followRequests == Filter(old(s.followRequests), KeyIsNot(FollowRequestKey, (userId, receiverId)))
  {
    var rejection := FollowRequestRejection(s, userId, receiverId);
    if rejection.Some? {
      reply := Reply(StatusBadRequest, rejection.value);
      return;
    }
    var existing := s.GetFollowRequest(userId, receiverId);
    if existing.None? {
      var request := s.CreateFollowRequest(userId, receiverId, now);
      assert request.Ok?;
      reply := Reply(StatusCreated, "sent follow request");
    } else {
      var removed := s.RemoveFollowRequest(existing.value.senderId, existing.value.receiverId);
      assert removed.Success?;
      reply := Reply(StatusCreated, "removed follow request");
    }
  }

  /** `FollowUserHandler`: unfollows a followed user; follows a public one
      directly; refuses a private one, who needs a request first.  There is
      no check against following oneself. */
  method FollowUserHandler(s: Store, userId: int, targetId: int, now: int) returns (reply: Reply)
    modifies s`follows
    requires s.FollowsValid()
    ensures s.FollowsValid()
    ensures s.GetUserById(userId).None? ==> reply == Reply(StatusBadRequest, "user not found")
    ensures s.GetUserById(userId).Some? && s.GetUserById(targetId).None? ==>
      reply == Reply(StatusBadRequest, "user to be followed not found")
    ensures s.GetUserById(userId).None? || s.GetUserById(targetId).None? ==> s.follows == old(s.follows)
    ensures s.GetUserById(userId).Some? && s.GetUserById(targetId).Some? && old(Follows(s.follows, userId, targetId)) ==>
      reply == Reply(StatusOK, "unfollowed user")
      && s.follows == Filter(old(s.follows), KeyIsNot(FollowKey, (userId, targetId)))
      && !Follows(s.follows, userId, targetId)
    ensures s.GetUserById(userId).Some? && s.GetUserById(targetId).Some? && !old(Follows(s.follows, userId, targetId)) ==>
      if s.GetUserById(targetId).value.isPublic then
        reply == Reply(StatusCreated, "followed user") && s.follows == old(s.follows) + [Follow(userId, targetId, now)]
      else
        reply == Reply(StatusBadRequest, "user to be followed should be public , otherwise a request has to be sent first")
        && s.follows == old(s.follows)
  {
    var user := s.GetUserById(userId);
    if user.None? {
      reply := Reply(StatusBadRequest, "user not found");
      return;
    }
    var target := s.GetUserById(targetId);
    if target.None? {
      reply := Reply(StatusBadRequest, "user to be followed not found");
      return;
    }
    var existing := s.GetFollow(user.value.id, target.value.id);
    if existing.None? {
      if !target.value.isPublic {
        reply := Reply(StatusBadRequest, "user to be followed should be public , otherwise a request has to be sent first");
        return;
      }
      var follow := s.CreateFollow(user.value.id, target.value.id, now);
      assert follow.Ok?;
      reply := Reply(StatusCreated, "followed user");
    } else {
      var removed := s.RemoveFollow(user.value.id, target.value.id);
      assert removed.Success?;
      reply := Reply(StatusOK, "unfollowed user");
    }
  }

  /** `AcceptFollowRequestHandler`: the receiver `userId` accepts the request
      from `senderId`, which turns it into a follow edge. */
  method AcceptFollowRequestHandler(s: Store, userId: int, senderId: int, now: int) returns (reply: Reply)
    modifies s`follows, s`followRequests
    requires s.FollowsValid() && s.FollowRequestsValid()
    ensures s.FollowsValid() && s.FollowRequestsValid()
    ensures s.GetUserById(userId).None? ==> reply == Reply(StatusBadRequest, "user not found")
    ensures s.GetUserById(userId).Some? && s.GetUserById(senderId).None? ==>
      reply == Reply(StatusBadRequest, "request sender user not found")
    ensures s.GetUserById(userId).Some? && s.GetUserById(senderId).Some? && old(s.GetFollowRequest(senderId, userId)).None? ==>
      reply == Reply(StatusBadRequest, "follow request not found")
    ensures reply.status == StatusOK <==>
      s.GetUserById(userId).Some? && s.GetUserById(senderId).Some?
      && old(s.GetFollowRequest(senderId, userId)).Some? && !old(Follows(s.follows, senderId, userId))
    ensures reply.status == StatusOK ==>
      reply.message == "accepted follow request"
      && s.follows == old(s.follows) + [Follow(senderId, userId, now)]
      && s.followRequests == Filter(old(s.followRequests), KeyIsNot(FollowRequestKey, (senderId, userId)))
    ensures reply.status != StatusOK ==> s.follows == old(s.follows) && s.followRequests == old(s.followRequests)
    ensures reply.status == StatusInternalServerError ==> reply.message == InternalServerError
  {
    var receiver := s.GetUserById(userId);
    if receiver.None? {
      reply := Reply(StatusBadRequest, "user not found");
      return;
    }
    var sender := s.GetUserById(senderId);
    if sender.None? {
      reply := Reply(StatusBadRequest, "request sender user not found");
      return;
    }
    var request := s.GetFollowRequest(sender.value.id, receiver.value.id);
    if request.None? {
      reply := Reply(StatusBadRequest, "follow request not found");
      return;
    }
    var follow := s.AcceptFollowRequest(request.value.senderId, request.value.receiverId, now);
    if follow.Err? {
      reply := Reply(StatusInternalServerError, InternalServerError);
      return;
    }
    reply := Reply(StatusOK, "accepted follow request");
  }

  /** Sending a follow request and then sending it again leaves the
      requests table as it was: the second request withdraws the first. */
  method FollowRequestTwiceRestores(s: Store, userId: int, receiverId: int, now: int, later: int)
    returns (first: Reply, second: Reply)
    modifies s`followRequests
    requires s.FollowRequestsValid()
    requires FollowRequestRejection(s, userId, receiverId).None? && s.GetFollowRequest(userId, receiverId).None?
    ensures first == Reply(StatusCreated, "sent follow request")
    ensures second == Reply(StatusCreated, "removed follow request")
    ensures s.followRequests == old(s.followRequests)
  {
    var before := s.followRequests;
    first := FollowRequestHandler(s, userId, receiverId, now);
    DeleteUndoesInsert(before, FollowRequestKey, FollowRequest(userId, receiverId, now));
    second := FollowRequestHandler(s, userId, receiverId, later);
  }

  /** Following a public user and then following again leaves the follow
      edges as they were: the second request unfollows. */
  method FollowTwiceRestores(s: Store, userId: int, targetId: int, now: int, later: int)
    returns (first: Reply, second: Reply)
    modifies s`follows
    requires s.FollowsValid()
    requires s.GetUserById(userId).Some? && s.GetUserById(targetId).Some? && s.GetUserById(targetId).value.isPublic
    requires !Follows(s.follows, userId, targetId)
    ensures first == Reply(StatusCreated, "followed user")
    ensures second == Reply(StatusOK, "unfollowed user")
    ensures s.follows == old(s.follows)
  {
    var before := s.follows;
    first := FollowUserHandler(s, userId, targetId, now);
    assert FollowKey(Follow(userId, targetId, now)) == (userId, targetId);
    assert !HasKey(before, FollowKey, (userId, targetId)) by {
      forall f | f in before ensures FollowKey(f) != (userId, targetId) {
      }
    }
    DeleteUndoesInsert(before, FollowKey, Follow(userId, targetId, now));
    assert Follow(userId, targetId, now) in s.follows;
    second := FollowUserHandler(s, userId, targetId, later);
  }

  /** The check in front of another user's posts, liked posts, bookmarked
      posts, followers and followings: the viewer is refused when the
      target is private, not followed by the viewer, and not the viewer. */
  function AccessDenied(s: Store, viewer: User, target: User): (denied: bool)
    reads s`follows
    ensures denied <==> !CanView(s.follows, viewer.id, target)
  {
    !target.isPublic && s.GetFollow(viewer.id, target.id).None? && viewer.id != target.id
  }

  /** What these endpoints check before reading anything: both users exist
      and the viewer may see the target.  `denied` is the endpoint's reply
      for a refused viewer. */
  function ViewRejection(s: Store, authUserId: int, userId: int, denied: Reply): (r: Option<Reply>)
    reads s`users, s`follows
    ensures s.GetUserById(authUserId).None? || s.GetUserById(userId).None? ==>
      r == Some(Reply(StatusBadRequest, "user not found"))
    ensures s.GetUserById(authUserId).Some? && s.GetUserById(userId).Some?
            && !CanView(s.follows, authUserId, s.GetUserById(userId).value) ==>
      r == Some(denied)
    ensures r.None? <==>
      s.GetUserById(authUserId).Some? && s.GetUserById(userId).Some?
      && CanView(s.follows, authUserId, s.GetUserById(userId).value)
  {
    var authUser := s.GetUserById(authUserId);
    var user := s.GetUserById(userId);
    if authUser.None? || user.None? then Some(Reply(StatusBadRequest, "user not found"))
    else if AccessDenied(s, authUser.value, user.value) then Some(denied)
    else None
  }

  /** The refusal of the posts, liked-posts and bookmarked-posts lists. */
  const PostsDenied := Reply(StatusUnauthorized, "user is not public and not followed by auth user")

  /** The refusal of the followers and followings lists. */
  const FollowersDenied :=
    Reply(StatusBadRequest, "cannot view user's followers , user is private and auth user is not following the user")

  /** `GetUserPostsHandler`: page `page` of another user's top-level posts.
      A failing query returns without writing any response. */
  method GetUserPostsHandler(s: Store, authUserId: int, userId: int, page: int, limit: int)
    returns (r: Listing<PostWithMetaData>)
    requires limit != 0
    ensures ViewRejection(s, authUserId, userId, PostsDenied).Some? ==>
      r == Rejected(ViewRejection(s, authUserId, userId, PostsDenied).value)
    ensures ViewRejection(s, authUserId, userId, PostsDenied).None? && (limit < 0 || GoSkip(page, limit) < 0) ==> r == NoResponse
    ensures ViewRejection(s, authUserId, userId, PostsDenied).None? && limit > 0 && GoSkip(page, limit) >= 0 ==>
      var rows := PostsByUserId(s.Snapshot(), userId, GoSkip(page, limit), limit).value;
      r.Listed? && r.noOfPages == NoOfPages(PostsCountByUser(s.Snapshot(), userId), limit)
      && |r.items| == |rows| && forall k :: 0 <= k < |rows| ==> r.items[k] == WithMetaData(s.Snapshot(), rows[k])
  {
    var rejection := ViewRejection(s, authUserId, userId, PostsDenied);
    if rejection.Some? {
      r := Rejected(rejection.value);
      return;
    }
    var skip := GoSkip(page, limit);
    var posts := s.GetPostsByUserId(userId, skip, limit);
    if posts.Err? {
      r := NoResponse;
      return;
    }
    r := Listed(posts.value, NoOfPages(PostsCountByUser(s.Snapshot(), userId), limit));
  }

  /** `GetUserFollowersHandler`: page `page` of the users who follow
      `userId`, newest edge first, with the number of pages. */
  method GetUserFollowersHandler(s: Store, authUserId: int, userId: int, page: int, limit: int) returns (r: Listing<User>)
    requires limit != 0
    ensures ViewRejection(s, authUserId, userId, FollowersDenied).Some? ==>
      r == Rejected(ViewRejection(s, authUserId, userId, FollowersDenied).value)
    ensures ViewRejection(s, authUserId, userId, FollowersDenied).None? && (limit < 0 || GoSkip(page, limit) < 0) ==>
      r == Rejected(Reply(StatusInternalServerError, InternalServerError))
    ensures ViewRejection(s, authUserId, userId, FollowersDenied).None? && limit > 0 && GoSkip(page, limit) >= 0 ==>
      r == Listed(Followers(s.Snapshot(), userId, GoSkip(page, limit), limit).value,
                  NoOfPages(FollowersCount(s.Snapshot(), userId), limit))
  {
    var rejection := ViewRejection(s, authUserId, userId, FollowersDenied);
    if rejection.Some? {
      r := Rejected(rejection.value);
      return;
    }
    var skip := GoSkip(page, limit);
    var followers := Followers(s.Snapshot(), userId, skip, limit);
    if followers.Err? {
      r := Rejected(Reply(StatusInternalServerError, InternalServerError));
      return;
    }
    r := Listed(followers.value, NoOfPages(FollowersCount(s.Snapshot(), userId), limit));
  }

  /** `GetUserFollowingsHandler`: page `page` of the users `userId`
      follows, newest edge first, with the number of pages. */
  method GetUserFollowingsHandler(s: Store, authUserId: int, userId: int, page: int, limit: int) returns (r: Listing<User>)
    requires limit != 0
    ensures ViewRejection(s, authUserId, userId, FollowersDenied).Some? ==>
      r == Rejected(ViewRejection(s, authUserId, userId, FollowersDenied).value)
    ensures ViewRejection(s, authUserId, userId, FollowersDenied).None? && (limit < 0 || GoSkip(page, limit) < 0) ==>
      r == Rejected(Reply(StatusInternalServerError, InternalServerError))
    ensures ViewRejection(s, authUserId, userId, FollowersDenied).None? && limit > 0 && GoSkip(page, limit) >= 0 ==>
      r == Listed(Followings(s.Snapshot(), userId, GoSkip(page, limit), limit).value,
                  NoOfPages(FollowingsCount(s.Snapshot(), userId), limit))
  {
    var rejection := ViewRejection(s, authUserId, userId, FollowersDenied);
    if rejection.Some? {
      r := Rejected(rejection.value);
      return;
    }
    var skip := GoSkip(page, limit);
    var followings := Followings(s.Snapshot(), userId, skip, limit);
    if followings.Err? {
      r := Rejected(Reply(StatusInternalServerError, InternalServerError));
      return;
    }
    r := Listed(followings.value, NoOfPages(FollowingsCount(s.Snapshot(), userId), limit));
  }

  /** The checks on a new (trimmed) username, in the handler's order.  A
      username is taken when some user has it and it is not the current
      user's own. */
  function UsernameRejection(s: Store, current: User, newUsername: string): (r: Option<string>)
    reads s`users
    ensures r == Some("username cannot be empty") <==> newUsername == ""
    ensures r == Some("new username cannot have less than 3 characters") <==> 0 < |newUsername| < 3
    ensures r == Some("username already taken") <==>
      |newUsername| >= 3 && newUsername != current.username && exists u :: u in s.users && u.username == newUsername
    ensures r.None? <==>
      |newUsername| >= 3 && (newUsername == current.username || forall u :: u in s.users ==> u.username != newUsername)
  {
    if newUsername == "" then Some("username cannot be empty")
    else if |newUsername| < 3 then Some("new username cannot have less than 3 characters")
    else
      var existing := s.GetUserByUsername(newUsername);
      if existing.Some? && existing.value.username != current.username then Some("username already taken")
      else None
  }

  /** `UpdateUserHandler`: replaces the user's username, image url, bio,
      location and visibility with the trimmed values sent. */
  method UpdateUserHandler(s: Store, userId: int, username: string, imageUrl: string, bio: string, location: string,
                           isPublic: bool)
    returns (reply: Reply)
    modifies s`users
    requires s.UsersValid()
    ensures s.UsersValid()
    ensures old(s.GetUserById(userId)).None? ==> reply == Reply(StatusBadRequest, "user not found") && s.users == old(s.users)
    ensures old(s.GetUserById(userId)).Some? ==>
      var rejection := old(UsernameRejection(s, s.GetUserById(userId).value, TrimSpace(username)));
      (rejection.Some? ==> reply == Reply(StatusBadRequest, rejection.value) && s.users == old(s.users))
      && (rejection.None? ==>
            reply == Reply(StatusOK, "updated user successfully")
            && s.users == Update(old(s.users), KeyIs(UserKey, userId),
                                 WithProfile(TrimSpace(username), TrimSpace(imageUrl), TrimSpace(bio), TrimSpace(location), isPublic)))
  {
    var user := s.GetUserById(userId);
    if user.None? {
      reply := Reply(StatusBadRequest, "user not found");
      return;
    }
    var newUsername := TrimSpace(username);
    var rejection := UsernameRejection(s, user.value, newUsername);
    if rejection.Some? {
      reply := Reply(StatusBadRequest, rejection.value);
      return;
    }
    var updated := s.UpdateUser(user.value.id, newUsername, TrimSpace(imageUrl), TrimSpace(bio), TrimSpace(location), isPublic);
    assert updated.Ok?;
    reply := Reply(StatusOK, "updated user successfully");
  }

  /** The username check keeps usernames distinct: when they are distinct
      before an update it lets through, they are distinct after it.  The
      store does not keep that premise by itself: its user invariant makes
      ids unique only, and registration may reuse the username of an
      inactive account, so this is conditional on the table at hand. */
  lemma UpdateKeepsUsernamesDistinct(users: seq<User>, current: User, newUsername: string,
                                     imageUrl: string, bio: string, location: string, isPublic: bool)
    requires UniqueBy(users, UserKey) && UniqueBy(users, Username) && current in users
    requires newUsername == current.username || forall u :: u in users ==> u.username != newUsername
    ensures UniqueBy(Update(users, KeyIs(UserKey, current.id), WithProfile(newUsername, imageUrl, bio, location, isPublic)), Username)
  {
    var p := KeyIs(UserKey, current.id);
    var f := WithProfile(newUsername, imageUrl, bio, location, isPublic);
    var r := Update(users, p, f);
    forall i, j | 0 <= i < |r| && 0 <= j < |r| && i != j ensures Username(r[i]) != Username(r[j]) {
      if p(users[i]) && p(users[j]) {
        assert false;
      } else if p(users[i]) {
        assert users[i] in users && users[j] in users;
        UniqueSameKey(users, UserKey, users[i], current);
        assert r[j] == users[j];
      } else if p(users[j]) {
        assert users[i] in users && users[j] in users;
        UniqueSameKey(users, UserKey, users[j], current);
        assert r[i] == users[i];
      }
    }
  }
}
