/** The storage layer: every table is a field of one `Store` object and each
    storage function is a method (or, for single-row reads, a function) over
    those fields.  Each method modifies only the tables its statements write,
    keeps the table's key and id-sequence invariant, and states the new
    contents of what it writes.  Database errors other than the key and row
    count conditions the code itself checks enter as boolean oracles. */
module Storage {
  import opened Wrappers
  import opened Rel
  import opened Schema
  import opened Queries

  /** The error the database reports for an INSERT that repeats the primary
      key of a relation table. */
  const DuplicateKey := "pq: duplicate key value violates unique constraint"

  /** The error a single-row query reports when it finds no row. */
  const NoRows := "sql: no rows in result set"

  /** Stands for whatever error the database driver reports when a
      statement fails for a reason the code does not inspect. */
  const DatabaseError := "database error"

  /** A new post with its images and its author, as the image-creating
      transactions return it. */
  datatype PostWithImages = PostWithImages(post: Post, user: User, images: seq<PostImage>)

  function Username(u: User): string { u.username }

  function ActiveWithEmail(email: string): User -> bool
  {
    (u: User) => u.email == email && u.isActive
  }

  function ActiveWithUsername(username: string): User -> bool
  {
    (u: User) => u.username == username && u.isActive
  }

  function ActiveByEmailOrUsername(email: string, username: string): User -> bool
  {
    (u: User) => (u.email == email || u.username == username) && u.isActive
  }

  /** The row `INSERT INTO users(email,username,password,date_of_birth)`
      creates: the image, bio and location columns are NULL, the account is
      not yet active and `is_public` takes its column default. */
  function NewUser(id: int, email: string, username: string, password: string,
                   dateOfBirth: string, isPublic: bool, now: int): (u: User)
    ensures u.id == id && u.email == email && u.username == username && u.password == password
    ensures u.imageUrl.None? && u.bio.None? && u.location.None? && !u.isActive
  {
    User(id, email, username, password, None, None, None, dateOfBirth, isPublic, now, false)
  }

  /** `WHERE token=$1 AND expiration > $2` on the invitations, first row. */
  function LiveInvitation(invitations: seq<UserInvitation>, token: string, now: int): (r: Option<UserInvitation>)
    ensures r.Some? ==> r.value in invitations && r.value.token == token && r.value.expiration > now
    ensures r.None? <==> forall i :: i in invitations ==> !(i.token == token && i.expiration > now)
  {
    FirstWhere(invitations, (i: UserInvitation) => i.token == token && i.expiration > now)
  }

  /** The same query on the password resets. */
  function LiveReset(resets: seq<PasswordReset>, token: string, now: int): (r: Option<PasswordReset>)
    ensures r.Some? ==> r.value in resets && r.value.token == token && r.value.expiration > now
    ensures r.None? <==> forall x :: x in resets ==> !(x.token == token && x.expiration > now)
  {
    FirstWhere(resets, (x: PasswordReset) => x.token == token && x.expiration > now)
  }

  function SetActive(u: User): User { u.(isActive := true) }

  /** The rows `DELETE FROM users WHERE email=$1 AND is_active=false` keeps. */
  function NotInactiveWith(email: string): User -> bool
  {
    (u: User) => !(u.email == email && !u.isActive)
  }

  /** The users table after activating user `id` and purging the inactive
      accounts that share its email. */
  function Activated(users: seq<User>, id: int, email: string): seq<User>
  {
    Filter(Update(users, KeyIs(UserKey, id), SetActive), NotInactiveWith(email))
  }

  /** Activation leaves the user active, removes every inactive account with
      its email, keeps every other account, and adds nothing. */
  lemma ActivatedSpec(users: seq<User>, x: User)
    requires UniqueBy(users, UserKey) && x in users
    ensures SetActive(x) in Activated(users, x.id, x.email)
    ensures forall u :: u in Activated(users, x.id, x.email) ==> u.isActive || u.email != x.email
    ensures forall u :: u in users && u.id != x.id ==>
      (u in Activated(users, x.id, x.email) <==> u.isActive || u.email != x.email)
    ensures forall u :: u in Activated(users, x.id, x.email) ==> u == SetActive(x) || (u in users && u.id != x.id)
  {
    var up := Update(users, KeyIs(UserKey, x.id), SetActive);
    UpdateHits(users, KeyIs(UserKey, x.id), SetActive, x);
    forall u | u in users && u.id != x.id ensures u in up {
      var k :| 0 <= k < |users| && users[k] == u;
      assert up[k] == u;
    }
    forall u | u in up ensures u == SetActive(x) || (u in users && u.id != x.id) {
      UpdateRows(users, KeyIs(UserKey, x.id), SetActive, u);
      var y :| y in users && u == if KeyIs(UserKey, x.id)(y) then SetActive(y) else y;
      if y.id == x.id {
        UniqueSameKey(users, UserKey, x, y);
      }
    }
  }

  function WithPassword(password: string): User -> User
  {
    (u: User) => u.(password := password)
  }

  /** `SET username=$1,image_url=$2,bio=$3,location=$4,is_public=$5`. */
  function WithProfile(username: string, imageUrl: string, bio: string, location: string, isPublic: bool): User -> User
  {
    (u: User) => u.(username := username, imageUrl := Some(imageUrl), bio := Some(bio),
                    location := Some(location), isPublic := isPublic)
  }

  /** `SET notification_created_at=now()`. */
  function Touched(now: int): Notification -> Notification
  {
    (n: Notification) => n.(createdAt := now)
  }

  /** The image rows of a new post, one per url in url order, with ids drawn
      from `firstId` on. */
  function ImageRows(urls: seq<string>, firstId: int, postId: int): (r: seq<PostImage>)
    ensures |r| == |urls|
    ensures forall k :: 0 <= k < |urls| ==> r[k] == PostImage(firstId + k, urls[k], postId)
  {
    seq(|urls|, k requires 0 <= k < |urls| => PostImage(firstId + k, urls[k], postId))
  }

  class Store {
    var users: seq<User>
    var posts: seq<Post>
    var postImages: seq<PostImage>
    var likes: seq<Like>
    var bookmarks: seq<Bookmark>
    var follows: seq<Follow>
    var followRequests: seq<FollowRequest>
    var notifications: seq<Notification>
    var invitations: seq<UserInvitation>
    var passwordResets: seq<PasswordReset>

    /** The next value of each serial id sequence. */
    var nextUserId: int
    var nextPostId: int
    var nextImageId: int
    var nextNotificationId: int

    /** The column default of `users.is_public`, which the schema fixes. */
    const defaultIsPublic: bool

    /** The tables as the read queries see them. */
    function Snapshot(): Schema.Tables
      reads this
    {
      Schema.Tables(users, posts, postImages, likes, bookmarks, follows, followRequests,
        notifications, invitations, passwordResets)
    }

    ghost predicate UsersValid()
      reads this`users, this`nextUserId
    {
      UniqueBy(users, UserKey) && IdsBelow(users, UserKey, nextUserId)
    }

    ghost predicate PostsValid()
      reads this`posts, this`nextPostId
    {
      UniqueBy(posts, PostKey) && IdsBelow(posts, PostKey, nextPostId)
    }

    ghost predicate ImagesValid()
      reads this`postImages, this`nextImageId
    {
      UniqueBy(postImages, ImageKey) && IdsBelow(postImages, ImageKey, nextImageId)
    }

    ghost predicate NotificationsValid()
      reads this`notifications, this`nextNotificationId
    {
      UniqueBy(notifications, NotificationKey) && IdsBelow(notifications, NotificationKey, nextNotificationId)
    }

    /** The primary key (liked_by_id, liked_post_id) of `likes`. */
    ghost predicate LikesValid()
      reads this`likes
    {
      UniqueBy(likes, LikeKey)
    }

    ghost predicate BookmarksValid()
      reads this`bookmarks
    {
      UniqueBy(bookmarks, BookmarkKey)
    }

    ghost predicate FollowsValid()
      reads this`follows
    {
      UniqueBy(follows, FollowKey)
    }

    ghost predicate FollowRequestsValid()
      reads this`followRequests
    {
      UniqueBy(followRequests, FollowRequestKey)
    }

    ghost predicate Valid()
      reads this
    {
      UsersValid() && PostsValid() && ImagesValid() && NotificationsValid()
      && LikesValid() && BookmarksValid() && FollowsValid() && FollowRequestsValid()
    }

    /** An empty database. */
    constructor (defaultIsPublic: bool)
      ensures Valid()
      ensures Snapshot() == Schema.Tables([], [], [], [], [], [], [], [], [], [])
      ensures this.defaultIsPublic == defaultIsPublic
    {
      users, posts, postImages := [], [], [];
      likes, bookmarks, follows, followRequests := [], [], [], [];
      notifications, invitations, passwordResets := [], [], [];
      nextUserId, nextPostId, nextImageId, nextNotificationId := 1, 1, 1, 1;
      this.defaultIsPublic := defaultIsPublic;
    }

    // -------------------------------------------------------------------
    // Users

    function GetUserById(id: int): (r: Option<User>)
      reads this`users
      ensures r.Some? ==> r.value in users && r.value.id == id
      ensures r.None? <==> !HasKey(users, UserKey, id)
    {
      Lookup(users, UserKey, id)
    }

    /** `WHERE username=$1`, active or not. */
    function GetUserByUsername(username: string): (r: Option<User>)
      reads this`users
      ensures r.Some? ==> r.value in users && r.value.username == username
      ensures r.None? <==> forall u :: u in users ==> u.username != username
    {
      Lookup(users, Username, username)
    }

    function GetActiveUserByEmail(email: string): (r: Option<User>)
      reads this`users
      ensures r.Some? ==> r.value in users && r.value.email == email && r.value.isActive
      ensures r.None? <==> forall u :: u in users ==> !(u.email == email && u.isActive)
    {
      FirstWhere(users, ActiveWithEmail(email))
    }

    function GetActiveUserByUsername(username: string): (r: Option<User>)
      reads this`users
      ensures r.Some? ==> r.value in users && r.value.username == username && r.value.isActive
      ensures r.None? <==> forall u :: u in users ==> !(u.username == username && u.isActive)
    {
      FirstWhere(users, ActiveWithUsername(username))
    }

    method GetActiveUsersByEmailOrUsername(email: string, username: string) returns (r: seq<User>)
      ensures forall u :: u in r <==> u in users && (u.email == email || u.username == username) && u.isActive
      ensures r == Filter(users, ActiveByEmailOrUsername(email, username))
    {
      r := Select(users, ActiveByEmailOrUsername(email, username));
    }

    /** Inserts the user and its invitation in one transaction: both rows are
        committed or neither is.  A failed invitation insert still consumes
        the user id the sequence handed out. */
    method CreateUserAndInvitation(email: string, username: string, password: string, dateOfBirth: string,
                                   token: string, expiration: int, now: int,
                                   userInsertFails: bool, invitationInsertFails: bool)
      returns (r: Result<User>)
      modifies this`users, this`invitations, this`nextUserId
      requires UsersValid()
      ensures UsersValid()
      ensures r.Ok? <==> !userInsertFails && !invitationInsertFails
      ensures r.Ok? ==> r.value == NewUser(old(nextUserId), email, username, password, dateOfBirth, defaultIsPublic, now)
      ensures r.Ok? ==> users == old(users) + [r.value]
      ensures r.Ok? ==> invitations == old(invitations) + [UserInvitation(token, r.value.id, expiration)]
      ensures r.Err? ==> users == old(users) && invitations == old(invitations)
      ensures nextUserId == old(nextUserId) + if userInsertFails then 0 else 1
    {
      if userInsertFails {
        r := Err(DatabaseError);
        return;
      }
      var user := NewUser(nextUserId, email, username, password, dateOfBirth, defaultIsPublic, now);
      nextUserId := nextUserId + 1;
      if invitationInsertFails {
        r := Err(DatabaseError);
        return;
      }
      AppendFreshId(users, UserKey, user.id, user);
      users := users + [user];
      invitations := invitations + [UserInvitation(token, user.id, expiration)];
      r := Ok(user);
    }

    /** Activates the account an unexpired invitation names and deletes the
        inactive accounts registered with the same email.  The invitation is
        kept; the user is returned as it was read before the update. */
    method ActivateUser(token: string, now: int) returns (r: Result<User>)
      modifies this`users
      requires UsersValid()
      ensures UsersValid()
      ensures r.Ok? <==> LiveInvitation(invitations, token, now).Some?
                         && HasKey(old(users), UserKey, LiveInvitation(invitations, token, now).value.userId)
      ensures r.Err? ==> users == old(users)
      ensures r.Ok? ==> r.value in old(users) && r.value.id == LiveInvitation(invitations, token, now).value.userId
      ensures r.Ok? ==> users == Activated(old(users), r.value.id, r.value.email)
      ensures r.Ok? ==> SetActive(r.value) in users
      ensures r.Ok? ==> forall u :: u in users ==> u.isActive || u.email != r.value.email
      ensures r.Ok? ==> forall u :: u in old(users) && u.id != r.value.id ==>
        (u in users <==> u.isActive || u.email != r.value.email)
    {
      var invitation := LiveInvitation(invitations, token, now);
      if invitation.None? {
        r := Err(NoRows);
        return;
      }
      var found := GetUserById(invitation.value.userId);
      if found.None? {
        r := Err(NoRows);
        return;
      }
      var user := found.value;
      // `UPDATE users SET is_active=true WHERE id=$1` affects the one row
      // with that id, so the "failed to activate user" check cannot fire.
      UniquePresentExactlyOne(users, UserKey, user.id);
      assert |Filter(users, KeyIs(UserKey, user.id))| == 1;
      UpdateKeepsIds(users, KeyIs(UserKey, user.id), SetActive, UserKey, nextUserId);
      FilterKeepsIds(Update(users, KeyIs(UserKey, user.id), SetActive), UserKey, nextUserId, NotInactiveWith(user.email));
      ActivatedSpec(users, user);
      users := Activated(users, user.id, user.email);
      r := Ok(user);
    }

    method CreatePasswordResetForUser(token: string, userId: int, expiration: int) returns (r: Outcome)
      modifies this`passwordResets
      ensures r.Success?
      ensures passwordResets == old(passwordResets) + [PasswordReset(token, userId, expiration)]
    {
      passwordResets := passwordResets + [PasswordReset(token, userId, expiration)];
      r := Success;
    }

    /** Sets the password of the user an unexpired reset token names; fails
        unless exactly one user row was updated. */
    method ResetPassword(password: string, token: string, now: int) returns (r: Outcome)
      modifies this`users
      requires UsersValid()
      ensures UsersValid()
      ensures r.Success? <==> LiveReset(passwordResets, token, now).Some?
                              && HasKey(old(users), UserKey, LiveReset(passwordResets, token, now).value.userId)
      ensures r.Failure? ==> users == old(users)
      ensures r.Failure? && LiveReset(passwordResets, token, now).None? ==> r.message == NoRows
      ensures r.Failure? && LiveReset(passwordResets, token, now).Some? ==> r.message == "failed to update password"
      ensures r.Success? ==> users == Update(old(users), KeyIs(UserKey, LiveReset(passwordResets, token, now).value.userId), WithPassword(password))
    {
      var reset := LiveReset(passwordResets, token, now);
      if reset.None? {
        r := Failure(NoRows);
        return;
      }
      var id := reset.value.userId;
      var affected := |Filter(users, KeyIs(UserKey, id))|;
      DeleteKey(users, UserKey, id);
      if affected != 1 {
        r := Failure("failed to update password");
        return;
      }
      UpdateKeepsIds(users, KeyIs(UserKey, id), WithPassword(password), UserKey, nextUserId);
      users := Update(users, KeyIs(UserKey, id), WithPassword(password));
      r := Success;
    }

    /** Overwrites the profile columns of user `userId` and returns the
        updated row; every other column and every other user is kept. */
    method UpdateUser(userId: int, username: string, imageUrl: string, bio: string, location: string, isPublic: bool)
      returns (r: Result<User>)
      modifies this`users
      requires UsersValid()
      ensures UsersValid()
      ensures users == Update(old(users), KeyIs(UserKey, userId), WithProfile(username, imageUrl, bio, location, isPublic))
      ensures r.Ok? <==> HasKey(old(users), UserKey, userId)
      ensures r.Err? ==> r.message == NoRows
      ensures r.Ok? ==> r.value == Projected(GetUserById(userId).value) && r.value.id == userId && !r.value.isActive
      ensures r.Ok? ==> r.value.username == username && r.value.imageUrl == Some(imageUrl)
                        && r.value.bio == Some(bio) && r.value.location == Some(location) && r.value.isPublic == isPublic
      ensures r.Ok? ==> r.value == Projected(WithProfile(username, imageUrl, bio, location, isPublic)(old(GetUserById(userId)).value))
    {
      var before := GetUserById(userId);
      var f := WithProfile(username, imageUrl, bio, location, isPublic);
      UpdateKeepsIds(users, KeyIs(UserKey, userId), f, UserKey, nextUserId);
      if before.Some? {
        UpdateHits(users, KeyIs(UserKey, userId), f, before.value);
      }
      users := Update(users, KeyIs(UserKey, userId), f);
      if before.None? {
        r := Err(NoRows);
      } else {
        r := Ok(Projected(f(before.value)));
      }
    }

    // -------------------------------------------------------------------
    // Posts

    function GetPostById(id: int): (r: Option<Post>)
      reads this`posts
      ensures r.Some? ==> r.value in posts && r.value.id == id
      ensures r.None? <==> !HasKey(posts, PostKey, id)
    {
      Lookup(posts, PostKey, id)
    }

    /** Inserts a top-level post, then reads its author.  The insert is not
        in a transaction, so the post stays when the author is missing. */
    method CreatePost(content: string, userId: int, now: int) returns (r: Result<PostRow>)
      modifies this`posts, this`nextPostId
      requires PostsValid()
      ensures PostsValid()
      ensures nextPostId == old(nextPostId) + 1
      ensures posts == old(posts) + [Post(old(nextPostId), content, userId, None, now)]
      ensures r.Ok? <==> HasKey(users, UserKey, userId)
      ensures r.Ok? ==> r.value.0 == Post(old(nextPostId), content, userId, None, now)
      ensures r.Ok? ==> r.value.1 == Projected(GetUserById(userId).value) && r.value.1.id == userId
    {
      var post := Post(nextPostId, content, userId, None, now);
      AppendFreshId(posts, PostKey, nextPostId, post);
      posts := posts + [post];
      nextPostId := nextPostId + 1;
      var author := GetUserById(userId);
      if author.None? {
        r := Err(NoRows);
      } else {
        r := Ok((post, Projected(author.value)));
      }
    }

    /** The same for a comment on post `parentPostId`. */
    method CreateChildPost(content: string, userId: int, parentPostId: int, now: int) returns (r: Result<PostRow>)
      modifies this`posts, this`nextPostId
      requires PostsValid()
      ensures PostsValid()
      ensures nextPostId == old(nextPostId) + 1
      ensures posts == old(posts) + [Post(old(nextPostId), content, userId, Some(parentPostId), now)]
      ensures r.Ok? <==> HasKey(users, UserKey, userId)
      ensures r.Ok? ==> r.value.0 == Post(old(nextPostId), content, userId, Some(parentPostId), now)
      ensures r.Ok? ==> r.value.1 == Projected(GetUserById(userId).value) && r.value.1.id == userId
    {
      var post := Post(nextPostId, content, userId, Some(parentPostId), now);
      AppendFreshId(posts, PostKey, nextPostId, post);
      posts := posts + [post];
      nextPostId := nextPostId + 1;
      var author := GetUserById(userId);
      if author.None? {
        r := Err(NoRows);
      } else {
        r := Ok((post, Projected(author.value)));
      }
    }

    /** Inserts a post and one image row per url, in url order, then reads
        the author, all in one transaction: with the author missing nothing
        is committed, although the ids drawn from the sequences stay used.
        `parentPostId` is `None` for a top-level post and the parent's id for
        a comment. */
    method CreatePostWithImages(content: string, urls: seq<string>, userId: int, parentPostId: Option<int>, now: int)
      returns (r: Result<PostWithImages>)
      modifies this`posts, this`postImages, this`nextPostId, this`nextImageId
      requires PostsValid() && ImagesValid()
      ensures PostsValid() && ImagesValid()
      ensures nextPostId == old(nextPostId) + 1 && nextImageId == old(nextImageId) + |urls|
      ensures r.Ok? <==> HasKey(users, UserKey, userId)
      ensures r.Ok? ==> r.value.post == Post(old(nextPostId), content, userId, parentPostId, now)
      ensures r.Ok? ==> r.value.user == Projected(GetUserById(userId).value) && r.value.user.id == userId
      ensures r.Ok? ==> |r.value.images| == |urls|
      ensures r.Ok? ==> forall k :: 0 <= k < |urls| ==>
        r.value.images[k] == PostImage(old(nextImageId) + k, urls[k], old(nextPostId))
      ensures r.Ok? ==> r.value.images == ImageRows(urls, old(nextImageId), old(nextPostId))
      ensures r.Ok? ==> posts == old(posts) + [r.value.post] && postImages == old(postImages) + r.value.images
      ensures r.Err? ==> posts == old(posts) && postImages == old(postImages)
    {
      var post := Post(nextPostId, content, userId, parentPostId, now);
      nextPostId := nextPostId + 1;
      var images: seq<PostImage> := [];
      var i := 0;
      while i < |urls|
        invariant 0 <= i <= |urls|
        invariant nextImageId == old(nextImageId) + i
        invariant nextPostId == old(nextPostId) + 1 && posts == old(posts) && postImages == old(postImages)
        invariant |images| == i
        invariant forall k :: 0 <= k < i ==> images[k] == PostImage(old(nextImageId) + k, urls[k], post.id)
      {
        images := images + [PostImage(nextImageId, urls[i], post.id)];
        nextImageId := nextImageId + 1;
        i := i + 1;
      }
      var author := GetUserById(userId);
      if author.None? {
        r := Err(NoRows);
        return;
      }
      AppendFreshId(posts, PostKey, post.id, post);
      AppendFreshIds(postImages, ImageKey, old(nextImageId), images);
      posts := posts + [post];
      postImages := postImages + images;
      r := Ok(PostWithImages(post, Projected(author.value), images));
    }

    method DeletePostById(id: int) returns (r: Outcome)
      modifies this`posts
      requires PostsValid()
      ensures PostsValid()
      ensures posts == Filter(old(posts), KeyIsNot(PostKey, id))
      ensures !HasKey(posts, PostKey, id)
      ensures r.Success? <==> HasKey(old(posts), PostKey, id)
      ensures r.Failure? ==> r.message == "no of posts deleted is not 1" && posts == old(posts)
    {
      var affected := |Filter(posts, KeyIs(PostKey, id))|;
      DeleteKey(posts, PostKey, id);
      FilterKeepsIds(posts, PostKey, nextPostId, KeyIsNot(PostKey, id));
      posts := Filter(posts, KeyIsNot(PostKey, id));
      if affected != 1 {
        r := Failure("no of posts deleted is not 1");
      } else {
        r := Success;
      }
    }

    /** The Go loop that attaches images and counts to each ranked row. */
    method AttachMetaData(rows: seq<PostRow>) returns (r: seq<PostWithMetaData>)
      ensures |r| == |rows|
      ensures forall k :: 0 <= k < |rows| ==> r[k] == WithMetaData(Snapshot(), rows[k])
    {
      var t := Snapshot();
      r := [];
      var i := 0;
      while i < |rows|
        invariant 0 <= i <= |rows|
        invariant |r| == i
        invariant forall k :: 0 <= k < i ==> r[k] == WithMetaData(t, rows[k])
      {
        var id := rows[i].0.id;
        var images := Select(postImages, ImagesOf(id));
        r := r + [PostWithMetaData(rows[i].0, Projected(rows[i].1), images,
                     LikesCount(t, id), CommentsCount(t, id), BookmarksCount(t, id))];
        i := i + 1;
      }
    }

    method GetUserPostFeed(skip: int, limit: int, userId: int, w: Weights) returns (r: Result<seq<PostWithMetaData>>)
      ensures r.Ok? <==> skip >= 0 && limit >= 0
      ensures r.Ok? ==> var rows := UserPostFeed(Snapshot(), w, userId, skip, limit).value;
        |r.value| == |rows| && forall k :: 0 <= k < |rows| ==> r.value[k] == WithMetaData(Snapshot(), rows[k])
    {
      var q := UserPostFeed(Snapshot(), w, userId, skip, limit);
      if q.Err? {
        r := Err(q.message);
        return;
      }
      var rows := AttachMetaData(q.value);
      r := Ok(rows);
    }

    method GetPublicPosts(skip: int, limit: int, w: Weights) returns (r: Result<seq<PostWithMetaData>>)
      ensures r.Ok? <==> skip >= 0 && limit >= 0
      ensures r.Ok? ==> var rows := PublicPosts(Snapshot(), w, skip, limit).value;
        |r.value| == |rows| && forall k :: 0 <= k < |rows| ==> r.value[k] == WithMetaData(Snapshot(), rows[k])
    {
      var q := PublicPosts(Snapshot(), w, skip, limit);
      if q.Err? {
        r := Err(q.message);
        return;
      }
      var rows := AttachMetaData(q.value);
      r := Ok(rows);
    }

    method GetPostsByUserId(userId: int, skip: int, limit: int) returns (r: Result<seq<PostWithMetaData>>)
      ensures r.Ok? <==> skip >= 0 && limit >= 0
      ensures r.Ok? ==> var rows := PostsByUserId(Snapshot(), userId, skip, limit).value;
        |r.value| == |rows| && forall k :: 0 <= k < |rows| ==> r.value[k] == WithMetaData(Snapshot(), rows[k])
    {
      var q := PostsByUserId(Snapshot(), userId, skip, limit);
      if q.Err? {
        r := Err(q.message);
        return;
      }
      var rows := AttachMetaData(q.value);
      r := Ok(rows);
    }

    method GetPostComments(postId: int, skip: int, limit: int) returns (r: Result<seq<PostWithMetaData>>)
      ensures r.Ok? <==> skip >= 0 && limit >= 0
      ensures r.Ok? ==> var rows := PostComments(Snapshot(), postId, skip, limit).value;
        |r.value| == |rows| && forall k :: 0 <= k < |rows| ==> r.value[k] == WithMetaData(Snapshot(), rows[k])
    {
      var q := PostComments(Snapshot(), postId, skip, limit);
      if q.Err? {
        r := Err(q.message);
        return;
      }
      var rows := AttachMetaData(q.value);
      r := Ok(rows);
    }

    // -------------------------------------------------------------------
    // Likes

    function GetLike(likedById: int, likedPostId: int): (r: Option<Like>)
      reads this`likes
      ensures r.Some? ==> r.value in likes && r.value.likedById == likedById && r.value.likedPostId == likedPostId
      ensures r.None? <==> !HasKey(likes, LikeKey, (likedById, likedPostId))
    {
      Lookup(likes, LikeKey, (likedById, likedPostId))
    }

    method CreateLike(likedById: int, likedPostId: int, now: int) returns (r: Result<Like>)
      modifies this`likes
      requires LikesValid()
      ensures LikesValid()
      ensures r.Ok? <==> !HasKey(old(likes), LikeKey, (likedById, likedPostId))
      ensures r.Ok? ==> r.value == Like(likedById, likedPostId, now) && likes == old(likes) + [r.value]
      ensures r.Err? ==> r.message == DuplicateKey && likes == old(likes)
    {
      if GetLike(likedById, likedPostId).Some? {
        r := Err(DuplicateKey);
        return;
      }
      var like := Like(likedById, likedPostId, now);
      AppendKeepsUnique(likes, LikeKey, like);
      likes := likes + [like];
      r := Ok(like);
    }

    method RemoveLike(likedById: int, likedPostId: int) returns (r: Outcome)
      modifies this`likes
      requires LikesValid()
      ensures LikesValid()
      ensures likes == Filter(old(likes), KeyIsNot(LikeKey, (likedById, likedPostId)))
      ensures !HasKey(likes, LikeKey, (likedById, likedPostId))
      ensures r.Success? <==> HasKey(old(likes), LikeKey, (likedById, likedPostId))
      ensures r.Failure? ==> r.message == "no of likes deleted was not one" && likes == old(likes)
    {
      var key := (likedById, likedPostId);
      var affected := |Filter(likes, KeyIs(LikeKey, key))|;
      DeleteKey(likes, LikeKey, key);
      likes := Filter(likes, KeyIsNot(LikeKey, key));
      if affected != 1 {
        r := Failure("no of likes deleted was not one");
      } else {
        r := Success;
      }
    }

    method GetPostLikes(likedPostId: int) returns (r: seq<Like>)
      ensures forall l :: l in r <==> l in likes && l.likedPostId == likedPostId
      ensures LikesValid() ==> |r| == LikesCount(Snapshot(), likedPostId)
    {
      r := Select(likes, LikesOf(likedPostId));
      if LikesValid() {
        LikesCountIsRowCount(Snapshot(), likedPostId);
      }
    }

    // -------------------------------------------------------------------
    // Bookmarks

    function GetBookmark(bookmarkedById: int, bookmarkedPostId: int): (r: Option<Bookmark>)
      reads this`bookmarks
      ensures r.Some? ==> r.value in bookmarks && r.value.bookmarkedById == bookmarkedById
                          && r.value.bookmarkedPostId == bookmarkedPostId
      ensures r.None? <==> !HasKey(bookmarks, BookmarkKey, (bookmarkedById, bookmarkedPostId))
    {
      Lookup(bookmarks, BookmarkKey, (bookmarkedById, bookmarkedPostId))
    }

    method CreateBookmark(bookmarkedById: int, bookmarkedPostId: int, now: int) returns (r: Result<Bookmark>)
      modifies this`bookmarks
      requires BookmarksValid()
      ensures BookmarksValid()
      ensures r.Ok? <==> !HasKey(old(bookmarks), BookmarkKey, (bookmarkedById, bookmarkedPostId))
      ensures r.Ok? ==> r.value == Bookmark(bookmarkedById, bookmarkedPostId, now) && bookmarks == old(bookmarks) + [r.value]
      ensures r.Err? ==> r.message == DuplicateKey && bookmarks == old(bookmarks)
    {
      if GetBookmark(bookmarkedById, bookmarkedPostId).Some? {
        r := Err(DuplicateKey);
        return;
      }
      var bookmark := Bookmark(bookmarkedById, bookmarkedPostId, now);
      AppendKeepsUnique(bookmarks, BookmarkKey, bookmark);
      bookmarks := bookmarks + [bookmark];
      r := Ok(bookmark);
    }

    method RemoveBookmark(bookmarkedById: int, bookmarkedPostId: int) returns (r: Outcome)
      modifies this`bookmarks
      requires BookmarksValid()
      ensures BookmarksValid()
      ensures bookmarks == Filter(old(bookmarks), KeyIsNot(BookmarkKey, (bookmarkedById, bookmarkedPostId)))
      ensures !HasKey(bookmarks, BookmarkKey, (bookmarkedById, bookmarkedPostId))
      ensures r.Success? <==> HasKey(old(bookmarks), BookmarkKey, (bookmarkedById, bookmarkedPostId))
      ensures r.Failure? ==> r.message == "no of bookmarks deleted not one" && bookmarks == old(bookmarks)
    {
      var key := (bookmarkedById, bookmarkedPostId);
      var affected := |Filter(bookmarks, KeyIs(BookmarkKey, key))|;
      DeleteKey(bookmarks, BookmarkKey, key);
      bookmarks := Filter(bookmarks, KeyIsNot(BookmarkKey, key));
      if affected != 1 {
        r := Failure("no of bookmarks deleted not one");
      } else {
        r := Success;
      }
    }

    method GetBookmarksByPostId(postId: int) returns (r: seq<Bookmark>)
      ensures forall b :: b in r <==> b in bookmarks && b.bookmarkedPostId == postId
      ensures BookmarksValid() ==> |r| == BookmarksCount(Snapshot(), postId)
    {
      r := Select(bookmarks, BookmarksOf(postId));
      if BookmarksValid() {
        BookmarksCountIsRowCount(Snapshot(), postId);
      }
    }

    // -------------------------------------------------------------------
    // Follows

    /** The directed edge `followerId` -> `followingId`; the reverse edge is
        a different row. */
    function GetFollow(followerId: int, followingId: int): (r: Option<Follow>)
      reads this`follows
      ensures r.Some? ==> r.value in follows && r.value.followerId == followerId && r.value.followingId == followingId
      ensures r.None? <==> !HasKey(follows, FollowKey, (followerId, followingId))
      ensures r.Some? <==> Follows(follows, followerId, followingId)
    {
      Lookup(follows, FollowKey, (followerId, followingId))
    }

    method CreateFollow(followerId: int, followingId: int, now: int) returns (r: Result<Follow>)
      modifies this`follows
      requires FollowsValid()
      ensures FollowsValid()
      ensures r.Ok? <==> !HasKey(old(follows), FollowKey, (followerId, followingId))
      ensures r.Ok? ==> r.value == Follow(followerId, followingId, now) && follows == old(follows) + [r.value]
      ensures r.Err? ==> r.message == DuplicateKey && follows == old(follows)
    {
      if GetFollow(followerId, followingId).Some? {
        r := Err(DuplicateKey);
        return;
      }
      var follow := Follow(followerId, followingId, now);
      AppendKeepsUnique(follows, FollowKey, follow);
      follows := follows + [follow];
      r := Ok(follow);
    }

    method RemoveFollow(followerId: int, followingId: int) returns (r: Outcome)
      modifies this`follows
      requires FollowsValid()
      ensures FollowsValid()
      ensures follows == Filter(old(follows), KeyIsNot(FollowKey, (followerId, followingId)))
      ensures !Follows(follows, followerId, followingId)
      ensures r.Success? <==> HasKey(old(follows), FollowKey, (followerId, followingId))
      ensures r.Failure? ==> r.message == "no of follows deleted is not one" && follows == old(follows)
    {
      var key := (followerId, followingId);
      var affected := |Filter(follows, KeyIs(FollowKey, key))|;
      DeleteKey(follows, FollowKey, key);
      follows := Filter(follows, KeyIsNot(FollowKey, key));
      assert GetFollow(followerId, followingId).None?;
      if affected != 1 {
        r := Failure("no of follows deleted is not one");
      } else {
        r := Success;
      }
    }

    method GetFollowingsByUser(userId: int) returns (r: seq<Follow>)
      ensures forall f :: f in r <==> f in follows && f.followerId == userId
      ensures |r| == FollowingsCount(Snapshot(), userId)
    {
      r := Select(follows, EdgesFrom(userId));
    }

    // -------------------------------------------------------------------
    // Follow requests

    function GetFollowRequest(senderId: int, receiverId: int): (r: Option<FollowRequest>)
      reads this`followRequests
      ensures r.Some? ==> r.value in followRequests && r.value.senderId == senderId && r.value.receiverId == receiverId
      ensures r.None? <==> !HasKey(followRequests, FollowRequestKey, (senderId, receiverId))
    {
      Lookup(followRequests, FollowRequestKey, (senderId, receiverId))
    }

    method CreateFollowRequest(senderId: int, receiverId: int, now: int) returns (r: Result<FollowRequest>)
      modifies this`followRequests
      requires FollowRequestsValid()
      ensures FollowRequestsValid()
      ensures r.Ok? <==> !HasKey(old(followRequests), FollowRequestKey, (senderId, receiverId))
      ensures r.Ok? ==> r.value == FollowRequest(senderId, receiverId, now) && followRequests == old(followRequests) + [r.value]
      ensures r.Err? ==> r.message == DuplicateKey && followRequests == old(followRequests)
    {
      if GetFollowRequest(senderId, receiverId).Some? {
        r := Err(DuplicateKey);
        return;
      }
      var request := FollowRequest(senderId, receiverId, now);
      AppendKeepsUnique(followRequests, FollowRequestKey, request);
      followRequests := followRequests + [request];
      r := Ok(request);
    }

    method RemoveFollowRequest(senderId: int, receiverId: int) returns (r: Outcome)
      modifies this`followRequests
      requires FollowRequestsValid()
      ensures FollowRequestsValid()
      ensures followRequests == Filter(old(followRequests), KeyIsNot(FollowRequestKey, (senderId, receiverId)))
      ensures !HasKey(followRequests, FollowRequestKey, (senderId, receiverId))
      ensures r.Success? <==> HasKey(old(followRequests), FollowRequestKey, (senderId, receiverId))
      ensures r.Failure? ==> r.message == "no of follow request deleted is not one" && followRequests == old(followRequests)
    {
      var key := (senderId, receiverId);
      var affected := |Filter(followRequests, KeyIs(FollowRequestKey, key))|;
      DeleteKey(followRequests, FollowRequestKey, key);
      followRequests := Filter(followRequests, KeyIsNot(FollowRequestKey, key));
      if affected != 1 {
        r := Failure("no of follow request deleted is not one");
      } else {
        r := Success;
      }
    }

    /** In one transaction: insert the follow edge sender -> receiver, then
        delete the request.  Both happen or neither: a repeated edge fails
        the insert, and a delete that does not remove exactly one request
        returns before the commit. */
    method AcceptFollowRequest(senderId: int, receiverId: int, now: int) returns (r: Result<Follow>)
      modifies this`follows, this`followRequests
      requires FollowsValid() && FollowRequestsValid()
      ensures FollowsValid() && FollowRequestsValid()
      ensures r.Ok? <==> !HasKey(old(follows), FollowKey, (senderId, receiverId))
                         && HasKey(old(followRequests), FollowRequestKey, (senderId, receiverId))
      ensures r.Ok? ==> r.value == Follow(senderId, receiverId, now) && follows == old(follows) + [r.value]
      ensures r.Ok? ==> followRequests == Filter(old(followRequests), KeyIsNot(FollowRequestKey, (senderId, receiverId)))
      ensures r.Ok? ==> Follows(follows, senderId, receiverId) && !HasKey(followRequests, FollowRequestKey, (senderId, receiverId))
      ensures r.Err? ==> follows == old(follows) && followRequests == old(followRequests)
      ensures r.Err? ==> r.message == if HasKey(old(follows), FollowKey, (senderId, receiverId))
                                      then DuplicateKey else "no of requests deleted is not one"
    {
      if GetFollow(senderId, receiverId).Some? {
        r := Err(DuplicateKey);
        return;
      }
      var follow := Follow(senderId, receiverId, now);
      AppendKeepsUnique(follows, FollowKey, follow);
      var key := (senderId, receiverId);
      var affected := |Filter(followRequests, KeyIs(FollowRequestKey, key))|;
      DeleteKey(followRequests, FollowRequestKey, key);
      if affected != 1 {
        r := Err("no of requests deleted is not one");
        return;
      }
      follows := follows + [follow];
      followRequests := Filter(followRequests, KeyIsNot(FollowRequestKey, key));
      assert follow in follows;
      r := Ok(follow);
    }

    method GetFollowRequestsSentByUser(userId: int) returns (r: seq<FollowRequest>)
      ensures forall q :: q in r <==> q in followRequests && q.senderId == userId
      ensures r == Filter(followRequests, (q: FollowRequest) => q.senderId == userId)
    {
      r := Select(followRequests, (q: FollowRequest) => q.senderId == userId);
    }

    // -------------------------------------------------------------------
    // Notifications

    /** Inserts a notification; `fails` stands for a failing INSERT. */
    method CreateNotification(userId: int, actorId: int, postId: int, kind: NotificationType, now: int, fails: bool)
      returns (r: Result<Notification>)
      modifies this`notifications, this`nextNotificationId
      requires NotificationsValid()
      ensures NotificationsValid()
      ensures r.Ok? <==> !fails
      ensures r.Ok? ==> r.value == Notification(old(nextNotificationId), userId, kind, actorId, now, postId)
      ensures r.Ok? ==> notifications == old(notifications) + [r.value] && nextNotificationId == old(nextNotificationId) + 1
      ensures r.Err? ==> notifications == old(notifications) && nextNotificationId == old(nextNotificationId)
    {
      if fails {
        r := Err(DatabaseError);
        return;
      }
      var n := Notification(nextNotificationId, userId, kind, actorId, now, postId);
      AppendFreshId(notifications, NotificationKey, nextNotificationId, n);
      notifications := notifications + [n];
      nextNotificationId := nextNotificationId + 1;
      r := Ok(n);
    }

    /** Matches actor, post and type, whoever the recipient is. */
    method GetNotificationsByActorIdAndPostId(actorId: int, postId: int, kind: NotificationType) returns (r: seq<Notification>)
      ensures forall n :: n in r <==> n in notifications && n.actorId == actorId && n.postId == postId && n.kind == kind
      ensures r == Filter(notifications, NotificationMatch(actorId, postId, kind))
    {
      r := Select(notifications, NotificationMatch(actorId, postId, kind));
    }

    /** Sets the timestamp of every matching row to `now` and returns the
        first of them; every other row is left as it was. */
    method UpdateNotificationByActorIdAndPostId(actorId: int, postId: int, kind: NotificationType, now: int)
      returns (r: Result<Notification>)
      modifies this`notifications
      requires NotificationsValid()
      ensures NotificationsValid()
      ensures notifications == Update(old(notifications), NotificationMatch(actorId, postId, kind), Touched(now))
      ensures r.Ok? <==> exists n :: n in old(notifications) && NotificationMatch(actorId, postId, kind)(n)
      ensures r.Ok? ==> r.value in notifications && r.value.createdAt == now
                        && r.value.actorId == actorId && r.value.postId == postId && r.value.kind == kind
      ensures r.Err? ==> r.message == NoRows && notifications == old(notifications)
    {
      var p := NotificationMatch(actorId, postId, kind);
      var first := FirstWhere(notifications, p);
      UpdateKeepsIds(notifications, p, Touched(now), NotificationKey, nextNotificationId);
      if first.None? {
        UpdateNoMatch(notifications, p, Touched(now));
        r := Err(NoRows);
        return;
      }
      UpdateHits(notifications, p, Touched(now), first.value);
      notifications := Update(notifications, p, Touched(now));
      r := Ok(Touched(now)(first.value));
    }
  }
}
