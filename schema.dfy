/** The rows of the database tables the storage layer reads and writes, and
    the key of each table.  Timestamps are integer clock readings (seconds);
    nullable text columns are `Option<string>`. */
module Schema {
  import opened Wrappers
  import opened Rel

  datatype User = User(
    id: int,
    email: string,
    username: string,
    password: string,
    imageUrl: Option<string>,
    bio: Option<string>,
    location: Option<string>,
    dateOfBirth: string,
    isPublic: bool,
    createdAt: int,
    isActive: bool)

  /** A user row as a statement whose column list leaves out `is_active`
      returns it: the scan leaves that field at Go's zero value, `false`.
      The author lookups after a post insert, the `RETURNING` list of the
      profile update, and the user columns of the post and notification
      joins all read users this way. */
  function Projected(u: User): User
  {
    u.(isActive := false)
  }

  /** A top-level post has no parent; a comment is a post whose parent is
      the post it answers. */
  datatype Post = Post(id: int, content: string, userId: int, parentPostId: Option<int>, createdAt: int)

  datatype PostImage = PostImage(id: int, url: string, postId: int)

  datatype Like = Like(likedById: int, likedPostId: int, likedAt: int)

  datatype Bookmark = Bookmark(bookmarkedById: int, bookmarkedPostId: int, bookmarkedAt: int)

  /** A directed edge: `followerId` follows `followingId`. */
  datatype Follow = Follow(followerId: int, followingId: int, followedAt: int)

  datatype FollowRequest = FollowRequest(senderId: int, receiverId: int, requestAt: int)

  /** The `notification_type` column: "like" or "comment". */
  datatype NotificationType = LikeNotification | CommentNotification

  datatype Notification = Notification(
    id: int, userId: int, kind: NotificationType, actorId: int, createdAt: int, postId: int)

  datatype UserInvitation = UserInvitation(token: string, userId: int, expiration: int)

  datatype PasswordReset = PasswordReset(token: string, userId: int, expiration: int)

  /** A snapshot of every table, as the read queries see the database. */
  datatype Tables = Tables(
    users: seq<User>,
    posts: seq<Post>,
    postImages: seq<PostImage>,
    likes: seq<Like>,
    bookmarks: seq<Bookmark>,
    follows: seq<Follow>,
    followRequests: seq<FollowRequest>,
    notifications: seq<Notification>,
    invitations: seq<UserInvitation>,
    passwordResets: seq<PasswordReset>)

  function UserKey(u: User): int { u.id }
  function PostKey(p: Post): int { p.id }
  function ImageKey(i: PostImage): int { i.id }
  function NotificationKey(n: Notification): int { n.id }
  function LikeKey(l: Like): Pair { (l.likedById, l.likedPostId) }
  function BookmarkKey(b: Bookmark): Pair { (b.bookmarkedById, b.bookmarkedPostId) }
  function FollowKey(f: Follow): Pair { (f.followerId, f.followingId) }
  function FollowRequestKey(r: FollowRequest): Pair { (r.senderId, r.receiverId) }

  /** Every id in the table is below the next id its sequence hands out. */
  ghost predicate IdsBelow<T(!new)>(rows: seq<T>, key: T -> int, next: int)
  {
    forall x :: x in rows ==> key(x) < next
  }

  /** A table whose ids are distinct and below `next` stays so when a row
      with id `next` is added. */
  lemma AppendFreshId<T(!new)>(rows: seq<T>, key: T -> int, next: int, x: T)
    requires UniqueBy(rows, key) && IdsBelow(rows, key, next)
    requires key(x) == next
    ensures UniqueBy(rows + [x], key) && IdsBelow(rows + [x], key, next + 1)
  {
    AppendKeepsUnique(rows, key, x);
  }

  /** Rows with ids `next`, `next + 1`, ... appended to such a table keep it so. */
  lemma {:induction false} AppendFreshIds<T(!new)>(rows: seq<T>, key: T -> int, next: int, xs: seq<T>)
    requires UniqueBy(rows, key) && IdsBelow(rows, key, next)
    requires forall k :: 0 <= k < |xs| ==> key(xs[k]) == next + k
    ensures UniqueBy(rows + xs, key) && IdsBelow(rows + xs, key, next + |xs|)
    decreases |xs|
  {
    if xs == [] {
      assert rows + xs == rows;
    } else {
      AppendFreshId(rows, key, next, xs[0]);
      var rest := xs[1..];
      forall k | 0 <= k < |rest| ensures key(rest[k]) == next + 1 + k {
        assert rest[k] == xs[k + 1];
      }
      AppendFreshIds(rows + [xs[0]], key, next + 1, rest);
      assert rows + [xs[0]] + rest == rows + xs;
    }
  }

  /** Deleting rows keeps the ids distinct and below the sequence. */
  lemma FilterKeepsIds<T(!new)>(rows: seq<T>, key: T -> int, next: int, p: T -> bool)
    requires UniqueBy(rows, key) && IdsBelow(rows, key, next)
    ensures UniqueBy(Filter(rows, p), key) && IdsBelow(Filter(rows, p), key, next)
  {
    FilterKeepsUnique(rows, key, p);
  }

  /** An update that leaves the id column alone keeps the ids as they were. */
  lemma UpdateKeepsIds<T(!new)>(rows: seq<T>, p: T -> bool, f: T -> T, key: T -> int, next: int)
    requires UniqueBy(rows, key) && IdsBelow(rows, key, next)
    requires forall x :: key(f(x)) == key(x)
    ensures UniqueBy(Update(rows, p, f), key) && IdsBelow(Update(rows, p, f), key, next)
  {
    UpdateKeepsUnique(rows, p, f, key);
    forall y | y in Update(rows, p, f) ensures key(y) < next {
      UpdateRows(rows, p, f, y);
    }
  }
}
