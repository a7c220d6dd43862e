# A verified model of the go-social-media-app social graph

This project models the core of a Go social-media back end:
- the relation tables that hold users, posts, likes, bookmarks, follows, follow requests and notifications;
- the invitations and password resets;
- the storage functions that read and write those tables;
- the HTTP handlers that toggle the pair relations, gate profile views and list feeds;
- the validators for passwords, e-mail addresses and ages.

The SQL database becomes one Dafny class, `Storage.Store`, with one `seq` field per table and one counter per serial id.
- A storage function that writes becomes a method whose `modifies` clause names exactly the tables its statements touch.
- A single-row read becomes a function with a `reads` clause.
- The unique `(a, b)` constraint on each pair table is the store's `Valid()` invariant. An insert that would break it fails with `DuplicateKey`, as the database would.
- A delete reports failure unless exactly one row matched.

The declarative queries are pure functions over a snapshot of the tables (`Schema.Tables`). These are the feeds, the per-user posts, the comments, followers, followings, user search and notifications. Each is written as a filter, then a sort, then a slice:
- `Rel.Filter` keeps the eligible rows;
- `Ordering.SortDesc` orders them by a pair key, with the score first and the creation time second;
- `Queries.SqlPage` applies `OFFSET`/`LIMIT`.

The count queries are stated over the same eligible sets.

Several statements read a user through a column list that has no `is_active`. This happens in:
- the author lookups after a post insert;
- the `RETURNING` list of the profile update;
- the user columns of the post and notification joins.

Go then leaves that field at its zero value, `false`. `Schema.Projected` is that scan, and every such result is stated as the projected row.

Handlers become methods that take the store and the request's parameters, and return a `Replies.Reply`. A reply is the HTTP status plus the error or success message the Go code writes. The listing handlers return a `Replies.Listing` instead.

Everything the Go code gets from outside the database becomes a parameter:
- the clock `now` (an integer of seconds) and today's date;
- the bcrypt hash and comparison (`hash`, `matches`), and the failure of the hashing (`hashFails`);
- the failure of a notification insert (`failures[i]` for attempt `i`);
- the failure of the user or invitation insert;
- the failure of the mail delivery.

The feed weights 0.7/0.8/0.5 are scaled to the integers 7/8/5. `Queries.ScaledWeightsSameOrder` proves that scaling by a positive constant does not change the feed order.

The modules follow the program:
- `Wrappers`: Option, Result and Outcome types.
- `Rel`: generic filter, join, update and unique-key facts about tables.
- `Ordering`: sorting, paging and the page count.
- `Text`: trimming, lower-casing, substring search and splitting.
- `Dates`: the `2006-01-02` date layout.
- `Validators`: `helpers/helper.go`.
- `Schema`: the table records.
- `Queries`: the read queries of `storage/*.go`.
- `Storage`: the `Store` class.
- `Replies`: status codes and handler results.
- `PostHandlers`, `UserHandlers` and `AuthHandlers`: `handlers/post.go`, `handlers/user.go` and `handlers/auth.go`.

Where the code's behaviour is surprising, the model follows the code:
- A comment on a post with images notifies the user whose id equals the parent post's id (`PostHandlers.CommentRecipient`).
- `FollowUserHandler` has no self-follow check.
- `AcceptFollowRequestHandler` does not re-check that the receiver is private.
- A failed confirmation mail still leaves the new user and the invitation stored.
- An inactive account with the same e-mail or username does not block registration.
- The digit class used by the password rule is `"123456790"`, which leaves out `'8'`.
- User search with empty text matches only users whose username is empty.
- The listing handlers compute `page*limit - limit` in 64-bit `int`, so a very large page number wraps the skip (`Ordering.GoSkip`). The result is then either a 500 or an earlier page.

The model takes one deliberate step beyond the code. The listing handlers divide by `limit` as a float, so they require `limit != 0`. For a negative limit, the model replies with the 500 that the SQL error produces.

## Model

| member | source | states |
|---|---|---|
| Storage.Store.GetLike | storage/likeStore.go:11-23 | returns a row only for the exact (liker, post) pair; no row iff the pair is absent |
| Storage.Store.CreateLike | storage/likeStore.go:25-39 | succeeds iff the pair is absent, appends exactly `Like(liker, post, now)` and returns it; a duplicate is refused and leaves the table unchanged |
| Storage.Store.RemoveLike | storage/likeStore.go:41-60 | deletes the pair's rows; success iff exactly one existed; afterwards the pair is absent |
| Storage.Store.GetPostLikes | storage/likeStore.go:62-85 | returns exactly the likes on the post; their number is the post's like count |
| Storage.Store.GetBookmark | storage/bookmarkStore.go:48-61 | returns a row only for the exact (bookmarker, post) pair; none iff absent |
| Storage.Store.CreateBookmark | storage/bookmarkStore.go:11-25 | succeeds iff the pair is absent, appending exactly that bookmark; a duplicate changes nothing |
| Storage.Store.RemoveBookmark | storage/bookmarkStore.go:27-46 | deletes the pair; success iff exactly one row existed |
| Storage.Store.GetBookmarksByPostId | storage/bookmarkStore.go:63-86 | returns exactly the post's bookmarks; their number is the bookmark count |
| Storage.Store.GetFollow | storage/FollowStore.go:48-58 | matches the directed edge (follower, following) only; some iff `Follows` holds |
| Storage.Store.CreateFollow | storage/FollowStore.go:10-25 | succeeds iff the edge is absent, appending exactly that edge |
| Storage.Store.RemoveFollow | storage/FollowStore.go:27-46 | deletes the edge; success iff exactly one existed; afterwards the edge is absent |
| Storage.Store.GetFollowingsByUser | storage/FollowStore.go:60-84 | returns exactly the edges whose follower is the user; their number is the followings count |
| Storage.Store.GetFollowRequest | storage/FollowRequestStore.go:47-58 | matches the directed (sender, receiver) pair only |
| Storage.Store.CreateFollowRequest | storage/FollowRequestStore.go:11-24 | succeeds iff the pair is absent, appending exactly that request |
| Storage.Store.RemoveFollowRequest | storage/FollowRequestStore.go:26-45 | deletes the pair; success iff exactly one request existed |
| Storage.Store.AcceptFollowRequest | storage/FollowRequestStore.go:60-105 | on success, the edge sender to receiver is added and the request removed, as one step; on failure neither table changes, with the duplicate-key or row-count message |
| Storage.Store.GetFollowRequestsSentByUser | storage/FollowRequestStore.go:107-132 | returns exactly the requests sent by the user, in table order |
| Storage.Store.CreateNotification | storage/notificationStore.go:19-33 | appends one row with the next id, recipient, actor, post, kind and time; when the insert fails nothing changes |
| Storage.Store.GetNotificationsByActorIdAndPostId | storage/notificationStore.go:87-113 | returns exactly the rows matching actor, post and kind, whatever their recipient |
| Storage.Store.UpdateNotificationByActorIdAndPostId | storage/notificationStore.go:115-130 | sets the time of every matching row to now and leaves all other rows unchanged; fails with no rows iff nothing matches |
| Storage.Store.GetUserById | storage/userStore.go:272-283 | returns the user with that id; none iff no such id |
| Storage.Store.GetUserByUsername | storage/userStore.go:258-270 | returns a user with that username; none iff no user has it |
| Storage.Store.GetActiveUserByEmail | storage/userStore.go:80-95 | returns an active user with that e-mail; none iff there is none |
| Storage.Store.GetActiveUserByUsername | storage/userStore.go:97-111 | returns an active user with that username; none iff there is none |
| Storage.Store.GetActiveUsersByEmailOrUsername | storage/userStore.go:50-78 | returns exactly the active users whose e-mail or username matches |
| Storage.Store.CreateUserAndInvitation | storage/userStore.go:129-173 | inserts both the inactive user and its invitation, or neither; the id sequence advances when the user insert ran |
| Storage.Store.ActivateUser | storage/userStore.go:175-241 | succeeds iff an unexpired invitation carries the token; it then activates that user and deletes every other inactive user with the same e-mail, keeping all other rows; otherwise nothing changes |
| Storage.Store.CreatePasswordResetForUser | storage/userStore.go:456-475 | appends exactly the reset row (token, user, expiry) |
| Storage.Store.ResetPassword | storage/userStore.go:477-508 | succeeds iff an unexpired reset carries the token; it then sets that user's password and no other field; otherwise users are unchanged, with the message for the failing step |
| Storage.Store.UpdateUser | storage/userStore.go:379-393 | overwrites username, image, bio, location and privacy of exactly the user with that id; fails with no rows iff the id is unknown; returns the updated row as the `RETURNING` list reads it, with `is_active` left false |
| Storage.Store.GetPostById | storage/postStore.go:217-229 | returns the post with that id; none iff no such id |
| Storage.Store.CreatePost | storage/postStore.go:43-70 | appends a top-level post with the next id and returns it with its author's stored row, read without `is_active` (left false) |
| Storage.Store.CreateChildPost | storage/postStore.go:133-161 | appends a post whose parent is the given post and returns it with its author's row, `is_active` left false |
| Storage.Store.CreatePostWithImages | storage/postStore.go:73-131 | appends the post and one image row per URL, with consecutive ids, in URL order, all in one transaction; returns the author's row with `is_active` left false; when the author is missing neither table changes |
| Storage.Store.DeletePostById | storage/postStore.go:307-326 | removes the post with that id; success iff exactly one existed; on failure posts are unchanged |
| Storage.Store.AttachMetaData | storage/postStore.go:382-418 | builds one metadata record per row, in order, each with the post's images and its three counts |
| Storage.Store.GetUserPostFeed | storage/postStore.go:328-420 | returns the authenticated feed page with metadata; fails iff skip or limit is negative |
| Storage.Store.GetPublicPosts | storage/postStore.go:442-532 | returns the public feed page with metadata |
| Storage.Store.GetPostsByUserId | storage/postStore.go:553-638 | returns the page of the user's top-level posts, newest first |
| Storage.Store.GetPostComments | storage/postStore.go:656-741 | returns the page of the post's direct children, newest first |
| Storage.ActivatedSpec | storage/userStore.go:206-240 | after activation the activated user is present and active, no inactive user with that e-mail remains, and every other user with a different e-mail is kept |
| Storage.LiveInvitation | storage/userStore.go:190-197 | finds an invitation with the token whose expiry is after now; none iff there is no such invitation |
| Storage.LiveReset | storage/userStore.go:481-488 | finds a reset with the token whose expiry is after now; none iff there is no such reset |
| Storage.ImageRows | storage/postStore.go:100-115 | one image row per URL, ids counting up from the first, all pointing at the post |
| Queries.SqlPage | storage/postStore.go:373 | `OFFSET skip LIMIT limit`: fails iff either is negative, otherwise returns at most limit rows, which are exactly positions skip onwards |
| Queries.RankedPage | storage/postStore.go:372-373 | a page of a sorted table is sorted and holds only rows of the table |
| Queries.RankedPagesCover | handlers/post.go:60-73 | every eligible row appears on some page between 1 and the page count |
| Queries.RankedPagesEnd | handlers/post.go:60-73 | a page past the last page is empty, and every page up to the last is non-empty |
| Queries.LikesCountIsRowCount | storage/postStore.go:358-366 | counting distinct likers equals counting like rows, given the unique pair key |
| Queries.CommentsCountIsRowCount | storage/postStore.go:358-366 | the comment count is the number of direct children |
| Queries.BookmarksCountIsRowCount | storage/postStore.go:358-366 | counting distinct bookmarkers equals counting bookmark rows |
| Queries.ScoreScales | handlers/post.go:27-31 | scaling all weights by c scales every activity score by c |
| Queries.ScaleKeepsRank | handlers/post.go:27-31 | scaling the score by a positive constant does not change which row ranks first |
| Queries.ScaledWeightsSameOrder | storage/postStore.go:372 | sorting with weights 0.7/0.8/0.5 scaled to 7/8/5 gives the same order |
| Queries.UserFeedRows | storage/postStore.go:368 | contains exactly the top-level posts whose author is public, followed by the viewer, or the viewer |
| Queries.PublicFeedRows | storage/postStore.go:479 | contains exactly the top-level posts whose author is public |
| Queries.UserPostFeed | storage/postStore.go:328-420 | a sorted page of at most limit rows, every one eligible for the viewer's feed |
| Queries.PublicPosts | storage/postStore.go:442-532 | a sorted page of at most limit rows, every one from a public author |
| Queries.UserFeedIsSlice | storage/postStore.go:372-373 | the feed page is exactly positions [skip, skip+limit) of the sorted eligible set |
| Queries.UserFeedPagesCover | storage/postStore.go:422-440 | every eligible post lies on some page numbered up to ceil(count/limit) |
| Queries.UserFeedPagesEnd | storage/postStore.go:422-440 | the feed page is empty iff its number exceeds ceil(count/limit) |
| Queries.PublicPagesCover | storage/postStore.go:534-551 | every public post lies on some page numbered up to ceil(count/limit) |
| Queries.PublicPagesEnd | storage/postStore.go:534-551 | the public page is empty iff its number exceeds ceil(count/limit) |
| Queries.PublicFeedWithinUserFeed | storage/postStore.go:368 | every public-feed post is in every viewer's feed, so the public count is no larger |
| Queries.PrivatePostsReachFollowersOnly | storage/postStore.go:368 | a private author's post reaches a viewer's feed iff the viewer follows the author or is the author |
| Queries.UserPostsRows | storage/postStore.go:587-591 | contains exactly the user's top-level posts |
| Queries.PostsByUserId | storage/postStore.go:553-638 | a page, newest first, of the user's top-level posts only |
| Queries.PostsCountByUserMatches | storage/postStore.go:640-653 | the count is the size of the same set the list pages through |
| Queries.CommentRows | storage/postStore.go:690-693 | contains exactly the direct children of the post |
| Queries.PostComments | storage/postStore.go:656-741 | a page, newest first, of the post's direct children only |
| Queries.PostCommentsCountMatches | storage/postStore.go:743-755 | the count is the number of comment rows and agrees with the feed's comment count |
| Queries.WithMetaData | storage/postStore.go:382-418 | the record carries the post, its author as the join selects it (`is_active` left false), exactly its images, and its like, comment and bookmark counts |
| Queries.UsersIn | storage/userStore.go:289-296 | keeps exactly the users whose id is in the set |
| Queries.Followers | storage/userStore.go:285-315 | a page of users, each of whom follows the user |
| Queries.Followings | storage/userStore.go:332-362 | a page of users, each of whom the user follows |
| Queries.FollowersPageComplete | storage/userStore.go:289-296 | the follower of the k-th edge in the page's slice is on that page |
| Queries.FollowingsPageComplete | storage/userStore.go:336-343 | the followed user of the k-th edge in the page's slice is on that page |
| Queries.FollowersCountDistinct | storage/userStore.go:317-330 | the follower count equals the number of distinct followers |
| Queries.SearchPattern | storage/userStore.go:411-417 | empty text gives the exact pattern "", any other text gives "%text%" |
| Queries.UsersBySearchText | storage/userStore.go:395-436 | a page of at most limit active users whose username matches, ranked by followers then sign-up time |
| Queries.EmptySearchMatchesEmptyUsernames | storage/userStore.go:402-417 | searching for "" returns only users with an empty username |
| Queries.EmptySearchCountsEveryone | storage/userStore.go:438-454 | the search count for "" counts every user, active or not |
| Queries.SearchWithinCount | storage/userStore.go:438-454 | the search result set is never larger than the search count |
| Queries.NotificationRows | storage/notificationStore.go:38-47 | contains exactly the recipient's notifications, each paired with its actor's stored row read without `is_active` (left false) |
| Queries.NotificationsByUserId | storage/notificationStore.go:35-72 | a page, newest first, of the recipient's notifications only |
| Queries.NotificationsCountMatches | storage/notificationStore.go:74-85 | the count bounds the listed set, and equals it when every actor exists |
| Ordering.InsertPermutes | storage/postStore.go:372 | insertion adds exactly one element to the multiset |
| Ordering.InsertSorted | storage/postStore.go:372 | inserting into a sorted sequence keeps it sorted |
| Ordering.SortDescCorrect | storage/postStore.go:372 | the ordering is sorted descending by (score, time) and is a permutation of its input |
| Ordering.SortDescSameOrder | storage/postStore.go:372 | two keys that rank every pair alike give the same ordering |
| Ordering.Page | storage/postStore.go:373 | positions [skip, skip+limit) of the sequence, truncated at its end |
| Ordering.PageOfSortedIsSorted | storage/postStore.go:373 | a slice of a sorted sequence is sorted |
| Ordering.Skip | handlers/post.go:60 | `page*limit - limit` in exact arithmetic equals (page-1)*limit, so page 1 skips nothing |
| Ordering.SkipBeforeFirstPage | handlers/post.go:60 | a page below 1 with a positive limit skips a negative number of rows |
| Ordering.Wrap64 | handlers/post.go:60 | the result lies in the 64-bit range, differs from the exact value by a multiple of 2^64, and equals it when it fits |
| Ordering.GoSkip | handlers/post.go:60 | the skip as Go's 64-bit `int` computes it: in range, and equal to the exact skip when the product and the difference fit |
| Ordering.GoSkipWithoutOverflow | handlers/post.go:60 | without overflow the 64-bit skip is negative iff the page is below 1, and otherwise (page-1)*limit |
| Ordering.GoSkipWrapsNegative | handlers/post.go:60 | page 2^61+1 with limit 4 wraps the skip to -2^63 |
| Ordering.GoSkipWrapsToZero | handlers/post.go:60 | page 2^62+1 with limit 4 wraps the skip to 0, the first page |
| Ordering.NoOfPages | handlers/post.go:73 | the integer ceiling of total/limit: (n-1)*limit < total <= n*limit, and zero iff total is zero |
| Ordering.PageEmptyIffBeyondLast | handlers/post.go:60-73 | a page is empty iff its number exceeds the page count |
| Ordering.PageCovers | handlers/post.go:60-73 | position k lies on page k/limit + 1 |
| Ordering.PageCoversRow | handlers/post.go:60-73 | any element lies on some page between 1 and the page count |
| Text.TrimSpace | handlers/auth.go:58-60 | drops exactly the leading and trailing white space: the result is a slice of the input with no space at either end |
| Text.TrimSpaceIdempotent | handlers/auth.go:58-60 | trimming twice is trimming once |
| Text.TrimSpaceEmptyIff | handlers/post.go:163-168 | the trimmed content is empty iff the input is all white space |
| Text.ToLower | handlers/auth.go:58 | same length, every ASCII letter `A`-`Z` lowered, every other character kept, no ASCII upper-case letter left |
| Text.ToLowerIdempotent | handlers/auth.go:58 | lowering twice is lowering once |
| Text.ContainsSub | storage/userStore.go:404-417 | true iff the text occurs at some position |
| Text.IndexOf | helpers/helper.go:60-62 | the first position of the character, or -1 iff it does not occur |
| Text.Split | helpers/helper.go:62-75 | at least one part, no part containing the separator |
| Text.JoinSplit | helpers/helper.go:62-75 | joining the parts of a split gives back the input |
| Text.SplitJoin | helpers/helper.go:62-75 | splitting a join of separator-free parts gives back the parts |
| Text.SplitCount | helpers/helper.go:71-75 | the number of parts is one more than the number of separators |
| Dates.DaysIn | handlers/auth.go:63 | 28 to 31 days, and 29 exactly for February of a leap year |
| Dates.ParseDate | handlers/auth.go:63-67 | whatever parses under the `2006-01-02` layout is a real calendar date |
| Dates.ParseFormat | handlers/auth.go:63-67 | formatting a valid date and parsing it gives the date back |
| Dates.FormatParse | handlers/auth.go:63-67 | parsing a well-formed date string and formatting it gives the string back |
| Dates.NumDigits | handlers/auth.go:63 | reading back a zero-padded decimal numeral gives the number |
| Dates.DigitsNum | handlers/auth.go:63 | rewriting a digit string at its own width gives the same string |
| Validators.IsPasswordStrong | helpers/helper.go:9-52 | true iff the password has at least 6 characters and one special, one digit, one upper-case and one lower-case character; the early exit gives the same answer as a full scan |
| Validators.HasCharFromPrefix | helpers/helper.go:24-51 | a prefix one character longer has a character of the class iff the shorter one does or the new character is in it |
| Validators.HasCharFromWhole | helpers/helper.go:26-28 | once a prefix has a character of the class, so does the whole password |
| Validators.EightIsNotADigit | helpers/helper.go:12 | a password whose only digit-like characters are '8' is never strong |
| Validators.IsEmailValid | helpers/helper.go:54-76 | a valid address contains '@' |
| Validators.EmailSegments | helpers/helper.go:62-69 | the first two '@'-segments of `local@domain...` are local and domain |
| Validators.DomainRule | helpers/helper.go:71-75 | the domain rule holds iff the domain has exactly one '.' |
| Validators.EmailValidIff | helpers/helper.go:56-75 | the address is valid iff local and domain are non-empty and the domain has exactly one '.', whatever follows a second '@' |
| Validators.EmailTwoDotsInvalid | helpers/helper.go:71-75 | "a@b.c.d" is invalid |
| Validators.EmailThirdSegmentIgnored | helpers/helper.go:62-69 | "a@b.c@x" is valid, because only two segments are examined |
| Validators.EmailDotlessDomainInvalid | helpers/helper.go:71-75 | "a@bc" is invalid |
| Validators.CalculateAge | helpers/helper.go:78-108 | -1 iff the birth year is after today's, 0 in the birth year, never below -1 |
| Validators.AgeIsCompletedYears | helpers/helper.go:89-106 | in a later year the age is the number of birthdays on or before today |
| PostHandlers.FirstSuccess | handlers/post.go:823-838 | the first attempt below maxRetries that does not fail; none iff every attempt fails |
| PostHandlers.FirstSuccessFrom | handlers/post.go:826-835 | the first non-failing attempt from a given one onwards |
| PostHandlers.SendNotification | handlers/post.go:823-838 | returns true iff some attempt succeeds; stops after the first success, or makes maxRetries attempts (none when it is negative); inserts exactly one notification on success and nothing otherwise |
| PostHandlers.GetPostsHandler | handlers/post.go:33-85 | rejects a missing user with 400; otherwise 500 iff the limit or the 64-bit skip is negative, and else the feed page at that skip with ceil(count/limit) pages |
| PostHandlers.GetPublicPostsHandler | handlers/post.go:87-138 | 500 iff the limit or the 64-bit skip is negative; otherwise the public feed page at that skip with ceil(count/limit) pages |
| PostHandlers.CreatePostHandler | handlers/post.go:141-214 | 400 for a missing user or content that is blank once trimmed, changing nothing; otherwise stores the trimmed post and its images and replies 201 |
| PostHandlers.CommentRecipient | handlers/post.go:280-312 | without images the parent's owner is notified; with images the user whose id is the parent post's id |
| PostHandlers.CreateChildPostHandler | handlers/post.go:216-326 | checks user, parent and content in that order; stores the comment; notifies the recipient with a comment notification only when the commenter is not the parent's owner, never deduplicated; 201 iff that notification, when due, was sent |
| PostHandlers.DeletePostHandler | handlers/post.go:328-380 | only the post's owner can delete it (200); anyone else, or a missing user or post, is rejected and posts are unchanged |
| PostHandlers.NotifyLike | handlers/post.go:440-464 | when this actor already has like notifications on the post, all of them get the time now and nothing is inserted; otherwise exactly one notification to the owner is sent with up to 3 attempts, and the result is true iff one succeeded |
| Validators.FirstSegment | helpers/helper.go:65-66 | the segment up to the next '@' or the end is the whole domain |
| PostHandlers.LikePostHandler | handlers/post.go:382-493 | an existing like is removed ("unliked post") without touching notifications; otherwise a like is created; for the owner's own post no notification; existing notifications are refreshed to now; else exactly one is sent with retries |
| PostHandlers.BookmarkPostHandler | handlers/post.go:495-570 | creates the bookmark when absent (201), removes it when present (200), and never touches notifications |
| PostHandlers.LikeTwiceRestores | handlers/post.go:416-492 | two like requests on the store: the first replies "liked post" (or 500 when every notification attempt fails), the second "unliked post", and the likes table ends as it began |
| PostHandlers.BookmarkTwiceRestores | handlers/post.go:527-569 | two bookmark requests on the store reply "bookmarked post" then "removed bookmark", and the bookmarks table ends as it began |
| PostHandlers.RefreshKeepsNotification | handlers/post.go:440-452 | every refreshed row is an original row with the same id and fields, apart from the time now |
| UserHandlers.FollowRequestRejection | handlers/user.go:18-58 | the first failing guard, in the code's order: user, receiver, self, public receiver, already following; none iff all pass |
| UserHandlers.FollowRequestHandler | handlers/user.go:18-103 | a rejection changes nothing; otherwise a missing request is created and an existing one removed |
| UserHandlers.FollowUserHandler | handlers/user.go:105-191 | an existing edge is removed whatever the target's privacy; a missing edge to a public target is created; to a private target it is refused and nothing changes |
| UserHandlers.AcceptFollowRequestHandler | handlers/user.go:193-261 | 200 iff both users exist, a request from sender to receiver exists and the edge is new; then the edge is added and the request removed; otherwise nothing changes |
| UserHandlers.FollowRequestTwiceRestores | handlers/user.go:62-102 | two follow-request calls on the store reply "sent follow request" then "removed follow request", and the requests table ends as it began |
| UserHandlers.FollowTwiceRestores | handlers/user.go:146-190 | two follow calls on a public user reply "followed user" then "unfollowed user", and the follow edges end as they began |
| UserHandlers.AccessDenied | handlers/user.go:321 | denied iff the target is private, not followed by the viewer, and not the viewer |
| UserHandlers.ViewRejection | handlers/user.go:289-321 | 400 when either user is missing, the gate's reply when access is denied; none iff both exist and the viewer may see the target |
| UserHandlers.GetUserPostsHandler | handlers/user.go:263-347 | gated listing of the target's top-level posts at the 64-bit skip with ceil(count/limit) pages; no response iff the limit or that skip is negative |
| UserHandlers.GetUserFollowersHandler | handlers/user.go:525-610 | gated listing of the target's followers at the 64-bit skip with ceil(count/limit) pages; 500 iff the limit or that skip is negative |
| UserHandlers.GetUserFollowingsHandler | handlers/user.go:612-697 | gated listing of the target's followings at the 64-bit skip with ceil(count/limit) pages; 500 iff the limit or that skip is negative |
| UserHandlers.UsernameRejection | handlers/user.go:795-815 | empty, shorter than 3 characters, or held by a different user is rejected, each with its message; keeping one's own name is allowed |
| UserHandlers.UpdateUserHandler | handlers/user.go:764-833 | stores the trimmed profile fields for the user when the username rules pass, and changes nothing otherwise |
| UserHandlers.UpdateKeepsUsernamesDistinct | handlers/user.go:805-815 | an update that passes the username rules keeps usernames distinct |
| AuthHandlers.RegistrationRejection | handlers/auth.go:63-105 | the first failing check in the code's order: date parse, all fields, username length, e-mail, password, age 15, active duplicate; none iff all pass |
| AuthHandlers.InactiveAccountDoesNotBlock | handlers/auth.go:95-105 | an inactive account with the same e-mail or username does not block registration |
| AuthHandlers.RegisterUserHandler | handlers/auth.go:50-146 | normalises the fields, rejects with the first failing check and changes nothing; a hashing failure gives 500 and changes nothing; otherwise stores the user and an invitation expiring 72 hours later |
| AuthHandlers.ActivateUserHandler | handlers/auth.go:148-201 | 200 iff an unexpired invitation carries the token, with the activation applied; otherwise users are unchanged |
| AuthHandlers.LoginUserHandler | handlers/auth.go:203-312 | rejects when both identifiers are empty; a non-empty e-mail takes precedence; an unknown account and a wrong password give the same message; success means an active account whose stored hash matches |
| AuthHandlers.LoginIgnoresUsernameGivenEmail | handlers/auth.go:212-265 | with an e-mail given, the username does not change the login's outcome, whatever it is |
| AuthHandlers.ForgotPasswordHandler | handlers/auth.go:395-456 | validates the e-mail, needs an active account, and stores a reset expiring 15 minutes later |
| AuthHandlers.ResetUserPasswordHandler | handlers/auth.go:458-506 | 200 iff the trimmed password is strong, hashing succeeds and an unexpired reset carries the token; only that user's password changes; a hashing failure gives 500 |
| Rel.Update | storage/notificationStore.go:119-127 | every matching row is transformed and every other row is kept, position by position |
| Rel.UniqueSameKey | storage/userStore.go:379-393 | two rows with one key in a uniquely keyed table are the same row |
| Rel.DeleteUndoesInsert | storage/likeStore.go:25-60 | deleting the key of a freshly inserted row gives back the table |
| Rel.JoinOn | storage/postStore.go:368 | joining pairs each left row with the right rows whose key matches |
| Schema.AppendFreshIds | storage/postStore.go:100-115 | appending rows with consecutive fresh ids keeps ids unique and below the counter |

## Left out

- bcrypt hashing and comparison, the JWT, the SHA-256 token hash, UUID generation and cookies are foreign library calls. They appear only as parameters: `hash`, `matches`, `token`, `tokenHash`. Whether bcrypt refuses a given password (current versions refuse more than 72 bytes) depends on the library version, so its failure is the free boolean `hashFails`.
- SMTP delivery and its retry loop (helpers/mail.go) are I/O. Mail failure is one boolean parameter.
- File upload and Cloudinary (handlers/file.go, cloudinary/cloudinary.go) are an external service. Image URLs arrive as a parameter.
- Routing, JSON envelopes and decoding, the health check and the database connection (main.go, handlers/json.go, handlers/handler.go, db/db.go) are plumbing. A body that fails to decode and a path or query parameter that fails to parse are not modelled.
- handlers/likes.go and handlers/bookmarks.go, the liked and bookmarked post lists, GetPostWithMetaDataById and GetMyPostsHandler are thin wrappers around modelled queries, so they are left out. So are the comments, notification, search, profile and request-list handlers. For the liked and bookmarked lists only the visibility gate is modelled, as `UserHandlers.ViewRejection`.
- Concurrency is left out. The get-then-create sequence in every toggle is a race in the code; the model runs sequentially and claims no per-pair atomicity.
- Floats are replaced. The feed weights are scaled to 7/8/5, and `math.Ceil` becomes integer ceiling division.
- PostHandlers.GetPostsHandler: requires `limit != 0`, because the code divides by the limit as a float. Every listing handler has the same requires.
- Database errors other than a broken unique key or a zero row count are left out. The exceptions are the injected insert and mail failures.
- Foreign keys, `ON DELETE` cascades and the schema's column defaults are not part of the source, so the model does not cover them. A new user's privacy is a parameter of the store; a new user starts inactive.
- Queries.ILike: treats the search text as a plain case-insensitive substring. `%` and `_` typed by a user are not wildcards here, and lower-casing covers ASCII letters only.
- Ordering.SortDesc: rows with equal (score, time) keys keep their table order, one fixed tie order. PostgreSQL may break such ties differently from one query to the next, so the page lemmas (`Queries.UserFeedIsSlice`, `Queries.RankedPagesCover`, `Queries.RankedPagesEnd`, `Queries.UserFeedPagesCover`, `Queries.UserFeedPagesEnd`, `Queries.PublicPagesCover`, `Queries.PublicPagesEnd`, `Ordering.PageCovers`, `Ordering.PageCoversRow`) hold only when every request sees the same tie order.
- Text.ToLower: lowers ASCII letters only. Go's `strings.ToLower` lowers every Unicode letter, so two e-mails that differ only in a non-ASCII letter's case match in the code but not in the model.
- UserHandlers.UpdateKeepsUsernamesDistinct: assumes distinct usernames beforehand. The store's user invariant makes only ids unique, and registration may reuse an inactive account's username, so reachable tables need not meet the premise.
- Queries.Followers: the outer query has no `ORDER BY`. The model says which users are on a page, not the order they come in.
- Storage.Store.AcceptFollowRequest: a failed transaction is modelled as rolled back. The code returns without an explicit rollback, so the transaction is abandoned, not committed.
- Storage.Store.CreateChildPost: the images variant, CreateChildPostWithImages, is modelled by `CreatePostWithImages` with a parent id.
- AuthHandlers.LoginUserHandler: the JWT and cookie on success are left out.
- GetAuthUserHandler's missing `return` and LogoutUserHandler are HTTP-response details outside the model.
