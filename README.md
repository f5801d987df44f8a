# Thread store of a forum back end, in Dafny

This project models the thread store of a forum and project-sharing back end. In the
original program that store is `src/models/threadModel.js`. It keeps one self-referential
entity, the *thread*. A thread with no parent (`replyToId` null) is a top-level *post*.
A thread with a parent is a *reply*. A thread's replies are the rows whose `replyToId` is
its id. Every row carries content, a category, an author, a creation time, a like counter
with the set of users who like it, and a soft-delete flag.

The relational store behind the original program is modelled as a map from thread id to
row (`ThreadModel.Table`). The project has three modules:

- `ThreadModel` (thread_model.dfy) holds the row type, the error kinds and the read-side
  queries. These are `getThreadById`, `getAllThreads`, `getAllPosts`, `getRepliesByThread`
  and `getMostRecentPosts`. It also holds one pure transition function per write:
  `Post`, `Reply`, `Like`, `Unlike` and `Delete`. Each one states what the write does to
  the table.
- `ThreadStore` (thread_store.dfy) holds the class `Store`. Its `table` field is updated
  in place by the methods `CreatePost`, `CreateThread`, `LikeThread`, `UnlikeThread` and
  `DeleteThread`. Each method other than `CreatePost` reads the row, branches on the same
  guard as the original and writes. Each one is proved to leave exactly the table its
  transition function gives, and to keep the store's invariant: every row is stored under
  its own id, and every row's `likeCount` equals the number of its likers. The module also has two client scenarios that run these methods on a fresh store.
- `ThreadProperties` (thread_properties.dfy) holds the lemmas that relate several
  operations. Like and unlike undo each other. The like counter stays equal to the number
  of likers. Deleting a reply that has replies twice restores it. The module also says
  what the queries show after a write.

Errors the original program throws become `Err` values of type `Result`. They are
`NotFound(replyToId)` when a reply's parent is missing, `AlreadyLiked(threadId, userId)`
and `NotLiked(threadId, userId)`.

The inputs the database supplies itself are handled as follows:

- A new row's id comes from the store's `nextId` counter. This is an autoincrement key;
  the schema is not part of this model.
- A new row's creation time is the parameter `now`.
- A new row starts with `likeCount` 0, `likedBy` empty and `deleted` false. A reply has no
  title. These are the schema defaults the writes rely on.

Two places where the code does less, or other, than its names suggest.

- `createThread` fetches the parent without its tags (src/models/threadModel.js:113-117).
  So `tags: thread.tags` on line 129 does not copy the parent's tags. The model copies
  only the category and makes no claim about tags.
- `deleteThread` negates `deleted` (line 235) rather than setting it to true. The model
  keeps this toggle, and `SoftDeleteTwiceRestores` proves its consequence.

## Model

| member | source | states |
|---|---|---|
| `ThreadModel.GetThreadById` | src/models/threadModel.js:55-59 | finds a row exactly when the id is in the table, and the row returned carries that id |
| `ThreadModel.GetAllPosts` | src/models/threadModel.js:24-28 | keeps exactly the rows whose `replyToId` is null, unchanged |
| `ThreadModel.GetRepliesByThread` | src/models/threadModel.js:47-53 | keeps exactly the rows whose `replyToId` is the given id, unchanged |
| `ThreadModel.Newest` | src/models/threadModel.js:297-299 | picks an id of the set whose `createdAt` is not older than any other in the set |
| `ThreadModel.TakeNewest` | src/models/threadModel.js:297-300 | returns min(n, size) distinct ids of the set, newest first, and no id left out is newer than one taken |
| `ThreadModel.GetMostRecentPosts` | src/models/threadModel.js:290-311 | returns min(2, number of posts) rows, all of them stored top-level rows. They are distinct and ordered by `createdAt` descending, and no post left out is newer than one returned |
| `ThreadModel.Post` | src/models/threadModel.js:93-110 | adds exactly one row under a fresh id. The row is top-level with the given title (or none when the caller gives none), author, content and category, and has no likes. Other rows are unchanged |
| `ThreadModel.Reply` | src/models/threadModel.js:112-130 | fails with NotFound, changing nothing, exactly when the parent is missing. Otherwise adds exactly one row that replies to the parent, has the given author and content and the parent's category, and has no title and no likes. Other rows are unchanged |
| `ThreadModel.Like` | src/models/threadModel.js:154-181 | fails with AlreadyLiked exactly when the user already likes the thread. Otherwise adds 1 to that thread's `likeCount` and adds the user to its `likedBy`. No other field and no other row changes |
| `ThreadModel.Unlike` | src/models/threadModel.js:183-210 | fails with NotLiked exactly when the user does not like the thread. Otherwise takes 1 from `likeCount` and removes the user from `likedBy`. No other field and no other row changes |
| `ThreadModel.Delete` | src/models/threadModel.js:212-246 | the row stays exactly when it is a reply with at least one reply. Then only its `deleted` flag is negated. Every other row is unchanged |
| `ThreadStore.Store.CreatePost` | src/models/threadModel.js:93-110 | inserts the row `Post` describes under the next id and returns it |
| `ThreadStore.Store.CreateThread` | src/models/threadModel.js:112-152 | leaves the table `Reply` gives and returns the new row, or returns NotFound with table and counter unchanged |
| `ThreadStore.Store.LikeThread` | src/models/threadModel.js:154-181 | leaves the table `Like` gives and returns the updated row, or returns AlreadyLiked with the table unchanged |
| `ThreadStore.Store.UnlikeThread` | src/models/threadModel.js:183-210 | leaves the table `Unlike` gives and returns the updated row, whose counter is never negative, or returns NotLiked with the table unchanged |
| `ThreadStore.Store.DeleteThread` | src/models/threadModel.js:212-246 | leaves the table `Delete` gives. Returns the removed row, or the row with its flag flipped |
| `ThreadStore.ReplyToPostScenario` | src/models/threadModel.js:93-152 | on a fresh store, a reply to a new post in category "general" succeeds, is in "general" and answers that post |
| `ThreadStore.LikeTwiceScenario` | src/models/threadModel.js:154-210 | on a fresh store, the first like succeeds and the second is refused with AlreadyLiked. The first unlike succeeds and leaves no likes, and the second is refused with NotLiked |
| `ThreadProperties.LikeThenUnlikeRestores` | src/models/threadModel.js:168-209 | a like followed by an unlike by the same user gives back exactly the original table |
| `ThreadProperties.UnlikeThenLikeRestores` | src/models/threadModel.js:168-209 | an unlike followed by a like by the same user gives back exactly the original table |
| `ThreadProperties.LikeTwiceFails` | src/models/threadModel.js:164-166 | after any like, a second like by the same user fails with AlreadyLiked |
| `ThreadProperties.UnlikeTwiceFails` | src/models/threadModel.js:193-195 | after any unlike, a second unlike by the same user fails with NotLiked |
| `ThreadProperties.LikePreservesLikesConsistent` | src/models/threadModel.js:168-180 | a successful like keeps `likeCount` equal to the size of `likedBy` on every row when it held before |
| `ThreadProperties.UnlikePreservesLikesConsistent` | src/models/threadModel.js:197-209 | a successful unlike keeps `likeCount` equal to the size of `likedBy` on every row when it held before |
| `ThreadProperties.UnlikeNeverGoesNegative` | src/models/threadModel.js:193-204 | while the counter agrees with the likers, a successful unlike starts from at least one like (the guard puts the user among the likers), so the decremented counter is never negative |
| `ThreadProperties.PostPreservesLikesConsistent` | src/models/threadModel.js:94-109 | creating a post keeps `likeCount` equal to the size of `likedBy` on every row |
| `ThreadProperties.ReplyPreservesLikesConsistent` | src/models/threadModel.js:123-130 | creating a reply keeps `likeCount` equal to the size of `likedBy` on every row |
| `ThreadProperties.DeletePreservesLikesConsistent` | src/models/threadModel.js:212-246 | deleting keeps `likeCount` equal to the size of `likedBy` on every row |
| `ThreadProperties.HardDeleteRemovesRow` | src/models/threadModel.js:222-244 | deleting a post, or a reply with no replies, removes exactly that row |
| `ThreadProperties.SoftDeleteTwiceRestores` | src/models/threadModel.js:229-237 | deleting a reply that has replies keeps its row and flips `deleted`. Deleting it again restores the original table |
| `ThreadProperties.SoftDeleteKeepsReplies` | src/models/threadModel.js:229-237 | after a soft delete the row is still there and has the same replies as before |
| `ThreadProperties.HasRepliesIffRepliesQueryNonEmpty` | src/models/threadModel.js:217-229 | the delete guard (`replies.length`) holds exactly when the replies query for that id is not empty |
| `ThreadProperties.PostsAndRepliesCoverTable` | src/models/threadModel.js:4-53 | the posts query and the replies queries of all parents split the whole table: every row is in one of them (a reply in its own parent's), no post is among any replies, and no row is among the replies of two different parents |
| `ThreadProperties.ReplyJoinsParentsReplies` | src/models/threadModel.js:112-130 | after a reply is created, its parent's replies are the old ones plus the new row, and the list of posts is unchanged |
| `ThreadProperties.ReplyToNewPostInheritsCategory` | src/models/threadModel.js:93-130 | a reply to a new post in category "general" succeeds and is in category "general" |
| `ThreadProperties.NewestPostListedFirst` | src/models/threadModel.js:290-300 | a post created later than every other thread is the first of the recent posts |

## Left out

- Users are not modelled. Every `userId` and `authorId` is assumed to name an existing
  user; the caller's authentication supplies them. A like, post or reply that names an
  unknown user fails in the database, on the `likedBy` connect or the author foreign key
  (src/models/threadModel.js:97, 125, 176-178). That failure is not modelled: `Like`,
  `Post` and `Reply` return `Ok` for any user id.
- Like: returns `Ok` even when `userId` names no user. The original fails on the `likedBy` connect; users are not modelled.
- Post: returns the new table even when `authorId` names no user. The original fails on the author foreign key.
- Reply: returns `Ok` when the parent exists, even when `authorId` names no user. The original fails on the author foreign key.
- `getAllThreads` is the whole table (`ThreadModel.GetAllThreads`), so it has no contract
  of its own. `PostsAndRepliesCoverTable` is stated over it.
- Relation includes (author with profile, likers, replies two levels deep, tags) only
  shape what a query returns. The queries return the rows themselves.
- Tags are left out. This covers the `connectOrCreate` upsert by name in `createPost`,
  which works on a Tag table whose schema is not part of this model. It also covers tag
  inheritance in `createThread`, which the code does not do (see above).
- `deleteReply` (src/models/threadModel.js:256-287) is left out. It fetches the row
  without its replies, so `thread.replies.length` reads a field that was never loaded. It
  does not behave like `deleteThread`, and what it does depends on the client library.
- A hard delete removes that single row only. Cascades, and what happens to the replies
  of a deleted post, depend on a schema that is not part of this model.
- `LikeThread`, `UnlikeThread` and `DeleteThread` require the thread to exist. When it is
  missing, the original dereferences a null row and fails with a type error; no store
  error is defined for that case.
- Ties in `createdAt` among the most recent posts: the database's order among equal
  timestamps is unspecified, and so is the model's (`Newest` picks any of them).
- Counters and ids are unbounded integers; the 32-bit range of the database column is
  not modelled.
- The read-then-write sequences are not transactional in the original, so concurrent
  requests can race. The model is sequential.
- Logging, error-message text, and wrapping a failed recent-posts query into a generic
  error (src/models/threadModel.js:312-315) are left out. Failures of the database itself
  are not modelled.
- The project controller (src/controllers/projectController.js) is HTTP plumbing around a
  project store that is not part of this model.
