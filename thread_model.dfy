/**
 * The thread table of a discussion forum: one self-referential entity that is
 * both a top-level post (no parent) and a reply (a parent id), with likes,
 * a soft-delete flag and a creation time.
 *
 * This module holds the rows, the read-side queries over the table, and one
 * pure transition function per mutating operation of the store.  The class in
 * module ThreadStore performs those operations in place and is specified by
 * these functions.
 */
module ThreadModel {

  type Id = nat
  type UserId = nat

  /** One row of the thread table. `replyToId` is None for a top-level post. */
  datatype Thread = Thread(
    id: Id,
    title: Option<string>,
    content: string,
    category: string,
    authorId: UserId,
    createdAt: int,
    likeCount: int,
    likedBy: set<UserId>,
    deleted: bool,
    replyToId: Option<Id>)

  datatype Option<T> = None | Some(value: T)

  /** The errors the store raises itself. */
  datatype Error =
    | NotFound(replyToId: Id)
    | AlreadyLiked(threadId: Id, userId: UserId)
    | NotLiked(threadId: Id, userId: UserId)

  datatype Result<T> = Ok(value: T) | Err(error: Error)

  /** The table, keyed by thread id. */
  type Table = map<Id, Thread>

  /** Every row is stored under its own id. */
  ghost predicate WellFormed(t: Table) {
    forall k :: k in t ==> t[k].id == k
  }

  /** Every row's like counter agrees with the number of users who like it. */
  ghost predicate LikesConsistent(t: Table) {
    forall k :: k in t ==> t[k].likeCount == |t[k].likedBy|
  }

  /** `t'` differs from `t` at most in the row stored under `id`, which both keep. */
  ghost predicate OnlyRowChanged(t: Table, t': Table, id: Id) {
    && t'.Keys == t.Keys
    && forall k :: k in t && k != id ==> t'[k] == t[k]
  }

  /** `after` is `before` with at most its likes changed. */
  ghost predicate SameExceptLikes(before: Thread, after: Thread) {
    after == before.(likeCount := after.likeCount, likedBy := after.likedBy)
  }

  predicate IsPost(thread: Thread) {
    thread.replyToId.None?
  }

  /** Some row of the table names `id` as its parent. */
  predicate HasReplies(t: Table, id: Id) {
    exists k :: k in t && t[k].replyToId == Some(id)
  }

  // ---------------------------------------------------------------------------
  // Read side
  // ---------------------------------------------------------------------------

  /** The row stored under `id`, if any. */
  function GetThreadById(t: Table, id: Id): (r: Option<Thread>)
    requires WellFormed(t)
    ensures r.Some? <==> id in t
    ensures r.Some? ==> r.value.id == id && r.value == t[id]
  {
    if id in t then Some(t[id]) else None
  }

  /** Every row, unfiltered. */
  function GetAllThreads(t: Table): Table {
    t
  }

  /** The top-level posts: the rows without a parent. */
  function GetAllPosts(t: Table): (r: Table)
    ensures forall k :: k in r <==> k in t && IsPost(t[k])
    ensures forall k :: k in r ==> r[k] == t[k]
  {
    map k | k in t && IsPost(t[k]) :: t[k]
  }

  /** The direct children of `id`: the rows whose parent is `id`. */
  function GetRepliesByThread(t: Table, id: Id): (r: Table)
    ensures forall k :: k in r <==> k in t && t[k].replyToId == Some(id)
    ensures forall k :: k in r ==> r[k] == t[k]
  {
    map k | k in t && t[k].replyToId == Some(id) :: t[k]
  }

  /** The number of posts the home page asks for (`take: 2`). */
  const RecentPostsLimit: nat := 2

  function Min(a: nat, b: nat): nat {
    if a <= b then a else b
  }

  /** The ids of all top-level posts. */
  function PostIds(t: Table): (ids: set<Id>)
    ensures ids <= t.Keys
  {
    set k | k in t && IsPost(t[k])
  }

  /**
   * An id in `ids` whose row is at least as new as every other row of `ids`.
   * Among rows with equal `createdAt` the choice is left open.
   */
  ghost function Newest(t: Table, ids: set<Id>): (n: Id)
    requires ids != {} && ids <= t.Keys
    ensures n in ids
    ensures forall k :: k in ids ==> t[k].createdAt <= t[n].createdAt
  {
    var k :| k in ids;
    if ids == {k} then k
    else
      var m := Newest(t, ids - {k});
      if t[k].createdAt <= t[m].createdAt then m else k
  }

  /** `ids` lists distinct ids whose rows run from newest to oldest. */
  ghost predicate NewestFirst(t: Table, ids: seq<Id>)
    requires forall i :: 0 <= i < |ids| ==> ids[i] in t
  {
    && (forall i, j :: 0 <= i < j < |ids| ==> ids[i] != ids[j])
    && (forall i, j :: 0 <= i < j < |ids| ==> t[ids[j]].createdAt <= t[ids[i]].createdAt)
  }

  /**
   * The first `n` ids of `ids` when ordered by `createdAt` descending: as many
   * as there are, up to `n`, newest first, and no id left out is newer than one
   * taken.
   */
  ghost function TakeNewest(t: Table, ids: set<Id>, n: nat): (r: seq<Id>)
    requires ids <= t.Keys
    ensures |r| == Min(n, |ids|)
    ensures forall i :: 0 <= i < |r| ==> r[i] in ids
    ensures NewestFirst(t, r)
    ensures forall k, i :: k in ids && k !in r && 0 <= i < |r| ==> t[k].createdAt <= t[r[i]].createdAt
    decreases n
  {
    if n == 0 || ids == {} then []
    else
      var x := Newest(t, ids);
      var rest := TakeNewest(t, ids - {x}, n - 1);
      assert |ids - {x}| == |ids| - 1;
      PrependNewest(t, ids, x, rest);
      [x] + rest
  }

  /** Putting the newest id of `ids` in front of a newest-first list of the others keeps it newest-first. */
  lemma PrependNewest(t: Table, ids: set<Id>, x: Id, rest: seq<Id>)
    requires ids <= t.Keys && x in ids
    requires forall k :: k in ids ==> t[k].createdAt <= t[x].createdAt
    requires forall i :: 0 <= i < |rest| ==> rest[i] in ids && rest[i] != x
    requires NewestFirst(t, rest)
    requires forall k, i :: k in ids && k != x && k !in rest && 0 <= i < |rest| ==> t[k].createdAt <= t[rest[i]].createdAt
    ensures forall i :: 0 <= i < |[x] + rest| ==> ([x] + rest)[i] in ids
    ensures NewestFirst(t, [x] + rest)
    ensures forall k, i :: k in ids && k !in [x] + rest && 0 <= i < |[x] + rest| ==> t[k].createdAt <= t[([x] + rest)[i]].createdAt
  {
  }

  /** The rows stored under `ids`, in the same order. */
  function Rows(t: Table, ids: seq<Id>): (r: seq<Thread>)
    requires forall i :: 0 <= i < |ids| ==> ids[i] in t
    ensures |r| == |ids| && forall i :: 0 <= i < |ids| ==> r[i] == t[ids[i]]
  {
    if ids == [] then [] else [t[ids[0]]] + Rows(t, ids[1..])
  }

  /**
   * The home page's recent posts: the top-level posts ordered by `createdAt`
   * descending, cut to the first `RecentPostsLimit`.
   */
  ghost function GetMostRecentPosts(t: Table): (r: seq<Thread>)
    requires WellFormed(t)
    ensures |r| == Min(RecentPostsLimit, |PostIds(t)|)
    ensures forall i :: 0 <= i < |r| ==> r[i].id in t && t[r[i].id] == r[i] && IsPost(r[i])
    ensures forall i, j :: 0 <= i < j < |r| ==> r[i].id != r[j].id && r[j].createdAt <= r[i].createdAt
    ensures forall k, i :: k in t && IsPost(t[k]) && t[k] !in r && 0 <= i < |r| ==> t[k].createdAt <= r[i].createdAt
  {
    var ids := TakeNewest(t, PostIds(t), RecentPostsLimit);
    var r := Rows(t, ids);
    assert forall k :: k in t && t[k] !in r ==> k !in ids;
    r
  }

  // ---------------------------------------------------------------------------
  // Write side: one transition function per mutating operation
  // ---------------------------------------------------------------------------

  /** A fresh row as the schema's defaults create it: no likes, not deleted. */
  function NewRow(id: Id, now: int, title: Option<string>, authorId: UserId, content: string,
                  category: string, replyToId: Option<Id>): Thread
  {
    Thread(id, title, content, category, authorId, now, 0, {}, false, replyToId)
  }

  /** createPost: a new top-level row under the fresh id `newId`; a post created without a title has none. */
  function Post(t: Table, newId: Id, now: int, title: Option<string>, authorId: UserId, content: string,
                category: string): (r: Table)
    requires newId !in t
    ensures r.Keys == t.Keys + {newId} && |r| == |t| + 1
    ensures forall k :: k in t ==> r[k] == t[k]
    ensures var c := r[newId];
              && c.id == newId && c.title == title && c.authorId == authorId
              && c.content == content && c.category == category && IsPost(c)
              && c.createdAt == now && c.likeCount == 0 && c.likedBy == {} && !c.deleted
    ensures WellFormed(t) ==> WellFormed(r)
  {
    t[newId := NewRow(newId, now, title, authorId, content, category, None)]
  }

  /**
   * createThread: a reply to `replyToId` under the fresh id `newId`, in the
   * parent's category; NotFound, and no change, when there is no such parent.
   */
  function Reply(t: Table, newId: Id, now: int, authorId: UserId, content: string,
                 replyToId: Id): (r: Result<Table>)
    requires newId !in t
    ensures r.Err? <==> replyToId !in t
    ensures r.Err? ==> r.error == NotFound(replyToId)
    ensures r.Ok? ==> r.value.Keys == t.Keys + {newId} && |r.value| == |t| + 1
    ensures r.Ok? ==> forall k :: k in t ==> r.value[k] == t[k]
    ensures r.Ok? ==> var c := r.value[newId];
              && c.id == newId && c.replyToId == Some(replyToId) && c.authorId == authorId
              && c.content == content && c.category == t[replyToId].category && c.title.None?
              && c.createdAt == now && c.likeCount == 0 && c.likedBy == {} && !c.deleted
    ensures WellFormed(t) && r.Ok? ==> WellFormed(r.value)
  {
    if replyToId !in t then Err(NotFound(replyToId))
    else
      var parent := t[replyToId];
      Ok(t[newId := NewRow(newId, now, None, authorId, content, parent.category, Some(replyToId))])
  }

  /**
   * likeThread: AlreadyLiked when `userId` already likes the thread; otherwise
   * one more like, counted and recorded, and nothing else changes.
   */
  function Like(t: Table, threadId: Id, userId: UserId): (r: Result<Table>)
    requires threadId in t
    ensures r.Err? <==> userId in t[threadId].likedBy
    ensures r.Err? ==> r.error == AlreadyLiked(threadId, userId)
    ensures r.Ok? ==> OnlyRowChanged(t, r.value, threadId)
    ensures r.Ok? ==> var before, after := t[threadId], r.value[threadId];
              && after.likeCount == before.likeCount + 1
              && after.likedBy == before.likedBy + {userId}
              && SameExceptLikes(before, after)
    ensures WellFormed(t) && r.Ok? ==> WellFormed(r.value)
  {
    var thread := t[threadId];
    if userId in thread.likedBy then Err(AlreadyLiked(threadId, userId))
    else Ok(t[threadId := thread.(likeCount := thread.likeCount + 1,
                                  likedBy := thread.likedBy + {userId})])
  }

  /**
   * unlikeThread: NotLiked when `userId` does not like the thread; otherwise
   * one like fewer, counted and recorded, and nothing else changes.
   */
  function Unlike(t: Table, threadId: Id, userId: UserId): (r: Result<Table>)
    requires threadId in t
    ensures r.Err? <==> userId !in t[threadId].likedBy
    ensures r.Err? ==> r.error == NotLiked(threadId, userId)
    ensures r.Ok? ==> OnlyRowChanged(t, r.value, threadId)
    ensures r.Ok? ==> var before, after := t[threadId], r.value[threadId];
              && after.likeCount == before.likeCount - 1
              && after.likedBy == before.likedBy - {userId}
              && SameExceptLikes(before, after)
    ensures WellFormed(t) && r.Ok? ==> WellFormed(r.value)
  {
    var thread := t[threadId];
    if userId !in thread.likedBy then Err(NotLiked(threadId, userId))
    else Ok(t[threadId := thread.(likeCount := thread.likeCount - 1,
                                  likedBy := thread.likedBy - {userId})])
  }

  /**
   * deleteThread: a post, or a reply nobody answered, loses its row; a reply
   * that has replies keeps its row with the `deleted` flag flipped.
   */
  function Delete(t: Table, id: Id): (r: Table)
    requires id in t
    ensures id in r <==> !IsPost(t[id]) && HasReplies(t, id)
    ensures id in r ==> r[id] == t[id].(deleted := !t[id].deleted)
    ensures r.Keys - {id} == t.Keys - {id}
    ensures forall k :: k in t && k != id ==> k in r && r[k] == t[k]
    ensures WellFormed(t) ==> WellFormed(r)
  {
    var thread := t[id];
    if IsPost(thread) then t - {id}
    else if HasReplies(t, id) then t[id := thread.(deleted := !thread.deleted)]
    else t - {id}
  }
}
