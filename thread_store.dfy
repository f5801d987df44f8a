/**
 * The thread store as the program runs it: one shared table that each write
 * operation reads a row of, branches on, and then updates in place.  Every
 * method is specified by the matching transition function of ThreadModel.
 */
module ThreadStore {
  import opened ThreadModel

  class Store {
    /** The thread table. */
    var table: Table
    /** The id the database hands out to the next row it inserts. */
    var nextId: Id

    ghost predicate Valid()
      reads this
    {
      && WellFormed(table)
      && LikesConsistent(table)
      && forall k :: k in table ==> k < nextId
    }

    /** An empty table. */
    constructor ()
      ensures Valid() && table == map[] && nextId == 1
    {
      table := map[];
      nextId := 1;
    }

    /** createPost: inserts a top-level thread. */
    method CreatePost(title: Option<string>, authorId: UserId, content: string, category: string, now: int)
      returns (r: Thread)
      requires Valid()
      modifies this
      ensures Valid()
      ensures nextId == old(nextId) + 1
      ensures table == Post(old(table), old(nextId), now, title, authorId, content, category)
      ensures r == table[old(nextId)]
    {
      r := NewRow(nextId, now, title, authorId, content, category, None);
      table := table[nextId := r];
      nextId := nextId + 1;
    }

    /** createThread: inserts a reply to `replyToId`, or fails when that thread is missing. */
    method CreateThread(authorId: UserId, content: string, replyToId: Id, now: int)
      returns (r: Result<Thread>)
      requires Valid()
      modifies this
      ensures Valid()
      ensures match Reply(old(table), old(nextId), now, authorId, content, replyToId)
                case Ok(t') => table == t' && nextId == old(nextId) + 1 && r == Ok(table[old(nextId)])
                case Err(e) => table == old(table) && nextId == old(nextId) && r == Err(e)
    {
      if replyToId !in table {
        return Err(NotFound(replyToId));
      }
      var parent := table[replyToId];
      var row := NewRow(nextId, now, None, authorId, content, parent.category, Some(replyToId));
      table := table[nextId := row];
      nextId := nextId + 1;
      r := Ok(row);
    }

    /** likeThread: records a like by `userId`, or fails when that user already likes the thread. */
    method LikeThread(threadId: Id, userId: UserId) returns (r: Result<Thread>)
      requires Valid() && threadId in table
      modifies this
      ensures Valid() && nextId == old(nextId)
      ensures match Like(old(table), threadId, userId)
                case Ok(t') => table == t' && r == Ok(table[threadId])
                case Err(e) => table == old(table) && r == Err(e)
    {
      var thread := table[threadId];
      if userId in thread.likedBy {
        return Err(AlreadyLiked(threadId, userId));
      }
      var updated := thread.(likeCount := thread.likeCount + 1, likedBy := thread.likedBy + {userId});
      table := table[threadId := updated];
      r := Ok(updated);
    }

    /** unlikeThread: withdraws a like by `userId`, or fails when that user does not like the thread. */
    method UnlikeThread(threadId: Id, userId: UserId) returns (r: Result<Thread>)
      requires Valid() && threadId in table
      modifies this
      ensures Valid() && nextId == old(nextId)
      ensures match Unlike(old(table), threadId, userId)
                case Ok(t') => table == t' && r == Ok(table[threadId])
                case Err(e) => table == old(table) && r == Err(e)
      ensures r.Ok? ==> r.value.likeCount >= 0
    {
      var thread := table[threadId];
      if userId !in thread.likedBy {
        return Err(NotLiked(threadId, userId));
      }
      var updated := thread.(likeCount := thread.likeCount - 1, likedBy := thread.likedBy - {userId});
      table := table[threadId := updated];
      r := Ok(updated);
    }

    /**
     * deleteThread: removes a post or a reply without replies, and returns the
     * removed row; flips `deleted` on a reply with replies, and returns the
     * updated row.
     */
    method DeleteThread(id: Id) returns (r: Thread)
      requires Valid() && id in table
      modifies this
      ensures Valid() && nextId == old(nextId)
      ensures table == Delete(old(table), id)
      ensures r == if id in table then table[id] else old(table)[id]
    {
      var thread := table[id];
      if thread.replyToId == None {
        table := table - {id};
        r := thread;
      } else {
        if HasReplies(table, id) {
          r := thread.(deleted := !thread.deleted);
          table := table[id := r];
        } else {
          table := table - {id};
          r := thread;
        }
      }
    }
  }

  /**
   * Create a post in category "general" and reply to it on a fresh store: the
   * reply succeeds, is in category "general" and answers the post.
   */
  method ReplyToPostScenario(authorId: UserId, now: int) returns (post: Thread, reply: Result<Thread>)
    ensures IsPost(post) && post.category == "general"
    ensures reply.Ok? && reply.value.category == "general" && reply.value.replyToId == Some(post.id)
  {
    var store := new Store();
    post := store.CreatePost(Some("T"), authorId, "C", "general", now);
    reply := store.CreateThread(authorId, "R", post.id, now);
  }

  /**
   * Like a new post twice as the same user, then unlike it twice: the second
   * like and the second unlike are refused, and the post ends with no likes.
   */
  method LikeTwiceScenario(authorId: UserId, userId: UserId, now: int)
    returns (first: Result<Thread>, second: Result<Thread>, undo: Result<Thread>, again: Result<Thread>)
    ensures first.Ok? && first.value.likeCount == 1 && first.value.likedBy == {userId}
    ensures second.Err? && second.error.AlreadyLiked?
    ensures undo.Ok? && undo.value.likeCount == 0 && undo.value.likedBy == {}
    ensures again.Err? && again.error.NotLiked?
  {
    var store := new Store();
    var post := store.CreatePost(Some("T"), authorId, "C", "general", now);
    first := store.LikeThread(post.id, userId);
    second := store.LikeThread(post.id, userId);
    undo := store.UnlikeThread(post.id, userId);
    again := store.UnlikeThread(post.id, userId);
  }
}
