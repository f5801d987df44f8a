/**
 * Properties that relate several operations of the thread store: like and
 * unlike undo each other, the like counter stays in step with the likers,
 * the soft-delete toggle undoes itself, and what the queries see after a
 * write.
 */
module ThreadProperties {
  import opened ThreadModel

  // ---------------------------------------------------------------------------
  // Likes
  // ---------------------------------------------------------------------------

  /** A like followed by an unlike by the same user restores the table exactly. */
  lemma LikeThenUnlikeRestores(t: Table, threadId: Id, userId: UserId)
    requires threadId in t && userId !in t[threadId].likedBy
    ensures Like(t, threadId, userId).Ok?
    ensures Unlike(Like(t, threadId, userId).value, threadId, userId) == Ok(t)
  {
    var liked := Like(t, threadId, userId).value;
    var back := Unlike(liked, threadId, userId).value;
    assert liked[threadId].likedBy - {userId} == t[threadId].likedBy;
    assert back[threadId] == t[threadId];
    assert back == t;
  }

  /** An unlike followed by a like by the same user restores the table exactly. */
  lemma UnlikeThenLikeRestores(t: Table, threadId: Id, userId: UserId)
    requires threadId in t && userId in t[threadId].likedBy
    ensures Unlike(t, threadId, userId).Ok?
    ensures Like(Unlike(t, threadId, userId).value, threadId, userId) == Ok(t)
  {
    var unliked := Unlike(t, threadId, userId).value;
    var back := Like(unliked, threadId, userId).value;
    assert unliked[threadId].likedBy + {userId} == t[threadId].likedBy;
    assert back[threadId] == t[threadId];
    assert back == t;
  }

  /** Whatever the first like did, a second like by the same user is refused. */
  lemma LikeTwiceFails(t: Table, threadId: Id, userId: UserId)
    requires threadId in t
    ensures var t' := match Like(t, threadId, userId) case Ok(v) => v case Err(_) => t;
            Like(t', threadId, userId) == Err(AlreadyLiked(threadId, userId))
  {
  }

  /** Whatever the first unlike did, a second unlike by the same user is refused. */
  lemma UnlikeTwiceFails(t: Table, threadId: Id, userId: UserId)
    requires threadId in t
    ensures var t' := match Unlike(t, threadId, userId) case Ok(v) => v case Err(_) => t;
            Unlike(t', threadId, userId) == Err(NotLiked(threadId, userId))
  {
  }

  lemma LikePreservesLikesConsistent(t: Table, threadId: Id, userId: UserId)
    requires threadId in t && LikesConsistent(t)
    ensures Like(t, threadId, userId).Ok? ==> LikesConsistent(Like(t, threadId, userId).value)
  {
  }

  lemma UnlikePreservesLikesConsistent(t: Table, threadId: Id, userId: UserId)
    requires threadId in t && LikesConsistent(t)
    ensures Unlike(t, threadId, userId).Ok? ==> LikesConsistent(Unlike(t, threadId, userId).value)
  {
  }

  /**
   * While the counter agrees with the likers, a successful unlike starts from
   * at least one like, so its decrement never takes the counter below zero.
   */
  lemma UnlikeNeverGoesNegative(t: Table, threadId: Id, userId: UserId)
    requires threadId in t && LikesConsistent(t) && Unlike(t, threadId, userId).Ok?
    ensures t[threadId].likeCount >= 1
    ensures Unlike(t, threadId, userId).value[threadId].likeCount >= 0
  {
    assert userId in t[threadId].likedBy;
  }

  lemma PostPreservesLikesConsistent(t: Table, newId: Id, now: int, title: Option<string>, authorId: UserId,
                                     content: string, category: string)
    requires newId !in t && LikesConsistent(t)
    ensures LikesConsistent(Post(t, newId, now, title, authorId, content, category))
  {
  }

  lemma ReplyPreservesLikesConsistent(t: Table, newId: Id, now: int, authorId: UserId,
                                      content: string, replyToId: Id)
    requires newId !in t && LikesConsistent(t)
    ensures Reply(t, newId, now, authorId, content, replyToId).Ok? ==>
              LikesConsistent(Reply(t, newId, now, authorId, content, replyToId).value)
  {
  }

  lemma DeletePreservesLikesConsistent(t: Table, id: Id)
    requires id in t && LikesConsistent(t)
    ensures LikesConsistent(Delete(t, id))
  {
  }

  // ---------------------------------------------------------------------------
  // Deletion
  // ---------------------------------------------------------------------------

  /** Deleting a post, or a reply nobody answered, removes that one row and nothing else. */
  lemma HardDeleteRemovesRow(t: Table, id: Id)
    requires id in t && (IsPost(t[id]) || !HasReplies(t, id))
    ensures Delete(t, id) == t - {id}
  {
  }

  /**
   * Deleting a reply that has replies keeps its row, changes only its
   * `deleted` flag, and deleting it again restores the original flag.
   */
  lemma SoftDeleteTwiceRestores(t: Table, id: Id)
    requires id in t && !IsPost(t[id]) && HasReplies(t, id)
    ensures id in Delete(t, id)
    ensures Delete(t, id)[id].deleted == !t[id].deleted
    ensures Delete(Delete(t, id), id) == t
  {
  }

  /**
   * A soft delete keeps every reply of the thread pointing at a row that is
   * still in the table.
   */
  lemma SoftDeleteKeepsReplies(t: Table, id: Id)
    requires id in t && !IsPost(t[id]) && HasReplies(t, id)
    ensures id in Delete(t, id)
    ensures GetRepliesByThread(Delete(t, id), id).Keys == GetRepliesByThread(t, id).Keys
  {
  }

  // ---------------------------------------------------------------------------
  // Queries after writes
  // ---------------------------------------------------------------------------

  /** The delete guard agrees with the replies query: a thread has replies when that query is not empty. */
  lemma HasRepliesIffRepliesQueryNonEmpty(t: Table, id: Id)
    ensures HasReplies(t, id) <==> GetRepliesByThread(t, id) != map[]
  {
  }

  /**
   * The posts query and the replies queries of all parents split the whole
   * table: every row is in one of them, and no row is in two.
   */
  lemma PostsAndRepliesCoverTable(t: Table)
    ensures forall k :: k in GetAllThreads(t) ==>
              k in GetAllPosts(t) || (t[k].replyToId.Some? && k in GetRepliesByThread(t, t[k].replyToId.value))
    ensures forall k, p :: k in GetAllPosts(t) ==> k !in GetRepliesByThread(t, p)
    ensures forall k, p, q :: k in GetRepliesByThread(t, p) && k in GetRepliesByThread(t, q) ==> p == q
  {
  }

  /**
   * A new reply shows up among its parent's replies, and the list of posts
   * does not change.
   */
  lemma ReplyJoinsParentsReplies(t: Table, newId: Id, now: int, authorId: UserId,
                                 content: string, replyToId: Id)
    requires newId !in t && replyToId in t
    ensures var r := Reply(t, newId, now, authorId, content, replyToId);
            && r.Ok?
            && GetRepliesByThread(r.value, replyToId) == GetRepliesByThread(t, replyToId)[newId := r.value[newId]]
            && GetAllPosts(r.value) == GetAllPosts(t)
  {
  }

  /**
   * Create a post in category "general", then reply to it: the reply is in
   * category "general" too.
   */
  lemma ReplyToNewPostInheritsCategory(t: Table, postId: Id, replyId: Id, now: int, authorId: UserId)
    requires postId !in t && replyId !in t && replyId != postId
    ensures var posted := Post(t, postId, now, Some("T"), authorId, "C", "general");
            var replied := Reply(posted, replyId, now, authorId, "R", postId);
            && replied.Ok?
            && replied.value[replyId].category == "general"
            && replied.value[replyId].replyToId == Some(postId)
  {
  }

  /** A post created after every thread in the table comes first among the recent posts. */
  lemma NewestPostListedFirst(t: Table, newId: Id, now: int, title: Option<string>, authorId: UserId,
                              content: string, category: string)
    requires WellFormed(t) && newId !in t
    requires forall k :: k in t ==> t[k].createdAt < now
    ensures var recent := GetMostRecentPosts(Post(t, newId, now, title, authorId, content, category));
            |recent| > 0 && recent[0].id == newId
  {
    var t' := Post(t, newId, now, title, authorId, content, category);
    assert newId in PostIds(t');
    assert forall k :: k in t' && k != newId ==> t'[k].createdAt < t'[newId].createdAt;
  }
}
