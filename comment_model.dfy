/** The Comment schema (models/comment.model.js) and its two counter
    resynchronisers. */
module CommentModel {
  import opened Common

  /** A stored comment. `userId` and `postId` are always written by
      `createComment`, the only code that creates comments. */
  datatype Comment = Comment(
    id: Id,
    content: string,
    userId: Id,
    postId: Id,
    parentId: Option<Id>,
    likes: seq<Id>,
    dislikes: seq<Id>,
    numberOfLikes: int,
    numberOfDislikes: int,
    editedAt: Option<Time>,
    createdAt: Time)

  /** The validator `create` and `save` run: `content` is required. */
  predicate ValidComment(c: Comment) { c.content != "" }

  function CommentCreatedAt(c: Comment): nat { c.createdAt }

  /** `Comment.create({ content, userId, postId })`: rejected without content;
      otherwise no parent, no likes or dislikes, both counters 0, never
      edited. */
  function NewComment(id: Id, content: string, userId: Id, postId: Id, now: Time): (r: Option<Comment>)
    ensures r.Some? <==> content != ""
    ensures r.Some? ==> ValidComment(r.value) && CountsInSync(r.value)
    ensures r.Some? ==> r.value.id == id && r.value.content == content && r.value.userId == userId
                        && r.value.postId == postId && r.value.createdAt == now
    ensures r.Some? ==> r.value.parentId.None? && r.value.editedAt.None?
    ensures r.Some? ==> r.value.likes == [] && r.value.dislikes == []
    ensures r.Some? ==> r.value.numberOfLikes == 0 && r.value.numberOfDislikes == 0
  {
    if content == "" then None
    else Some(Comment(id, content, userId, postId, None, [], [], 0, 0, None, now))
  }

  /** Each counter equals the length of its list. */
  predicate CountsInSync(c: Comment) {
    c.numberOfLikes == |c.likes| && c.numberOfDislikes == |c.dislikes|
  }

  /** The effect of `updateLikesCount` on the document: `numberOfLikes`
      becomes `|likes|`, nothing else changes. */
  function SyncLikesCount(c: Comment): (r: Comment)
    ensures r.numberOfLikes == |r.likes|
    ensures r.(numberOfLikes := c.numberOfLikes) == c
  {
    c.(numberOfLikes := |c.likes|)
  }

  /** The effect of `updateDislikesCount`: `numberOfDislikes` becomes
      `|dislikes|`, nothing else changes. */
  function SyncDislikesCount(c: Comment): (r: Comment)
    ensures r.numberOfDislikes == |r.dislikes|
    ensures r.(numberOfDislikes := c.numberOfDislikes) == c
  {
    c.(numberOfDislikes := |c.dislikes|)
  }

  /** Each resynchroniser is idempotent, it is the identity exactly on a
      comment whose counter already agrees, and running both puts a comment
      in sync. */
  lemma SyncProperties(c: Comment)
    ensures SyncLikesCount(SyncLikesCount(c)) == SyncLikesCount(c)
    ensures SyncDislikesCount(SyncDislikesCount(c)) == SyncDislikesCount(c)
    ensures SyncLikesCount(c) == c <==> c.numberOfLikes == |c.likes|
    ensures SyncDislikesCount(c) == c <==> c.numberOfDislikes == |c.dislikes|
    ensures CountsInSync(SyncDislikesCount(SyncLikesCount(c)))
  {
  }
}
