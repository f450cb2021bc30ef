/** The handlers of controllers/comment.controller.js over the store. */
module CommentController {
  import opened Common
  import opened BlogModel
  import opened CommentModel
  import opened Database
  import opened Sorting
  import opened BlogController

  // ---------------------------------------------------------------- create

  /** `createComment`: 400 without content, 404 for an unknown blog;
      otherwise a new comment is stored and its id appended to the blog's
      `comments`. The comment is created before the blog is saved, so when
      `blog.save()` rejects the blog (500) the comment stays, unlinked. */
  method CreateComment(db: Db, postId: Id, userId: Id, content: Option<string>, now: Time)
    returns (reply: Response, comment: Option<Comment>)
    requires db.Valid()
    modifies db`blogs, db`comments, db`nextId
    ensures db.Valid()
    ensures !Truthy(content) ==>
              reply == Response(400, "Text is required") && comment.None? && unchanged(db)
    ensures Truthy(content) && FindBlog(old(db.blogs), postId).None? ==>
              reply == Response(404, "Blog not found") && comment.None? && unchanged(db)
    ensures Truthy(content) && FindBlog(old(db.blogs), postId).Some? ==>
              var i := FindBlog(old(db.blogs), postId).value;
              var c := NewComment(old(db.nextId), content.value, userId, postId, now).value;
              var linked := old(db.blogs)[i].(comments := old(db.blogs)[i].comments + [c.id]);
              && db.comments == old(db.comments) + [c]
              && db.nextId == old(db.nextId) + 1
              && if ValidBlog(linked) then
                   reply == Response(201, "Comment added successfully") && comment == Some(c)
                   && db.blogs == old(db.blogs)[i := linked]
                 else
                   reply == Response(500, "Failed to create comment") && comment.None?
                   && db.blogs == old(db.blogs)
  {
    if !Truthy(content) {
      return Response(400, "Text is required"), None;
    }
    var found := FindBlog(db.blogs, postId);
    if found.None? {
      return Response(404, "Blog not found"), None;
    }
    var i := found.value;
    var c := NewComment(db.nextId, content.value, userId, postId, now).value;
    db.AddComment(c);
    var blog := db.blogs[i];
    blog := blog.(comments := blog.comments + [c.id]);
    if !ValidBlog(blog) {
      return Response(500, "Failed to create comment"), None;
    }
    assert db.blogs[i] in db.blogs;
    db.SetBlog(i, blog);
    reply, comment := Response(201, "Comment added successfully"), Some(c);
  }

  // ---------------------------------------------------------------- read

  function OnPost(postId: Id): Comment -> bool {
    (c: Comment) => c.postId == postId
  }

  /** `getCommentsOfPost`: exactly the comments on that blog, each as often
      as it is stored, newest first. */
  function GetCommentsOfPost(comments: seq<Comment>, blogId: Id): (r: seq<Comment>)
    ensures NewestFirst(r, CommentCreatedAt)
    ensures forall c :: multiset(r)[c] == if c.postId == blogId then multiset(comments)[c] else 0
    ensures forall c :: c in r <==> c in comments && c.postId == blogId
  {
    var onPost := Filter(comments, OnPost(blogId));
    FilterCount(comments, OnPost(blogId));
    var r := SortNewestFirst(onPost, CommentCreatedAt);
    assert forall c :: c in r <==> c in multiset(onPost);
    r
  }

  // ---------------------------------------------------------------- delete

  /** `Blog.findByIdAndUpdate(postId, { $pull: { comments: commentId } })`:
      the blog with that id (if any) loses every occurrence of the comment id;
      every other blog is untouched. */
  function PullComment(blogs: seq<Blog>, postId: Id, commentId: Id): (r: seq<Blog>)
    ensures |r| == |blogs|
    ensures forall j :: 0 <= j < |blogs| && FindBlog(blogs, postId) != Some(j) ==> r[j] == blogs[j]
    ensures FindBlog(blogs, postId).Some? ==>
              var j := FindBlog(blogs, postId).value;
              r[j] == blogs[j].(comments := Without(blogs[j].comments, commentId))
              && commentId !in r[j].comments
    ensures FindBlog(blogs, postId).None? ==> r == blogs
  {
    match FindBlog(blogs, postId)
    case None => blogs
    case Some(j) => blogs[j := blogs[j].(comments := Without(blogs[j].comments, commentId))]
  }

  /** `deleteComment`: 404 for an unknown id, 403 unless the caller wrote it;
      otherwise the comment is removed and pulled from its blog's list. */
  method DeleteComment(db: Db, commentId: Id, reqId: Option<Id>) returns (reply: Response)
    requires db.Valid()
    modifies db`blogs, db`comments
    ensures db.Valid()
    ensures FindComment(old(db.comments), commentId).None? ==>
              reply == Response(404, "Comment not found") && unchanged(db)
    ensures FindComment(old(db.comments), commentId).Some? ==>
              var k := FindComment(old(db.comments), commentId).value;
              var c := old(db.comments)[k];
              if reqId != Some(c.userId) then
                reply == Response(403, "Unauthorized to delete this comment") && unchanged(db)
              else
                && reply == Response(200, "Comment deleted successfully")
                && db.comments == RemoveAt(old(db.comments), k)
                && db.blogs == PullComment(old(db.blogs), c.postId, commentId)
  {
    var found := FindComment(db.comments, commentId);
    if found.None? {
      return Response(404, "Comment not found");
    }
    var k := found.value;
    var c := db.comments[k];
    if reqId != Some(c.userId) {
      return Response(403, "Unauthorized to delete this comment");
    }
    db.RemoveComment(k);
    var parent := FindBlog(db.blogs, c.postId);
    if parent.Some? {
      var j := parent.value;
      var blog := db.blogs[j];
      assert blog in db.blogs;
      db.SetBlog(j, blog.(comments := Without(blog.comments, commentId)));
    }
    reply := Response(200, "Comment deleted successfully");
  }

  // ---------------------------------------------------------------- edit

  /** `editComment`: 404 for an unknown id, 403 unless the caller wrote it,
      500 when the new content is missing or empty (`save` enforces
      `required`); otherwise the content is replaced and `editedAt` set, and
      the likes, dislikes and counters stay as they were. */
  method EditComment(db: Db, commentId: Id, reqId: Option<Id>, content: Option<string>, now: Time)
    returns (reply: Response, comment: Option<Comment>)
    requires db.Valid()
    modifies db`comments
    ensures db.Valid()
    ensures FindComment(old(db.comments), commentId).None? ==>
              reply == Response(404, "Comment not found") && comment.None? && unchanged(db)
    ensures FindComment(old(db.comments), commentId).Some? ==>
              var k := FindComment(old(db.comments), commentId).value;
              var c := old(db.comments)[k];
              if reqId != Some(c.userId) then
                reply == Response(403, "Unauthorized to edit this comment") && comment.None? && unchanged(db)
              else if !Truthy(content) then
                reply == Response(500, "Failed to edit comment") && comment.None? && unchanged(db)
              else
                && reply == Response(200, "Comment updated successfully")
                && comment == Some(c.(content := content.value, editedAt := Some(now)))
                && db.comments == old(db.comments)[k := comment.value]
                && comment.value.likes == c.likes && comment.value.dislikes == c.dislikes
                && comment.value.numberOfLikes == c.numberOfLikes
                && comment.value.numberOfDislikes == c.numberOfDislikes
  {
    var found := FindComment(db.comments, commentId);
    if found.None? {
      return Response(404, "Comment not found"), None;
    }
    var k := found.value;
    var c := db.comments[k];
    if reqId != Some(c.userId) {
      return Response(403, "Unauthorized to edit this comment"), None;
    }
    if !Truthy(content) {
      return Response(500, "Failed to edit comment"), None;
    }
    c := c.(content := content.value);
    c := c.(editedAt := Some(now));
    assert db.comments[k] in db.comments;
    db.SetComment(k, c);
    reply, comment := Response(200, "Comment updated successfully"), Some(c);
  }

  // ---------------------------------------------------------------- like

  /** The document `likeComment` saves: membership of `u` in `likes` flips
      and `numberOfLikes` moves by one in the same direction; no other field
      changes. */
  function LikeToggled(c: Comment, u: Id): (r: Comment)
    ensures u in r.likes <==> u !in c.likes
    ensures forall y :: y != u ==> (y in r.likes <==> y in c.likes)
    ensures r.numberOfLikes == c.numberOfLikes + (if u in c.likes then -1 else 1)
    ensures r.(likes := c.likes, numberOfLikes := c.numberOfLikes) == c
  {
    c.(likes := Toggle(c.likes, u),
       numberOfLikes := c.numberOfLikes + (if u in c.likes then -1 else 1))
  }

  /** The counter invariant: if `likes` has no duplicates and
      `numberOfLikes == |likes|` before, both hold after. */
  lemma LikeToggledKeepsSync(c: Comment, u: Id)
    requires Distinct(c.likes) && c.numberOfLikes == |c.likes|
    ensures Distinct(LikeToggled(c, u).likes)
    ensures LikeToggled(c, u).numberOfLikes == |LikeToggled(c, u).likes|
    ensures CountsInSync(c) ==> CountsInSync(LikeToggled(c, u))
  {
    ToggleDistinct(c.likes, u);
  }

  /** Liking twice restores the counter and the set of likers; starting from
      "not liked" it restores the whole document. */
  lemma LikeToggledTwice(c: Comment, u: Id)
    requires Distinct(c.likes)
    ensures LikeToggled(LikeToggled(c, u), u).numberOfLikes == c.numberOfLikes
    ensures multiset(LikeToggled(LikeToggled(c, u), u).likes) == multiset(c.likes)
    ensures u !in c.likes ==> LikeToggled(LikeToggled(c, u), u) == c
  {
    if u in c.likes {
      ToggleTwicePresent(c.likes, u);
    } else {
      ToggleTwiceAbsent(c.likes, u);
    }
  }

  /** `likeComment`: 404 for an unknown id; otherwise the comment becomes
      `LikeToggled(c, userId)` and the reply says which way it went. */
  method LikeComment(db: Db, commentId: Id, userId: Id) returns (reply: Response, comment: Option<Comment>)
    requires db.Valid()
    modifies db`comments
    ensures db.Valid()
    ensures FindComment(old(db.comments), commentId).None? ==>
              reply == Response(404, "Comment not found") && comment.None? && unchanged(db)
    ensures FindComment(old(db.comments), commentId).Some? ==>
              var k := FindComment(old(db.comments), commentId).value;
              var c := old(db.comments)[k];
              && comment == Some(LikeToggled(c, userId))
              && db.comments == old(db.comments)[k := comment.value]
              && reply == Response(200, if userId in c.likes then "Comment unliked" else "Comment liked")
  {
    var found := FindComment(db.comments, commentId);
    if found.None? {
      return Response(404, "Comment not found"), None;
    }
    var k := found.value;
    var c := db.comments[k];
    assert c in db.comments;
    var alreadyLiked := userId in c.likes;
    if alreadyLiked {
      c := c.(likes := Without(c.likes, userId));
      c := c.(numberOfLikes := c.numberOfLikes - 1);
    } else {
      c := c.(likes := c.likes + [userId]);
      c := c.(numberOfLikes := c.numberOfLikes + 1);
    }
    LikeToggledKeepsSync(db.comments[k], userId);
    db.SetComment(k, c);
    reply := Response(200, if alreadyLiked then "Comment unliked" else "Comment liked");
    comment := Some(c);
  }

  // ---------------------------------------------------------------- my blogs

  function OnPosts(ids: seq<Id>): Comment -> bool {
    (c: Comment) => c.postId in ids
  }

  function BlogIds(blogs: seq<Blog>): (ids: seq<Id>)
    ensures |ids| == |blogs|
    ensures forall i :: 0 <= i < |blogs| ==> ids[i] == blogs[i].id
  {
    seq(|blogs|, i requires 0 <= i < |blogs| => blogs[i].id)
  }

  /** The JSON of `getAllCommentsOnMyBlogs`. */
  datatype CommentReport = CommentReport(totalComments: nat, comments: seq<Comment>, message: string)

  /** `getAllCommentsOnMyBlogs`: with no blogs of the caller, 0 and an empty
      list; otherwise exactly the comments on one of the caller's blogs, as
      often as stored, and their number. */
  function GetAllCommentsOnMyBlogs(blogs: seq<Blog>, comments: seq<Comment>, userId: Id): (r: CommentReport)
    ensures r.totalComments == |r.comments|
    ensures OwnBlogs(blogs, userId) == [] ==>
              r == CommentReport(0, [], "No blogs found for this user.")
    ensures forall c :: c in r.comments <==>
              c in comments && exists b :: b in blogs && b.author == userId && b.id == c.postId
    ensures forall c :: multiset(r.comments)[c] ==
              if c.postId in BlogIds(OwnBlogs(blogs, userId)) then multiset(comments)[c] else 0
  {
    var myBlogs := OwnBlogs(blogs, userId);
    if |myBlogs| == 0 then
      CommentReport(0, [], "No blogs found for this user.")
    else
      var ids := BlogIds(myBlogs);
      var onMine := Filter(comments, OnPosts(ids));
      FilterCount(comments, OnPosts(ids));
      OwnBlogIds(blogs, userId);
      CommentReport(|onMine|, onMine, "")
  }

  /** A post id is among the caller's blog ids exactly when some blog of the
      caller has that id. */
  lemma OwnBlogIds(blogs: seq<Blog>, userId: Id)
    ensures forall p: Id :: p in BlogIds(OwnBlogs(blogs, userId)) <==>
              exists b :: b in blogs && b.author == userId && b.id == p
  {
    forall p: Id ensures p in BlogIds(OwnBlogs(blogs, userId)) <==>
                         exists b :: b in blogs && b.author == userId && b.id == p {
      OwnBlogId(blogs, userId, p);
    }
  }

  lemma OwnBlogId(blogs: seq<Blog>, userId: Id, p: Id)
    ensures p in BlogIds(OwnBlogs(blogs, userId)) <==>
            exists b :: b in blogs && b.author == userId && b.id == p
  {
    var myBlogs := OwnBlogs(blogs, userId);
    var ids := BlogIds(myBlogs);
    if p in ids {
      var i :| 0 <= i < |ids| && ids[i] == p;
      assert myBlogs[i] in myBlogs;
    }
    if exists b :: b in blogs && b.author == userId && b.id == p {
      var b :| b in blogs && b.author == userId && b.id == p;
      assert b in myBlogs;
      var i :| 0 <= i < |myBlogs| && myBlogs[i] == b;
      assert ids[i] == p;
    }
  }

  /** The no-blogs shortcut agrees with the general query: with no blogs of
      the caller, filtering on their ids yields nothing. */
  lemma NoBlogsShortcut(blogs: seq<Blog>, comments: seq<Comment>, userId: Id)
    requires OwnBlogs(blogs, userId) == []
    ensures Filter(comments, OnPosts(BlogIds(OwnBlogs(blogs, userId)))) == []
  {
    var r := Filter(comments, OnPosts(BlogIds(OwnBlogs(blogs, userId))));
    FilterCount(comments, OnPosts(BlogIds(OwnBlogs(blogs, userId))));
    assert multiset(r) == multiset{};
    assert |r| == |multiset(r)|;
  }
}
