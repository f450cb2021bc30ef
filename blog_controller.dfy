/** The handlers of controllers/blog.controller.js over the store. Each
    state-changing handler is a method that either replies with an error and
    leaves the store as it was, or writes exactly the documents the source
    writes; the queries are functions of the collections. */
module BlogController {
  import opened Common
  import opened BlogModel
  import opened CommentModel
  import opened Database
  import opened Sorting
  import opened Realtime

  // ---------------------------------------------------------------- create

  /** `req.id || req.user?.id`. */
  function AuthorOf(reqId: Option<Id>, reqUserId: Option<Id>): Option<Id> {
    if reqId.Some? then reqId else reqUserId
  }

  /** `createBlog`: title and category must be truthy (400), an author id must
      be known (401); otherwise one new blog, with the next id, is stored. */
  method CreateBlog(db: Db, title: Option<string>, category: Option<string>,
                    reqId: Option<Id>, reqUserId: Option<Id>, now: Time)
    returns (reply: Response, blog: Option<Blog>)
    requires db.Valid()
    modifies db`blogs, db`nextId
    ensures db.Valid()
    ensures !Truthy(title) || !Truthy(category) ==>
              reply == Response(400, "Blog title and category are required.")
              && blog.None? && unchanged(db)
    ensures Truthy(title) && Truthy(category) && AuthorOf(reqId, reqUserId).None? ==>
              reply == Response(401, "Unauthorized: Author not found") && blog.None? && unchanged(db)
    ensures Truthy(title) && Truthy(category) && AuthorOf(reqId, reqUserId).Some? ==>
              && reply == Response(201, "Blog Created Successfully.")
              && blog == NewBlog(old(db.nextId), title.value, category, AuthorOf(reqId, reqUserId), now)
              && blog.Some? && db.blogs == old(db.blogs) + [blog.value] && db.nextId == old(db.nextId) + 1
  {
    if !Truthy(title) || !Truthy(category) {
      return Response(400, "Blog title and category are required."), None;
    }
    var authorId := AuthorOf(reqId, reqUserId);
    if authorId.None? {
      return Response(401, "Unauthorized: Author not found"), None;
    }
    blog := NewBlog(db.nextId, title.value, category, authorId, now);
    db.AddBlog(blog.value);
    reply := Response(201, "Blog Created Successfully.");
  }

  // ---------------------------------------------------------------- update

  /** The fields of an `updateBlog` body; `None` is a key left out. */
  datatype BlogEdit = BlogEdit(
    title: Option<string>,
    subtitle: Option<string>,
    description: Option<string>,
    category: Option<string>)

  /** The `$set` of `findByIdAndUpdate(blogId, updateData)`: every supplied
      key overwrites its field (keys left `undefined` are dropped from the
      update), validators do not run, and the reactions, comments,
      publication flag and creation time are untouched. */
  function ApplyBlogEdit(b: Blog, e: BlogEdit, author: Option<Id>, thumbnail: Option<string>): (r: Blog)
    ensures r.id == b.id && r.likes == b.likes && r.dislikes == b.dislikes && r.comments == b.comments
    ensures r.isPublished == b.isPublished && r.createdAt == b.createdAt
    ensures e.title.Some? ==> r.title == e.title.value
    ensures e.title.None? ==> r.title == b.title
    ensures e.subtitle.Some? ==> r.subtitle == e.subtitle
    ensures e.subtitle.None? ==> r.subtitle == b.subtitle
    ensures e.description.Some? ==> r.description == e.description
    ensures e.description.None? ==> r.description == b.description
    ensures e.category.Some? ==> r.category == e.category
    ensures e.category.None? ==> r.category == b.category
    ensures author.Some? ==> r.author == author.value
    ensures author.None? ==> r.author == b.author
    ensures thumbnail.Some? ==> r.thumbnail == thumbnail
    ensures thumbnail.None? ==> r.thumbnail == b.thumbnail
  {
    Blog(b.id, e.title.GetOr(b.title), SetOr(e.subtitle, b.subtitle), SetOr(e.description, b.description),
         SetOr(thumbnail, b.thumbnail), author.GetOr(b.author), SetOr(e.category, b.category),
         b.likes, b.dislikes, b.comments, b.isPublished, b.createdAt)
  }

  /** A supplied optional path value replaces the stored one. */
  function SetOr(supplied: Option<string>, stored: Option<string>): Option<string> {
    if supplied.Some? then supplied else stored
  }

  /** An update that supplies nothing changes nothing, and applying the same
      update twice is applying it once. */
  lemma ApplyBlogEditLaws(b: Blog, e: BlogEdit, author: Option<Id>, thumbnail: Option<string>)
    ensures ApplyBlogEdit(b, BlogEdit(None, None, None, None), None, None) == b
    ensures var once := ApplyBlogEdit(b, e, author, thumbnail);
            ApplyBlogEdit(once, e, author, thumbnail) == once
  {
  }

  /** `updateBlog`: 404 for an unknown id; otherwise the blog is overwritten
      with the supplied fields, the caller as author when `req.id` is set,
      and the uploaded thumbnail's URL when a file was sent. */
  method UpdateBlog(db: Db, blogId: Id, e: BlogEdit, reqId: Option<Id>, thumbnail: Option<string>)
    returns (reply: Response, blog: Option<Blog>)
    requires db.Valid()
    modifies db`blogs
    ensures db.Valid()
    ensures FindBlog(old(db.blogs), blogId).None? ==>
              reply == Response(404, "Blog not found!") && blog.None? && unchanged(db)
    ensures FindBlog(old(db.blogs), blogId).Some? ==>
              var i := FindBlog(old(db.blogs), blogId).value;
              && blog == Some(ApplyBlogEdit(old(db.blogs)[i], e, reqId, thumbnail))
              && db.blogs == old(db.blogs)[i := blog.value]
              && reply == Response(200, "Blog updated successfully")
  {
    var found := FindBlog(db.blogs, blogId);
    if found.None? {
      return Response(404, "Blog not found!"), None;
    }
    var i := found.value;
    assert db.blogs[i] in db.blogs;
    var updated := ApplyBlogEdit(db.blogs[i], e, reqId, thumbnail);
    db.SetBlog(i, updated);
    reply, blog := Response(200, "Blog updated successfully"), Some(updated);
  }

  // ---------------------------------------------------------------- queries

  predicate Published(b: Blog) { b.isPublished }

  /** `getAllBlogs`: every blog, newest first. */
  function GetAllBlogs(blogs: seq<Blog>): (r: seq<Blog>)
    ensures NewestFirst(r, BlogCreatedAt)
    ensures multiset(r) == multiset(blogs)
  {
    SortNewestFirst(blogs, BlogCreatedAt)
  }

  /** `getPublishedBlog`: exactly the published blogs, each as often as it is
      stored, newest first. */
  function GetPublishedBlog(blogs: seq<Blog>): (r: seq<Blog>)
    ensures NewestFirst(r, BlogCreatedAt)
    ensures forall b :: multiset(r)[b] == if b.isPublished then multiset(blogs)[b] else 0
    ensures forall b :: b in r <==> b in blogs && b.isPublished
  {
    var published := Filter(blogs, Published);
    FilterCount(blogs, Published);
    var r := SortNewestFirst(published, BlogCreatedAt);
    assert forall b :: b in r <==> b in multiset(published);
    r
  }

  function AuthoredBy(u: Id): Blog -> bool {
    (b: Blog) => b.author == u
  }

  /** `Blog.find({ author: userId })`, in natural order. */
  function OwnBlogs(blogs: seq<Blog>, u: Id): (r: seq<Blog>)
    ensures forall b :: b in r <==> b in blogs && b.author == u
    ensures forall b :: multiset(r)[b] == if b.author == u then multiset(blogs)[b] else 0
    ensures |r| <= |blogs|
  {
    FilterCount(blogs, AuthoredBy(u));
    Filter(blogs, AuthoredBy(u))
  }

  /** `getOwnBlogs`: 400 without a caller id, otherwise the caller's blogs.
      (`find` yields an array, never `null`, so its 404 branch is dead.) */
  function GetOwnBlogs(blogs: seq<Blog>, reqId: Option<Id>): (r: (Response, seq<Blog>))
    ensures reqId.None? <==> r.0 == Response(400, "User ID is required.")
    ensures reqId.None? ==> r.1 == []
    ensures reqId.Some? ==> r.0.code == 200
                            && (forall b :: b in r.1 <==> b in blogs && b.author == reqId.value)
                            && forall b :: multiset(r.1)[b] ==
                                            if b.author == reqId.value then multiset(blogs)[b] else 0
  {
    if reqId.None? then (Response(400, "User ID is required."), [])
    else (Response(200, ""), OwnBlogs(blogs, reqId.value))
  }

  // ---------------------------------------------------------------- publish

  /** `togglePublishBlog`: negates `isPublished` whatever `publish` says;
      404 for an unknown id, 500 when `save` rejects the blog. */
  method TogglePublishBlog(db: Db, blogId: Id, publish: Option<string>) returns (reply: Response)
    requires db.Valid()
    modifies db`blogs
    ensures db.Valid()
    ensures FindBlog(old(db.blogs), blogId).None? ==>
              reply == Response(404, "Blog not found!") && unchanged(db)
    ensures FindBlog(old(db.blogs), blogId).Some? ==>
              var i := FindBlog(old(db.blogs), blogId).value;
              var flipped := old(db.blogs)[i].(isPublished := !old(db.blogs)[i].isPublished);
              if !ValidBlog(flipped) then
                reply == Response(500, "Failed to update status") && unchanged(db)
              else
                && db.blogs == old(db.blogs)[i := flipped]
                && reply == Response(200, if flipped.isPublished then "Blog is Published" else "Blog is Unpublished")
  {
    var found := FindBlog(db.blogs, blogId);
    if found.None? {
      return Response(404, "Blog not found!");
    }
    var i := found.value;
    var blog := db.blogs[i];
    blog := blog.(isPublished := !blog.isPublished);
    if !ValidBlog(blog) {
      return Response(500, "Failed to update status");
    }
    assert db.blogs[i] in db.blogs;
    assert Distinct(blog.likes);
    db.SetBlog(i, blog);
    reply := Response(200, if blog.isPublished then "Blog is Published" else "Blog is Unpublished");
  }

  // ---------------------------------------------------------------- delete

  /** `deleteBlog`: 404 for an unknown id, 403 unless the caller is the
      author; otherwise the blog and exactly the comments on it are removed. */
  method DeleteBlog(db: Db, blogId: Id, reqId: Option<Id>) returns (reply: Response)
    requires db.Valid()
    modifies db`blogs, db`comments
    ensures db.Valid()
    ensures FindBlog(old(db.blogs), blogId).None? ==>
              reply == Response(404, "Blog not found") && unchanged(db)
    ensures FindBlog(old(db.blogs), blogId).Some? ==>
              var i := FindBlog(old(db.blogs), blogId).value;
              if reqId != Some(old(db.blogs)[i].author) then
                reply == Response(403, "Unauthorized to delete this blog") && unchanged(db)
              else
                && reply == Response(200, "Blog deleted successfully")
                && db.blogs == RemoveAt(old(db.blogs), i)
                && db.comments == Filter(old(db.comments), NotOnPost(blogId))
  {
    var found := FindBlog(db.blogs, blogId);
    if found.None? {
      return Response(404, "Blog not found");
    }
    var i := found.value;
    if reqId != Some(db.blogs[i].author) {
      return Response(403, "Unauthorized to delete this blog");
    }
    db.RemoveBlog(i);
    db.RemoveCommentsOn(blogId);
    reply := Response(200, "Blog deleted successfully");
  }

  /** After a delete, no comment on the deleted blog is left, and every other
      comment is still there as often as before. */
  lemma DeleteBlogCascade(comments: seq<Comment>, blogId: Id)
    ensures forall c :: c in Filter(comments, NotOnPost(blogId)) ==> c.postId != blogId
    ensures forall c: Comment :: c.postId != blogId ==>
              multiset(Filter(comments, NotOnPost(blogId)))[c] == multiset(comments)[c]
  {
    FilterCount(comments, NotOnPost(blogId));
  }

  // ---------------------------------------------------------------- reactions

  /** What `likeBlog` settles before it reaches the socket: a refusal, or
      the position of the blog and the blog with the caller's like added,
      which `save` accepts. */
  datatype LikePlan = Refused(reply: Response) | Liked(at: nat, blog: Blog)

  /** The checks of `likeBlog`: 404 for an unknown id, 400 when the caller
      already likes the blog, 500 when `save` rejects it; otherwise the
      first blog with that id gains the caller at the end of `likes`. */
  function PlanLike(blogs: seq<Blog>, blogId: Id, userId: Id): (r: LikePlan)
    ensures r == Refused(Response(404, "Blog not found")) <==> FindBlog(blogs, blogId).None?
    ensures r == Refused(Response(400, "You already liked this blog")) <==>
              FindBlog(blogs, blogId).Some? && userId in blogs[FindBlog(blogs, blogId).value].likes
    ensures r == Refused(Response(500, "Failed to like blog")) <==>
              && FindBlog(blogs, blogId).Some?
              && var b := blogs[FindBlog(blogs, blogId).value];
                 userId !in b.likes && !ValidBlog(b.(likes := b.likes + [userId]))
    ensures r.Liked? ==>
              && r.at < |blogs| && FindBlog(blogs, blogId) == Some(r.at)
              && userId !in blogs[r.at].likes && ValidBlog(r.blog)
              && r.blog == blogs[r.at].(likes := blogs[r.at].likes + [userId])
              && |r.blog.likes| == |blogs[r.at].likes| + 1 && userId in r.blog.likes
  {
    match FindBlog(blogs, blogId)
    case None => Refused(Response(404, "Blog not found"))
    case Some(i) =>
      var b := blogs[i];
      if userId in b.likes then Refused(Response(400, "You already liked this blog"))
      else
        var liked := b.(likes := b.likes + [userId]);
        if !ValidBlog(liked) then Refused(Response(500, "Failed to like blog"))
        else Liked(i, liked)
  }

  /** `likeBlog` with the socket.io server registered: a refusal changes
      nothing; otherwise the like is saved, the reply is 200 with the blog,
      and one `reactionUpdate` with the new lists is broadcast. */
  method LikeBlog(db: Db, io: Channel, blogId: Id, userId: Id) returns (reply: Response, blog: Option<Blog>)
    requires db.Valid()
    modifies db`blogs, io
    ensures db.Valid()
    ensures var plan := PlanLike(old(db.blogs), blogId, userId);
            if plan.Refused? then
              reply == plan.reply && blog.None? && unchanged(db) && unchanged(io)
            else
              && reply == Response(200, "Blog liked") && blog == Some(plan.blog)
              && db.blogs == old(db.blogs)[plan.at := plan.blog]
              && io.events == old(io.events) + [ReactionUpdate(blogId, plan.blog.likes, plan.blog.dislikes)]
  {
    var plan := PlanLike(db.blogs, blogId, userId);
    if plan.Refused? {
      return plan.reply, None;
    }
    SaveLike(db, plan.at, userId);
    io.Emit(ReactionUpdate(blogId, plan.blog.likes, plan.blog.dislikes));
    reply, blog := Response(200, "Blog liked"), Some(plan.blog);
  }

  /** `likeBlog` as the server runs it: server.js never registers `io`, so
      `req.app.get("io")` is `undefined` and `io.emit` throws after the
      save. The like is stored, the reply is the catch-all 500, and nothing
      is broadcast. */
  method LikeBlogAsWritten(db: Db, blogId: Id, userId: Id) returns (reply: Response, blog: Option<Blog>)
    requires db.Valid()
    modifies db`blogs
    ensures db.Valid()
    ensures var plan := PlanLike(old(db.blogs), blogId, userId);
            if plan.Refused? then
              reply == plan.reply && blog.None? && unchanged(db)
            else
              && reply == Response(500, "Failed to like blog") && blog.None?
              && db.blogs == old(db.blogs)[plan.at := plan.blog]
  {
    var plan := PlanLike(db.blogs, blogId, userId);
    if plan.Refused? {
      return plan.reply, None;
    }
    SaveLike(db, plan.at, userId);
    reply, blog := Response(500, "Failed to like blog"), None;
  }

  /** `blog.likes.push(userId); await blog.save()` on a blog the caller
      does not like yet. */
  method SaveLike(db: Db, i: nat, userId: Id)
    requires db.Valid() && i < |db.blogs| && userId !in db.blogs[i].likes
    modifies db`blogs
    ensures db.Valid()
    ensures db.blogs == old(db.blogs)[i := old(db.blogs)[i].(likes := old(db.blogs)[i].likes + [userId])]
  {
    var b := db.blogs[i];
    assert b in db.blogs;
    ToggleDistinct(b.likes, userId);
    db.SetBlog(i, b.(likes := b.likes + [userId]));
  }

  /** `dislikeBlog`, which un-likes: 404 for an unknown id, 400 when the
      caller does not like it, 500 when `save` rejects it; otherwise every
      occurrence of the caller leaves `likes`, and `dislikes` is untouched. */
  method DislikeBlog(db: Db, blogId: Id, userId: Id) returns (reply: Response, blog: Option<Blog>)
    requires db.Valid()
    modifies db`blogs
    ensures db.Valid()
    ensures FindBlog(old(db.blogs), blogId).None? ==>
              reply == Response(404, "Blog not found") && blog.None? && unchanged(db)
    ensures FindBlog(old(db.blogs), blogId).Some? ==>
              var i := FindBlog(old(db.blogs), blogId).value;
              var b := old(db.blogs)[i];
              var unliked := b.(likes := Without(b.likes, userId));
              if userId !in b.likes then
                reply == Response(400, "You have not liked this blog") && blog.None? && unchanged(db)
              else if !ValidBlog(unliked) then
                reply == Response(500, "Failed to dislike blog") && blog.None? && unchanged(db)
              else
                && reply == Response(200, "Blog disliked") && blog == Some(unliked)
                && db.blogs == old(db.blogs)[i := unliked]
                && userId !in unliked.likes && |unliked.likes| == |b.likes| - 1
  {
    var found := FindBlog(db.blogs, blogId);
    if found.None? {
      return Response(404, "Blog not found"), None;
    }
    var i := found.value;
    var b := db.blogs[i];
    if userId !in b.likes {
      return Response(400, "You have not liked this blog"), None;
    }
    var unliked := b.(likes := Without(b.likes, userId));
    if !ValidBlog(unliked) {
      return Response(500, "Failed to dislike blog"), None;
    }
    assert b in db.blogs;
    WithoutDistinct(b.likes, userId);
    db.SetBlog(i, unliked);
    reply, blog := Response(200, "Blog disliked"), Some(unliked);
  }

  /** `toggleBlogLike`: 404 for an unknown id, 500 when `save` rejects it;
      otherwise the caller's membership in `likes` flips and `liked` reports
      the new membership. */
  method ToggleBlogLike(db: Db, blogId: Id, userId: Id) returns (reply: Response, liked: bool)
    requires db.Valid()
    modifies db`blogs
    ensures db.Valid()
    ensures FindBlog(old(db.blogs), blogId).None? ==>
              reply == Response(404, "Blog not found") && unchanged(db)
    ensures FindBlog(old(db.blogs), blogId).Some? ==>
              var i := FindBlog(old(db.blogs), blogId).value;
              var b := old(db.blogs)[i];
              var toggled := b.(likes := Toggle(b.likes, userId));
              if !ValidBlog(toggled) then
                reply == Response(500, "Failed to toggle like") && unchanged(db)
              else
                && db.blogs == old(db.blogs)[i := toggled]
                && liked == (userId in toggled.likes) && liked == (userId !in b.likes)
                && reply == Response(200, if liked then "Blog liked" else "Blog disliked")
  {
    liked := false;
    var found := FindBlog(db.blogs, blogId);
    if found.None? {
      return Response(404, "Blog not found"), false;
    }
    var i := found.value;
    var b := db.blogs[i];
    var wasLiked := userId in b.likes;
    var toggled := b.(likes := Toggle(b.likes, userId));
    if !ValidBlog(toggled) {
      return Response(500, "Failed to toggle like"), false;
    }
    assert b in db.blogs;
    ToggleDistinct(b.likes, userId);
    db.SetBlog(i, toggled);
    if wasLiked {
      reply, liked := Response(200, "Blog disliked"), false;
    } else {
      reply, liked := Response(200, "Blog liked"), true;
    }
  }

  // ---------------------------------------------------------------- totals

  datatype Reaction = Likes | Dislikes

  function Reactions(b: Blog, kind: Reaction): seq<Id> {
    match kind
    case Likes => b.likes
    case Dislikes => b.dislikes
  }

  /** The reference sum: total length of the chosen lists. */
  function SumReactions(blogs: seq<Blog>, kind: Reaction): nat {
    if |blogs| == 0 then 0 else |Reactions(blogs[0], kind)| + SumReactions(blogs[1..], kind)
  }

  /** `myBlogs.reduce((acc, blog) => acc + blog.likes.length, acc)`: a left
      fold with an accumulator. */
  function ReduceReactions(acc: nat, blogs: seq<Blog>, kind: Reaction): nat
    decreases |blogs|
  {
    if |blogs| == 0 then acc else ReduceReactions(acc + |Reactions(blogs[0], kind)|, blogs[1..], kind)
  }

  /** The fold computes the reference sum. */
  lemma {:induction false} ReduceIsSum(acc: nat, blogs: seq<Blog>, kind: Reaction)
    ensures ReduceReactions(acc, blogs, kind) == acc + SumReactions(blogs, kind)
    decreases |blogs|
  {
    if |blogs| > 0 {
      ReduceIsSum(acc + |Reactions(blogs[0], kind)|, blogs[1..], kind);
    }
  }

  /** The JSON of the two totals handlers: `totalBlogs` and the total. */
  datatype Totals = Totals(totalBlogs: nat, total: nat)

  /** `getMyTotalBlogLikes`. */
  function GetMyTotalBlogLikes(blogs: seq<Blog>, userId: Id): (t: Totals)
    ensures t.totalBlogs == |OwnBlogs(blogs, userId)|
    ensures t.total == SumReactions(OwnBlogs(blogs, userId), Likes)
  {
    var myBlogs := OwnBlogs(blogs, userId);
    ReduceIsSum(0, myBlogs, Likes);
    Totals(|myBlogs|, ReduceReactions(0, myBlogs, Likes))
  }

  /** `getMyTotalBlogDislikes`. */
  function GetMyTotalBlogDislikes(blogs: seq<Blog>, userId: Id): (t: Totals)
    ensures t.totalBlogs == |OwnBlogs(blogs, userId)|
    ensures t.total == SumReactions(OwnBlogs(blogs, userId), Dislikes)
  {
    var myBlogs := OwnBlogs(blogs, userId);
    ReduceIsSum(0, myBlogs, Dislikes);
    Totals(|myBlogs|, ReduceReactions(0, myBlogs, Dislikes))
  }

  /** Replacing the blog at `i` by one with the same author moves the
      author's total by the change in that blog's list, and leaves every
      other user's total alone. */
  lemma {:induction false} ReplaceMovesTotal(blogs: seq<Blog>, i: nat, b: Blog, u: Id, kind: Reaction)
    requires i < |blogs| && b.author == blogs[i].author
    ensures SumReactions(OwnBlogs(blogs[i := b], u), kind) + (if b.author == u then |Reactions(blogs[i], kind)| else 0)
            == SumReactions(OwnBlogs(blogs, u), kind) + (if b.author == u then |Reactions(b, kind)| else 0)
    decreases |blogs|
  {
    var s := blogs[i := b];
    SumOwnFirst(s, u, kind);
    SumOwnFirst(blogs, u, kind);
    if i == 0 {
      assert s[1..] == blogs[1..];
    } else {
      assert s[1..] == blogs[1..][i - 1 := b];
      ReplaceMovesTotal(blogs[1..], i - 1, b, u, kind);
    }
  }

  /** The caller's total splits into the first blog's share and the rest. */
  lemma SumOwnFirst(blogs: seq<Blog>, u: Id, kind: Reaction)
    requires |blogs| > 0
    ensures SumReactions(OwnBlogs(blogs, u), kind)
            == (if blogs[0].author == u then |Reactions(blogs[0], kind)| else 0)
               + SumReactions(OwnBlogs(blogs[1..], u), kind)
  {
    var rest := OwnBlogs(blogs[1..], u);
    assert OwnBlogs(blogs, u) == (if blogs[0].author == u then [blogs[0]] else []) + rest;
    if blogs[0].author == u {
      assert ([blogs[0]] + rest)[1..] == rest;
    } else {
      assert [] + rest == rest;
    }
  }

  /** A successful like raises the author's `totalLikes` by exactly one and
      leaves their `totalDislikes` and every other user's totals as they were. */
  lemma LikeRaisesAuthorTotal(blogs: seq<Blog>, i: nat, userId: Id, u: Id)
    requires i < |blogs|
    ensures var liked := blogs[i].(likes := blogs[i].likes + [userId]);
            && GetMyTotalBlogLikes(blogs[i := liked], u).total
               == GetMyTotalBlogLikes(blogs, u).total + (if blogs[i].author == u then 1 else 0)
            && GetMyTotalBlogDislikes(blogs[i := liked], u) == GetMyTotalBlogDislikes(blogs, u)
  {
    var liked := blogs[i].(likes := blogs[i].likes + [userId]);
    ReplaceMovesTotal(blogs, i, liked, u, Likes);
    ReplaceMovesTotal(blogs, i, liked, u, Dislikes);
    assert |OwnBlogs(blogs[i := liked], u)| == |OwnBlogs(blogs, u)| by {
      OwnBlogsReplace(blogs, i, liked, u);
    }
  }

  /** Replacing a blog by one with the same author keeps the number of blogs
      each user owns. */
  lemma {:induction false} OwnBlogsReplace(blogs: seq<Blog>, i: nat, b: Blog, u: Id)
    requires i < |blogs| && b.author == blogs[i].author
    ensures |OwnBlogs(blogs[i := b], u)| == |OwnBlogs(blogs, u)|
    decreases |blogs|
  {
    var s := blogs[i := b];
    OwnCountFirst(s, u);
    OwnCountFirst(blogs, u);
    if i == 0 {
      assert s[1..] == blogs[1..];
    } else {
      assert s[1..] == blogs[1..][i - 1 := b];
      OwnBlogsReplace(blogs[1..], i - 1, b, u);
    }
  }

  /** The number of the caller's blogs counts the first blog, if theirs,
      and their blogs in the rest. */
  lemma OwnCountFirst(blogs: seq<Blog>, u: Id)
    requires |blogs| > 0
    ensures |OwnBlogs(blogs, u)| == (if blogs[0].author == u then 1 else 0) + |OwnBlogs(blogs[1..], u)|
  {
    OwnFirst(blogs, u);
  }

  /** The caller's blogs are the first blog, if theirs, then their blogs in the rest. */
  lemma OwnFirst(blogs: seq<Blog>, u: Id)
    requires |blogs| > 0
    ensures OwnBlogs(blogs, u) == (if blogs[0].author == u then [blogs[0]] else []) + OwnBlogs(blogs[1..], u)
  {
    assert blogs == [blogs[0]] + blogs[1..];
  }

  /** No handler writes `dislikes` and a new blog starts with none (the
      store invariant `BlogsOk` records this), so over the stored blogs every
      user's `totalDislikes` is 0. */
  lemma {:induction false} NoDislikesTotalZero(blogs: seq<Blog>, next: Id, u: Id)
    requires BlogsOk(blogs, next)
    ensures GetMyTotalBlogDislikes(blogs, u).total == 0
  {
    NoDislikesSumZero(OwnBlogs(blogs, u));
  }

  lemma {:induction false} NoDislikesSumZero(blogs: seq<Blog>)
    requires forall b :: b in blogs ==> b.dislikes == []
    ensures SumReactions(blogs, Dislikes) == 0
    decreases |blogs|
  {
    if |blogs| > 0 {
      assert blogs[0] in blogs;
      assert forall b :: b in blogs[1..] ==> b in blogs;
      NoDislikesSumZero(blogs[1..]);
    }
  }
}
