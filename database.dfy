/** The MongoDB store behind the Mongoose models: three collections in
    natural (insertion) order and the ObjectId supply, with the invariants
    that the handlers keep. */
module Database {
  import opened Common
  import opened UserModel
  import opened BlogModel
  import opened CommentModel

  /** Every user has a fresh id, passes the schema validators, carries the
      setters' normal form, and no two users share an id or an e-mail (the
      `_id` and `unique` indexes). */
  ghost predicate UsersOk(users: seq<User>, next: Id) {
    && (forall u :: u in users ==> u.id < next && ValidUser(u) && Normalized(u))
    && (forall i, j :: 0 <= i < j < |users| ==> users[i].id != users[j].id)
    && (forall i, j :: 0 <= i < j < |users| ==> users[i].email != users[j].email)
  }

  /** Every blog has a fresh id of its own, no user likes it twice, and
      nobody dislikes it: a new blog starts with no `dislikes` and no
      handler ever adds to them. */
  ghost predicate BlogsOk(blogs: seq<Blog>, next: Id) {
    && (forall b :: b in blogs ==> b.id < next && Distinct(b.likes) && b.dislikes == [])
    && (forall i, j :: 0 <= i < j < |blogs| ==> blogs[i].id != blogs[j].id)
  }

  /** Every comment has a fresh id, has content, no user likes it twice, and
      its counters equal the lengths of its lists. */
  ghost predicate CommentOk(c: Comment, next: Id) {
    c.id < next && ValidComment(c) && CountsInSync(c) && Distinct(c.likes)
  }

  /** Every comment is well formed and has an id of its own. */
  ghost predicate CommentsOk(comments: seq<Comment>, next: Id) {
    && (forall c :: c in comments ==> CommentOk(c, next))
    && (forall i, j :: 0 <= i < j < |comments| ==> comments[i].id != comments[j].id)
  }

  class Db {
    var users: seq<User>
    var blogs: seq<Blog>
    var comments: seq<Comment>
    /** The next ObjectId the store hands out; every stored id is below it. */
    var nextId: Id

    ghost predicate Valid()
      reads this
    {
      UsersOk(users, nextId) && BlogsOk(blogs, nextId) && CommentsOk(comments, nextId)
    }

    constructor ()
      ensures Valid()
      ensures users == [] && blogs == [] && comments == []
    {
      users, blogs, comments, nextId := [], [], [], 0;
    }

    /** Inserting a new user document (`User.create`): the record takes the
        next id, passes validation, and its e-mail is not taken. */
    method AddUser(u: User)
      requires Valid() && u.id == nextId && ValidUser(u) && Normalized(u)
      requires forall v :: v in users ==> v.email != u.email
      modifies this`users, this`nextId
      ensures Valid()
      ensures users == old(users) + [u] && nextId == old(nextId) + 1
    {
      UsersOkAppend(users, nextId, u);
      users := users + [u];
      nextId := nextId + 1;
    }

    /** Inserting a new blog document (`Blog.create`). */
    method AddBlog(b: Blog)
      requires Valid() && b.id == nextId && Distinct(b.likes) && b.dislikes == []
      modifies this`blogs, this`nextId
      ensures Valid()
      ensures blogs == old(blogs) + [b] && nextId == old(nextId) + 1
    {
      blogs := blogs + [b];
      nextId := nextId + 1;
    }

    /** Inserting a new comment document (`Comment.create`). */
    method AddComment(c: Comment)
      requires Valid() && c.id == nextId && CommentOk(c, nextId + 1)
      modifies this`comments, this`nextId
      ensures Valid()
      ensures comments == old(comments) + [c] && nextId == old(nextId) + 1
    {
      assert forall k :: 0 <= k < |comments| ==> comments[k] in comments;
      comments := comments + [c];
      nextId := nextId + 1;
    }

    /** Writing back the user at index `i` (`user.save()`), keeping its e-mail. */
    method SetUser(i: nat, u: User)
      requires Valid() && i < |users| && u.id == users[i].id && u.email == users[i].email
      requires ValidUser(u) && Normalized(u)
      modifies this`users
      ensures Valid()
      ensures users == old(users)[i := u]
    {
      assert users[i] in users;
      users := users[i := u];
    }

    /** Writing back the blog at index `i` (`blog.save()`, `findByIdAndUpdate`). */
    method SetBlog(i: nat, b: Blog)
      requires Valid() && i < |blogs| && b.id == blogs[i].id && Distinct(b.likes) && b.dislikes == []
      modifies this`blogs
      ensures Valid()
      ensures blogs == old(blogs)[i := b]
    {
      assert blogs[i] in blogs;
      blogs := blogs[i := b];
    }

    /** Writing back the comment at index `i` (`comment.save()`). */
    method SetComment(i: nat, c: Comment)
      requires Valid() && i < |comments| && c.id == comments[i].id
      requires ValidComment(c) && CountsInSync(c) && Distinct(c.likes)
      modifies this`comments
      ensures Valid()
      ensures comments == old(comments)[i := c]
    {
      assert comments[i] in comments;
      comments := comments[i := c];
    }

    /** Deleting the blog at index `i` (`findByIdAndDelete`). */
    method RemoveBlog(i: nat)
      requires Valid() && i < |blogs|
      modifies this`blogs
      ensures Valid()
      ensures blogs == RemoveAt(old(blogs), i)
    {
      blogs := RemoveAt(blogs, i);
    }

    /** Deleting the comment at index `i` (`findByIdAndDelete`). */
    method RemoveComment(i: nat)
      requires Valid() && i < |comments|
      modifies this`comments
      ensures Valid()
      ensures comments == RemoveAt(old(comments), i)
    {
      comments := RemoveAt(comments, i);
    }

    /** `Comment.deleteMany({ postId })`. */
    method RemoveCommentsOn(postId: Id)
      requires Valid()
      modifies this`comments
      ensures Valid()
      ensures comments == Filter(old(comments), NotOnPost(postId))
    {
      FilterKeepsIdsDistinct(comments, NotOnPost(postId));
      comments := Filter(comments, NotOnPost(postId));
    }

    /** `comment.updateLikesCount()`: sets the counter of the comment at
        index `i` from its list and saves it; nothing else changes. */
    method UpdateLikesCount(i: nat)
      requires Valid() && i < |comments|
      modifies this`comments
      ensures Valid()
      ensures comments == old(comments)[i := SyncLikesCount(old(comments)[i])]
    {
      assert comments[i] in comments;
      comments := comments[i := SyncLikesCount(comments[i])];
    }

    /** `comment.updateDislikesCount()`, likewise for `numberOfDislikes`. */
    method UpdateDislikesCount(i: nat)
      requires Valid() && i < |comments|
      modifies this`comments
      ensures Valid()
      ensures comments == old(comments)[i := SyncDislikesCount(old(comments)[i])]
    {
      assert comments[i] in comments;
      comments := comments[i := SyncDislikesCount(comments[i])];
    }
  }

  /** `Blog.findById(id)`: the position of that blog, if any. */
  function FindBlog(blogs: seq<Blog>, id: Id): (r: Option<nat>)
    ensures r.Some? ==> r.value < |blogs| && blogs[r.value].id == id
    ensures r.None? <==> forall b :: b in blogs ==> b.id != id
  {
    Find(blogs, (b: Blog) => b.id == id)
  }

  /** `Comment.findById(id)`. */
  function FindComment(comments: seq<Comment>, id: Id): (r: Option<nat>)
    ensures r.Some? ==> r.value < |comments| && comments[r.value].id == id
    ensures r.None? <==> forall c :: c in comments ==> c.id != id
  {
    Find(comments, (c: Comment) => c.id == id)
  }

  /** `User.findById(id)`. */
  function FindUser(users: seq<User>, id: Id): (r: Option<nat>)
    ensures r.Some? ==> r.value < |users| && users[r.value].id == id
    ensures r.None? <==> forall u :: u in users ==> u.id != id
  {
    Find(users, (u: User) => u.id == id)
  }

  /** Ids are distinct in a valid store, so `findById` finds the one record
      with that id: position `i` is found exactly when it holds the id. */
  lemma FindBlogExact(blogs: seq<Blog>, next: Id, id: Id, i: nat)
    requires BlogsOk(blogs, next) && i < |blogs|
    ensures FindBlog(blogs, id) == Some(i) <==> blogs[i].id == id
  {
  }

  lemma FindCommentExact(comments: seq<Comment>, next: Id, id: Id, i: nat)
    requires CommentsOk(comments, next) && i < |comments|
    ensures FindComment(comments, id) == Some(i) <==> comments[i].id == id
  {
  }

  lemma FindUserExact(users: seq<User>, next: Id, id: Id, i: nat)
    requires UsersOk(users, next) && i < |users|
    ensures FindUser(users, id) == Some(i) <==> users[i].id == id
  {
  }

  /** `User.findOne({ email })`. The query value goes through the path's
      `lowercase` and `trim` setters, as the stored values did. */
  function FindUserByEmail(users: seq<User>, email: string): (r: Option<nat>)
    ensures r.Some? ==> r.value < |users| && users[r.value].email == NormalizeEmail(email)
    ensures r.None? <==> forall u :: u in users ==> u.email != NormalizeEmail(email)
  {
    Find(users, (u: User) => u.email == NormalizeEmail(email))
  }

  /** `User.findOne({ userName })`. */
  function FindUserByUserName(users: seq<User>, userName: string): (r: Option<nat>)
    ensures r.Some? ==> r.value < |users| && users[r.value].userName == userName
    ensures r.None? <==> forall u :: u in users ==> u.userName != userName
  {
    Find(users, (u: User) => u.userName == userName)
  }

  /** Appending a valid user with the next id and an unused e-mail keeps
      the user collection valid under the advanced counter. */
  lemma UsersOkAppend(users: seq<User>, next: Id, u: User)
    requires UsersOk(users, next) && u.id == next && ValidUser(u) && Normalized(u)
    requires forall v :: v in users ==> v.email != u.email
    ensures UsersOk(users + [u], next + 1)
  {
    var all := users + [u];
    forall i, j | 0 <= i < j < |all|
      ensures all[i].id != all[j].id && all[i].email != all[j].email
    {
      assert all[i] == users[i] && users[i] in users;
      if j == |users| {
        assert all[j] == u;
      } else {
        assert all[j] == users[j];
      }
    }
  }

  /** A filter keeps the ids of a collection distinct. */
  lemma {:induction false} FilterKeepsIdsDistinct(s: seq<Comment>, p: Comment -> bool)
    requires forall i, j :: 0 <= i < j < |s| ==> s[i].id != s[j].id
    ensures forall i, j :: 0 <= i < j < |Filter(s, p)| ==> Filter(s, p)[i].id != Filter(s, p)[j].id
  {
    if |s| > 0 {
      FilterKeepsIdsDistinct(s[1..], p);
      var rest := Filter(s[1..], p);
      var r := Filter(s, p);
      if p(s[0]) {
        assert r == [s[0]] + rest;
        forall i, j | 0 <= i < j < |r| ensures r[i].id != r[j].id {
          assert r[j] == rest[j - 1];
          if i == 0 {
            assert r[j] in rest;
            var k :| 0 <= k < |s[1..]| && s[1..][k] == r[j];
            assert s[k + 1] == r[j];
          } else {
            assert r[i] == rest[i - 1];
          }
        }
      } else {
        assert r == rest;
      }
    }
  }

  /** The comments `Comment.deleteMany({ postId })` keeps. */
  function NotOnPost(postId: Id): Comment -> bool {
    (c: Comment) => c.postId != postId
  }

  /** Removing the record at `i` keeps exactly the other records. */
  function RemoveAt<T>(s: seq<T>, i: nat): (r: seq<T>)
    requires i < |s|
    ensures |r| == |s| - 1
    ensures forall k :: 0 <= k < i ==> r[k] == s[k]
    ensures forall k :: i <= k < |r| ==> r[k] == s[k + 1]
    ensures forall x :: x in r ==> x in s
  {
    s[..i] + s[i + 1..]
  }
}
