/** The Blog schema (models/blog.model.js). */
module BlogModel {
  import opened Common

  /** A stored blog. `author` is an ObjectId; `likes`, `dislikes` and
      `comments` are arrays of ObjectIds; `createdAt` comes from the
      schema's `timestamps` option. */
  datatype Blog = Blog(
    id: Id,
    title: string,
    subtitle: Option<string>,
    description: Option<string>,
    thumbnail: Option<string>,
    author: Id,
    category: Option<string>,
    likes: seq<Id>,
    dislikes: seq<Id>,
    comments: seq<Id>,
    isPublished: bool,
    createdAt: Time)

  /** The validators `save` runs: `title` is required (non-empty). The
      other required path, `author`, always holds an id here. */
  predicate ValidBlog(b: Blog) { b.title != "" }

  function BlogCreatedAt(b: Blog): nat { b.createdAt }

  /** `Blog.create({ title, category, author })`: validation rejects a missing
      title or author; otherwise the new document has empty `likes`,
      `dislikes` and `comments`, is unpublished, and leaves the optional
      `subtitle`, `description` and `thumbnail` unset. */
  function NewBlog(id: Id, title: string, category: Option<string>, author: Option<Id>, now: Time)
    : (r: Option<Blog>)
    ensures r.Some? <==> title != "" && author.Some?
    ensures r.Some? ==> ValidBlog(r.value)
    ensures r.Some? ==> r.value.id == id && r.value.title == title && r.value.category == category
                        && r.value.author == author.value && r.value.createdAt == now
    ensures r.Some? ==> r.value.likes == [] && r.value.dislikes == [] && r.value.comments == []
    ensures r.Some? ==> !r.value.isPublished
    ensures r.Some? ==> r.value.subtitle.None? && r.value.description.None? && r.value.thumbnail.None?
  {
    if title == "" || author.None? then None
    else Some(Blog(id, title, None, None, None, author.value, category, [], [], [], false, now))
  }
}
