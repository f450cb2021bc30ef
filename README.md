# Blog backend bookkeeping, modelled in Dafny

This project models the bookkeeping core of an Express/Mongoose blog
server. That core is:

- the blog, comment and user controllers;
- the three Mongoose schemas (users, blogs, comments) and the validators and setters they run;
- the `isAuthenticated` middleware that turns a bearer token into `req.id`.

The MongoDB store is a class, `Database.Db`. It holds the three
collections as sequences in natural (insertion) order, plus a counter
that supplies fresh ObjectIds. `Db.Valid()` is the invariant every
handler keeps:

- every stored user passes the schema validators, is in the normal form that
  the `trim`/`lowercase` setters leave, and has an e-mail no other user has
  (the `unique` index);
- no blog and no comment has a user twice in `likes`;
- every comment has content and has `numberOfLikes`/`numberOfDislikes` equal
  to the lengths of its lists;
- every stored id is below the counter, and no two records of a collection
  share an id (the `_id` index), so `findById` finds exactly one record
  (`FindBlogExact`, `FindCommentExact`, `FindUserExact`).

Each state-changing handler is a method on the store. Its postcondition
covers every branch of the source: the error reply with the store unchanged,
or the exact new collections and the reply. The `modifies` clause names the
collections it may touch. Read-only handlers (the listings, the totals,
`login`) are functions of the collections. Modules follow the source files:

- `UserModel`, `BlogModel` and `CommentModel` for the schemas;
- `BlogController`, `CommentController` and `UserController` for the controllers;
- `Authentication` for the middleware;
- `Text` (JavaScript `trim`, the ASCII `lowercase` setter, `split`),
  `EmailRule` (the register e-mail regex), `Sorting` (`sort({createdAt: -1})`),
  `Realtime` (the socket.io channel) and `Common` (Option, replies, find,
  filter, `$pull`, toggle).

External services are parameters of the handlers:

- bcrypt's `hash` and `compare`;
- `jwt.verify`, as a function from token to optional claims;
- Google's `verifyIdToken`;
- the URL cloudinary returns for an upload, as an optional string;
- `Math.random`, as a string;
- the clock, as a `Time`.

`req.id` is an `Option<Id>` parameter wherever the handler tests it for
absence.

The model follows the code, including where the code departs from its
evident design, in the points listed here:

- `User.findOne({ email })` casts the query value through the path's
  `lowercase` and `trim` setters. A lookup by e-mail therefore compares
  normalised e-mails (`FindUserByEmail`).
- `togglePublishBlog` ignores its `publish` query parameter and always
  negates `isPublished`.
- `dislikeBlog` does not touch `dislikes`: it removes the caller from `likes`.
  No handler ever writes a blog's `dislikes`: the store invariant `BlogsOk`
  says every stored blog has none, every handler that writes a blog keeps
  it, and so every `totalDislikes` is 0 (`NoDislikesTotalZero`).
- `createComment` creates the comment before it saves the blog. When that
  save fails (a blog whose title was blanked through `updateBlog`) the reply
  is 500 and the comment stays stored, with no link from the blog.
- `editComment` with missing content fails the `required` validator on save (500).
- `updateProfile` loads the user with `.select("-password")`, so `save` does
  not run the password rule (`ProfileSaveAccepts`). The reply's user carries
  no password.

In three places the model does not follow the code. It states the
behaviour the code evidently intends, and it also models the code as
written and proves the difference. Each is a row under "## Findings":

- The user schema declares no `userName` path. `register` and `googleLogin`
  pass one to `User.create`, and `register` queries it; `login` does neither.
  The model stores `userName` on the user, as the controllers assume. The
  guard as it runs against the schema is `RegisterCheckAsWritten`.
- `login` and `googleLogin` issue a token whose payload is `{ id }`, the
  payload the middleware reads (`SessionClaims`). The code signs
  `{ userId }` (`LoginClaims`).
- `LikeBlog` replies 200 and broadcasts through a registered socket.io
  server. As written no server is registered (`LikeBlogAsWritten`).

The `res` typo in `updateProfile` is a fourth such place: the model gives
the replies the handler evidently intends (see "## Left out").

## Model

| member | source | states |
|---|---|---|
| Common.Without | controllers/blog.controller.js:252 | the result contains exactly the elements of the list other than `x`, and is the list itself when `x` is absent |
| Common.WithoutCount | controllers/comment.controller.js:70 | `$pull`/filter removes every copy of `x` and keeps every other element as often as it occurred; the length drops by the number of copies |
| Common.WithoutDistinct | controllers/blog.controller.js:247-253 | pulling from a duplicate-free list keeps it duplicate-free and shortens it by one exactly when the element was present |
| Common.Toggle | controllers/blog.controller.js:272-281 | membership of `x` flips and membership of every other element is kept |
| Common.ToggleDistinct | controllers/blog.controller.js:272-281 | a toggle keeps a like list duplicate-free and moves its length by one, down when present and up when absent |
| Common.ToggleTwiceAbsent | controllers/blog.controller.js:272-281 | toggling twice from not-liked restores the list exactly |
| Common.ToggleTwicePresent | controllers/blog.controller.js:272-281 | toggling twice from liked restores the list as a multiset, with the user moved to the end |
| Common.Filter | controllers/comment.controller.js:42 | a `find` with a filter keeps exactly the stored elements that satisfy the filter |
| Common.FilterCount | controllers/comment.controller.js:154 | each element that satisfies the filter is kept as often as it is stored, and no other element is kept |
| Text.Trim | models/user.model.js:5-9 | the `trim` setter yields a slice of its input, with no whitespace at either end, such that everything cut off before and after it is whitespace |
| Text.TrimStart | models/user.model.js:5-9 | the cut-off prefix is all whitespace, and the result is a suffix that starts with a non-space |
| Text.TrimEnd | models/user.model.js:5-9 | the cut-off suffix is all whitespace, and the result is a prefix that ends with a non-space |
| Text.TrimIdempotent | models/user.model.js:5-9 | trimming twice equals trimming once |
| Text.ToLower | models/user.model.js:15-21 | the `lowercase` setter maps each character through ASCII lower-casing and keeps the length |
| Text.Split | controllers/user.controller.js:144 | `split` yields at least one piece, no piece contains the separator, the first piece is the prefix before the first separator, and there is one piece exactly when the separator does not occur |
| Text.JoinSplit | controllers/user.controller.js:144 | joining the pieces of a split with the separator gives the original string back |
| EmailRule.IsValidEmail | controllers/user.controller.js:21-22 | the scanner accepts exactly the strings the register regex matches, stated as a local part, `@`, a domain, `.` and two or more letters |
| Sorting.Insert | controllers/blog.controller.js:76 | inserting into a newest-first list keeps it newest-first and adds exactly the one element |
| Sorting.SortNewestFirst | controllers/blog.controller.js:76 | `sort({ createdAt: -1 })` yields a newest-first permutation of its input |
| UserModel.NormalizeEmail | models/user.model.js:15-21 | the stored e-mail is trimmed and has no upper-case letter; it is the trimmed input lower-cased character by character |
| UserModel.NormalizeEmailIdempotent | models/user.model.js:15-21 | normalising an e-mail twice equals normalising it once |
| UserModel.NewUser | models/user.model.js:3-64 | a new document is in setter normal form, with the trimmed names, the normalised e-mail, no `googleId`, no occupation, and empty bio and social links |
| UserModel.NewUserValidity | models/user.model.js:5-41 | a new document passes validation exactly when its password is non-empty and its trimmed names and normalised e-mail are non-empty |
| UserModel.CreateUser | controllers/user.controller.js:54-60 | `User.create` succeeds exactly when validation accepts the new document, and then returns that document |
| UserModel.PasswordRule | models/user.model.js:22-27 | a valid user without its password is still valid exactly when `googleId` is truthy |
| BlogModel.NewBlog | controllers/blog.controller.js:25-29 | `Blog.create` succeeds exactly with a non-empty title and an author; the new blog is unpublished, with empty reaction and comment lists and unset optional paths |
| CommentModel.NewComment | controllers/comment.controller.js:16-20 | `Comment.create` succeeds exactly with non-empty content; the new comment has no parent, no reactions, zero counters and was never edited |
| CommentModel.SyncLikesCount | models/comment.model.js:20-23 | `updateLikesCount` sets `numberOfLikes` to the length of `likes` and changes no other field |
| CommentModel.SyncDislikesCount | models/comment.model.js:25-28 | `updateDislikesCount` sets `numberOfDislikes` to the length of `dislikes` and changes no other field |
| CommentModel.SyncProperties | models/comment.model.js:20-28 | each resynchroniser is idempotent and is the identity exactly on a comment whose counter already agrees; running both puts a comment in sync |
| Database.Db.AddUser | models/user.model.js:15-21 | inserting a validated, normalised user with an unused e-mail keeps the store valid and appends exactly that user |
| Database.Db.AddBlog | controllers/blog.controller.js:25-29 | inserting a blog keeps the store valid and appends exactly that blog |
| Database.Db.AddComment | controllers/comment.controller.js:16-20 | inserting a comment keeps the store valid and appends exactly that comment |
| Database.Db.SetUser | controllers/user.controller.js:221 | saving a valid user over the stored one with the same id and e-mail keeps the store valid and replaces only that user |
| Database.Db.SetBlog | controllers/blog.controller.js:134 | saving a blog keeps the store valid and replaces only that blog |
| Database.Db.SetComment | controllers/comment.controller.js:95 | saving a comment keeps the store valid and replaces only that comment |
| Database.Db.RemoveBlog | controllers/blog.controller.js:193 | deleting removes exactly the blog at that position and keeps the store valid |
| Database.Db.RemoveComment | controllers/comment.controller.js:69 | deleting removes exactly the comment at that position and keeps the store valid |
| Database.Db.RemoveCommentsOn | controllers/blog.controller.js:196 | `deleteMany({ postId })` keeps exactly the comments on other blogs and keeps the store valid |
| Database.Db.UpdateLikesCount | models/comment.model.js:20-23 | the stored comment at that position is resynchronised; nothing else changes |
| Database.Db.UpdateDislikesCount | models/comment.model.js:25-28 | likewise for the dislikes counter |
| Database.FindBlog | controllers/blog.controller.js:184 | `findById` yields a position holding that id, or nothing exactly when no blog has it |
| Database.FindComment | controllers/comment.controller.js:62 | the same for comments |
| Database.FindUser | controllers/user.controller.js:203 | the same for users |
| Database.FindBlogExact | controllers/blog.controller.js:184 | in a valid store, `findById` yields position `i` exactly when the blog there has that id |
| Database.FindCommentExact | controllers/comment.controller.js:62 | the same for comments |
| Database.FindUserExact | controllers/user.controller.js:203 | the same for users |
| Database.FilterKeepsIdsDistinct | controllers/blog.controller.js:196 | `deleteMany` leaves no two comments with the same id |
| Database.FindUserByEmail | controllers/user.controller.js:36 | `findOne({ email })` yields a user whose e-mail equals the normalised query, or nothing exactly when there is none |
| Database.FindUserByUserName | controllers/user.controller.js:44 | `findOne({ userName })` yields a user with that name, or nothing exactly when there is none |
| Database.RemoveAt | controllers/blog.controller.js:193 | removal keeps every other record in order and shortens the collection by one |
| Authentication.BearerToken | middleware/isAuthenticated.js:10 | the token is the part of the header right after `Bearer `, up to the next space or the end, and contains no space |
| Authentication.BearerTokenOf | middleware/isAuthenticated.js:6-10 | the header `"Bearer " + t`, for a space-free `t`, passes the prefix test and yields exactly `t` |
| Authentication.Authenticate | middleware/isAuthenticated.js:4-18 | the middleware rejects with "User not authenticated" exactly when the header is missing or lacks the prefix, and with "Invalid token" exactly when verification fails; otherwise it accepts with the token's `id` |
| Authentication.AcceptsVerifiedToken | middleware/isAuthenticated.js:10-13 | a well-formed header whose token verifies is accepted with exactly the token's `id` |
| Authentication.IsAuthenticated | middleware/isAuthenticated.js:4-18 | on a rejection the reply is returned and the request is untouched; otherwise `req.id` is set and `next` is called once |
| Realtime.Channel.Emit | controllers/blog.controller.js:223-228 | the broadcast appends exactly one event |
| BlogController.CreateBlog | controllers/blog.controller.js:7-43 | 400 without a title or category, 401 without an author; otherwise exactly one new blog with the next id is appended |
| BlogController.ApplyBlogEdit | controllers/blog.controller.js:65-66 | every supplied key overwrites its path, an absent key keeps it, and reactions, comments, the publication flag and the creation time are untouched |
| BlogController.ApplyBlogEditLaws | controllers/blog.controller.js:65-66 | an empty update changes nothing, and applying an update twice equals applying it once |
| BlogController.UpdateBlog | controllers/blog.controller.js:47-72 | 404 for an unknown id; otherwise only that blog is replaced by the edited one |
| BlogController.GetAllBlogs | controllers/blog.controller.js:74-91 | every blog, each as often as stored, newest first |
| BlogController.GetPublishedBlog | controllers/blog.controller.js:93-118 | exactly the published blogs, each as often as stored, newest first |
| BlogController.OwnBlogs | controllers/blog.controller.js:157 | exactly the stored blogs whose author is the user, each as often as it is stored |
| BlogController.GetOwnBlogs | controllers/blog.controller.js:149-177 | 400 exactly when `req.id` is absent; otherwise 200 with exactly the caller's blogs, each as often as it is stored |
| BlogController.TogglePublishBlog | controllers/blog.controller.js:120-147 | 404 for an unknown id, 500 when `save` rejects the blog; otherwise only the flag of that blog is negated, and the message names the new state |
| BlogController.DeleteBlog | controllers/blog.controller.js:180-203 | 404 for an unknown id, 403 unless the caller is the author; otherwise the blog and exactly the comments on it are removed |
| BlogController.DeleteBlogCascade | controllers/blog.controller.js:196 | after the cascade no comment on the blog remains, and every other comment remains as often as before |
| BlogController.PlanLike | controllers/blog.controller.js:205-222 | 404 exactly for an unknown id, 400 exactly when the caller already likes it, 500 exactly when `save` rejects the liked blog; otherwise the first blog with that id gains the caller at the end of `likes` (one longer) |
| BlogController.LikeBlog | controllers/blog.controller.js:205-235 | with a registered socket server: a refusal changes nothing; otherwise only that blog is replaced by the liked one, the reply is 200 and one `reactionUpdate` event with the new lists is broadcast |
| BlogController.LikeBlogAsWritten | controllers/blog.controller.js:205-235 | as the server runs it: a refusal changes nothing; otherwise the like is stored and the reply is 500 |
| BlogController.SaveLike | controllers/blog.controller.js:221-222 | pushing a new liker and saving keeps the store valid and replaces only that blog |
| BlogController.DislikeBlog | controllers/blog.controller.js:237-260 | 404 for an unknown id, 400 when not liked, 500 when `save` rejects it; otherwise the caller leaves `likes` (one shorter) and `dislikes` is untouched |
| BlogController.ToggleBlogLike | controllers/blog.controller.js:262-287 | 404 for an unknown id, 500 when `save` rejects it; otherwise the caller's membership in `likes` flips and `liked` reports the new membership |
| BlogController.ReduceIsSum | controllers/blog.controller.js:298 | the `reduce` with an accumulator computes the accumulator plus the reference sum of the list lengths |
| BlogController.GetMyTotalBlogLikes | controllers/blog.controller.js:290-312 | the number of the caller's blogs, and the total length of their `likes` |
| BlogController.GetMyTotalBlogDislikes | controllers/blog.controller.js:313-335 | the number of the caller's blogs, and the total length of their `dislikes` |
| BlogController.ReplaceMovesTotal | controllers/blog.controller.js:290-335 | replacing one blog without changing its author moves only that author's total, by the change in that blog's list |
| BlogController.LikeRaisesAuthorTotal | controllers/blog.controller.js:221-222 | a like raises the author's `totalLikes` by one and leaves their `totalDislikes` and every other user's totals alone |
| BlogController.OwnBlogsReplace | controllers/blog.controller.js:302 | replacing a blog without changing its author keeps every user's `totalBlogs` |
| BlogController.NoDislikesTotalZero | controllers/blog.controller.js:313-335 | over any collection that meets the store invariant, in which no handler ever adds a dislike, every user's `totalDislikes` is 0 |
| CommentController.CreateComment | controllers/comment.controller.js:5-36 | 400 without content, 404 for an unknown blog; otherwise one new comment is appended, and it is linked from the blog unless the blog's `save` fails (500, comment left unlinked) |
| CommentController.GetCommentsOfPost | controllers/comment.controller.js:39-54 | exactly the comments on the blog, each as often as stored, newest first |
| CommentController.PullComment | controllers/comment.controller.js:70 | the blog with that id loses the comment id from `comments`; every other blog is untouched |
| CommentController.DeleteComment | controllers/comment.controller.js:57-77 | 404 for an unknown id, 403 unless the caller wrote it; otherwise the comment is removed and pulled from its blog |
| CommentController.EditComment | controllers/comment.controller.js:80-102 | 404, 403, and 500 on empty content; otherwise only the content and `editedAt` change, and the reactions and counters are kept |
| CommentController.LikeToggled | controllers/comment.controller.js:113-121 | a like toggle flips the caller's membership in `likes`, moves `numberOfLikes` by one in the same direction, and changes no other field |
| CommentController.LikeToggledKeepsSync | controllers/comment.controller.js:113-121 | the toggle keeps `likes` duplicate-free and keeps `numberOfLikes` equal to its length |
| CommentController.LikeToggledTwice | controllers/comment.controller.js:113-121 | toggling twice restores the counter and the likers as a multiset, and restores the whole comment when it started unliked |
| CommentController.LikeComment | controllers/comment.controller.js:105-134 | 404 for an unknown id; otherwise only that comment becomes the toggled comment, and the message says which way it went |
| CommentController.BlogIds | controllers/comment.controller.js:152 | position by position, the ids of the given blogs |
| CommentController.GetAllCommentsOnMyBlogs | controllers/comment.controller.js:137-167 | with no blogs of the caller, 0 and an empty list; otherwise exactly the comments on one of the caller's blogs, each as often as stored, with their count |
| CommentController.OwnBlogIds | controllers/comment.controller.js:152-154 | a post id is among the caller's blog ids exactly when some blog of the caller has that id |
| CommentController.NoBlogsShortcut | controllers/comment.controller.js:143-150 | the no-blogs shortcut agrees with the general query |
| UserController.RegisterCheck | controllers/user.controller.js:14-50 | each 400 reply of `register` happens exactly when its guard fails and all the guards before it pass, in source order |
| UserController.FindUserByUserNameAsWritten | controllers/user.controller.js:44 | `findOne` on documents without a `userName` path: with the key stripped by `strictQuery` it returns the first user, whenever there is one; with the key kept it returns nothing |
| UserController.RegisterCheckAsWritten | controllers/user.controller.js:14-50 | the first four guards reply as intended; "Username already exists" is replied exactly when they pass, `strictQuery` is on and some user exists |
| UserController.TakenUserNameAcceptedAsWritten | controllers/user.controller.js:44-50 | without `strictQuery`, a registration the intended guard refuses for its taken name passes every guard as written |
| UserController.FreshUserNameRefusedAsWritten | controllers/user.controller.js:44-50 | with `strictQuery`, a registration the intended guards accept is refused as written whenever some user exists |
| UserController.Register | controllers/user.controller.js:10-73 | a failed guard changes nothing; otherwise a user with the hashed password and the normalised e-mail is appended, or 500 when validation rejects it |
| UserController.LoginTokenCarriesNoId | controllers/user.controller.js:102 | a token with the payload as written passes the middleware with `req.id` unset |
| UserController.Login | controllers/user.controller.js:75-125 | each reply happens exactly when its branch is reached, "Invalid Credentials" exactly when the stored hash does not match; on 200 the returned user is the one with the normalised e-mail and a matching password, and the token names that user |
| UserController.LoginTokenIdentifiesUser | controllers/user.controller.js:102 | a token from a successful login authenticates as the user who logged in |
| UserController.UserNameOf | controllers/user.controller.js:144 | the derived user name is the prefix of the e-mail before its first `@`, and contains no `@` |
| UserController.GoogleFindOrCreate | controllers/user.controller.js:138-148 | returns the user with that e-mail if there is one; otherwise appends a new user with the next id and the derived user name, or fails when validation rejects it |
| UserController.GoogleLoginIdempotent | controllers/user.controller.js:138-148 | a second Google login with the same e-mail creates nothing and returns the same user |
| UserController.GoogleLogin | controllers/user.controller.js:127-173 | 500 when Google rejects the token or creation fails; otherwise the find-or-create result is stored and the token names the user |
| UserController.MergeProfile | controllers/user.controller.js:211-219 | a field that is not supplied keeps its value; id, e-mail, user name, password and `googleId` never change |
| UserController.MergeProfileOverwrites | controllers/user.controller.js:211-219 | each supplied field holds the supplied value, trimmed where the schema trims |
| UserController.MergeKeepsNormalized | models/user.model.js:5-14 | the merged profile stays in setter normal form |
| UserController.MergeProfileLaws | controllers/user.controller.js:211-219 | an empty edit changes nothing, and an edit applied twice equals the edit applied once |
| UserController.ProfileSaveIsValidation | controllers/user.controller.js:203 | with the password and `googleId` of a valid user kept, the profile check is the full schema check |
| UserController.WithoutPassword | controllers/user.controller.js:241 | the listed user has no password and is otherwise the stored user |
| UserController.MergedProfileStorable | controllers/user.controller.js:221 | a merged profile that `save` accepts is valid, in normal form, and keeps the id and e-mail |
| UserController.UpdateProfile | controllers/user.controller.js:188-237 | 404 without a stored caller, 500 when `save` rejects the merge; otherwise only that user is replaced by the merge, and it is returned without its password |
| UserController.GetAllUsers | controllers/user.controller.js:239-255 | every user in order, each without its password, and their number |

## Findings

| source | as written | input that shows it | evidently intended | confidence | as-written member | corrected member |
|---|---|---|---|---|---|---|
| controllers/user.controller.js:102 | `login` (and `googleLogin`, line 150) sign `{ userId: user._id }`, but `isAuthenticated` stores `decoded.id` in `req.id` | a user logs in and sends the token back as `Bearer <token>`; the middleware accepts it and sets `req.id` to `undefined`, so `updateProfile` replies 404 and `deleteBlog` replies 403 | sign `{ id: user._id }`, as controllers/Auth.js does, so the token identifies the user | not executed | UserController.LoginTokenCarriesNoId | UserController.LoginTokenIdentifiesUser |
| controllers/user.controller.js:44 | `register` refuses a taken `userName` with `User.findOne({ userName })`, but models/user.model.js:3-64 declares no `userName` path, so `User.create` (lines 54-60) drops it and no stored user has one | Mongoose 7: register `a@x.io` with name `al`, then `b@x.io` with name `al`; both get 201. Mongoose 6 (`strictQuery`): after any first user, every registration with a fresh e-mail gets "Username already exists" | a `userName` path in the schema, so names are stored and the guard refuses exactly a taken name | medium, not executed (the reply depends on the Mongoose major version, which is not part of this model) | UserController.TakenUserNameAcceptedAsWritten | UserController.RegisterCheck |
| controllers/blog.controller.js:223 | `likeBlog` reads `req.app.get("io")` and calls `io.emit` after the save, but server.js never calls `app.set("io", ...)` | any like of an existing blog the caller does not like yet: the like is saved, `io.emit` throws on `undefined`, the reply is 500 "Failed to like blog" and no event is sent | register the socket.io server on the app, so the like replies 200 and broadcasts `reactionUpdate` | high, not executed | BlogController.LikeBlogAsWritten | BlogController.LikeBlog |

## Left out

- I/O and foreign calls: bcrypt, jsonwebtoken, Google's OAuth client,
  cloudinary, multer and socket.io are parameters or a recorded event list.
  Their own behaviour, and the failures they throw, are not modelled,
  except that Google rejecting the token gives a 500.
- Two configuration mismatches are outside the model. `login` signs with
  `SECRET_KEY` while the middleware verifies with `JWT_SECRET`. `login` also
  puts the token in a cookie, while the middleware reads the `Authorization`
  header. The model has one `verify` oracle and takes the header as a parameter.
- The `res` typo in `updateProfile`: the parameter is named `rest`, so
  every `res.status(...)` there throws a ReferenceError. The model describes
  the replies the handler evidently intends (404, 500, 200).
- Timestamps: `createdAt` is given to the create operations; `updatedAt` is
  not modelled.
- `logout` and `fileUris` only set a cookie or echo a data URI; they touch
  no stored state.
- `populate` and `select` projections are left out, except the
  `.select("-password")` of `updateProfile` and `getAllUsers`. Reply
  bodies are modelled as status code, message and the returned documents.
- Catch-all 500 replies for database errors are left out. The store never fails.
- A handler that uses `req.id` without testing it (`likeBlog`,
  `dislikeBlog`, `toggleBlogLike`, `createComment`, `likeComment`, the
  totals and `getAllCommentsOnMyBlogs`) takes a present id.
- Request body values are absent or strings; JSON `null`, numbers and
  arrays in the body are not modelled.
- Text.ToLower: lower-cases ASCII letters only, while JavaScript's
  `toLowerCase` covers all of Unicode.
- Text.Split: lengths count Dafny characters, not JavaScript UTF-16 code units.
- RegisterCheck: `password.length < 6` counts UTF-16 code units in JavaScript; the model counts characters, so a password with characters outside the Basic Multilingual Plane can pass here and fail there. The same holds for the other lengths below.
- ValidUser: the `maxlength: 500` of `bio` (models/user.model.js:40) counts UTF-16 code units; the model counts characters.
- ProfileSaveAccepts: the same `bio` bound, counted in characters.
- UpdateProfile: a `bio` of at most 500 characters but more than 500 UTF-16 code units is stored here and rejected there (500). Separately, with the `res` typo described above the handler throws before any reply.
- RegisterCheck: stored users carry the `userName` that `register` passes, as the guard assumes; as written the schema drops it (see Findings and `RegisterCheckAsWritten`).
- Register: appends a user with its `userName`; as written `User.create` stores no `userName`, so the next registration's user-name guard behaves as `RegisterCheckAsWritten` says.
- NewUser: keeps the `userName` of the fields, which strict mode drops as written.
- FindUserByUserName: matches stored user names; as written no document has one, and the query matches nothing (Mongoose 7) or the first user (Mongoose 6), as `FindUserByUserNameAsWritten` states.
- GoogleFindOrCreate: the new user keeps the derived `userName`, which strict mode drops as written.
- UserController.Login: issues the corrected `{ id }` payload (`SessionClaims`); as written the token carries `{ userId }` and passes the middleware with `req.id` unset (see Findings).
- UserController.GoogleLogin: likewise issues `SessionClaims`, while line 150 signs `{ userId }`.
- BlogController.ApplyBlogEdit: assumes Mongoose drops `undefined` keys from
  the `$set`. The `author: req.id` key behaves the same way.
- routes/comment.route.js imports a `dislikeComment` handler that
  controllers/comment.controller.js does not define. There is nothing to
  model for that route.
- controllers/Auth.js and controllers/auth2.js are alternative Google
  login handlers and are not part of this model; the user routes import
  the Auth.js one. Only the payload Auth.js signs is used, as the corrected
  claims.
- The stray `);` after the comment schema (models/comment.model.js:17) is a
  syntax error in the file; the model describes the schema it evidently declares.
- The 404 branches of `getOwnBlogs` and `getPublishedBlog` are dead:
  `find` always yields an array. The model says so.
- `updateProfile` uploads the picture before the lookup
  (controllers/user.controller.js:198-203). The upload shows up only as the
  resulting URL, so an upload followed by a 404 is not modelled.
  `updateBlog` looks the blog up first.
- Concurrency between requests is left out: each handler runs to completion on its own.
