/** The handlers of controllers/user.controller.js over the user collection.
    bcrypt, `jwt.sign`, Google's `verifyIdToken`, cloudinary and
    `Math.random` are parameters. */
module UserController {
  import opened Common
  import opened Text
  import opened UserModel
  import opened EmailRule
  import opened Database
  import opened Authentication

  // ---------------------------------------------------------------- register

  /** The fields `register` reads from the body. */
  datatype RegisterBody = RegisterBody(
    firstName: Option<string>,
    lastName: Option<string>,
    email: Option<string>,
    password: Option<string>,
    userName: Option<string>)

  predicate AllFieldsPresent(b: RegisterBody) {
    Truthy(b.firstName) && Truthy(b.lastName) && Truthy(b.email) && Truthy(b.password) && Truthy(b.userName)
  }

  const MinPasswordLength: nat := 6

  /** The guard chain of `register`, in the order the source runs it: the
      reply of the first check that fails, or `None` when all pass. */
  function RegisterCheck(users: seq<User>, b: RegisterBody): (r: Option<Response>)
    ensures r.Some? ==> r.value.code == 400
    ensures r == Some(Response(400, "All fields are required")) <==> !AllFieldsPresent(b)
    ensures r == Some(Response(400, "Invalid email")) <==>
              AllFieldsPresent(b) && !MatchesEmailPattern(b.email.value)
    ensures r == Some(Response(400, "Password must be at least 6 characters")) <==>
              AllFieldsPresent(b) && MatchesEmailPattern(b.email.value)
              && |b.password.value| < MinPasswordLength
    ensures r == Some(Response(400, "Email already exists")) <==>
              AllFieldsPresent(b) && MatchesEmailPattern(b.email.value)
              && |b.password.value| >= MinPasswordLength
              && exists u :: u in users && u.email == NormalizeEmail(b.email.value)
    ensures r == Some(Response(400, "Username already exists")) <==>
              AllFieldsPresent(b) && MatchesEmailPattern(b.email.value)
              && |b.password.value| >= MinPasswordLength
              && (forall u :: u in users ==> u.email != NormalizeEmail(b.email.value))
              && exists u :: u in users && u.userName == b.userName.value
    ensures r.None? <==>
              AllFieldsPresent(b) && MatchesEmailPattern(b.email.value)
              && |b.password.value| >= MinPasswordLength
              && (forall u :: u in users ==> u.email != NormalizeEmail(b.email.value))
              && (forall u :: u in users ==> u.userName != b.userName.value)
  {
    if !AllFieldsPresent(b) then Some(Response(400, "All fields are required"))
    else if !IsValidEmail(b.email.value) then Some(Response(400, "Invalid email"))
    else if |b.password.value| < MinPasswordLength then Some(Response(400, "Password must be at least 6 characters"))
    else if FindUserByEmail(users, b.email.value).Some? then Some(Response(400, "Email already exists"))
    else if FindUserByUserName(users, b.userName.value).Some? then Some(Response(400, "Username already exists"))
    else None
  }

  /** `User.findOne({ userName })` as the schema makes it behave. The user
      schema has no `userName` path, so strict mode drops it on create and
      no stored document has one. With `strictQuery` (the Mongoose 6
      default) the unknown key is stripped from the filter, which then holds
      for every user; without it (the Mongoose 7 default) the key stays and
      holds for no stored user. `findOne` returns the first match. */
  function FindUserByUserNameAsWritten(users: seq<User>, strictQuery: bool): (r: Option<nat>)
    ensures r.Some? <==> strictQuery && |users| > 0
    ensures r.Some? ==> r.value == 0
  {
    Find(users, (u: User) => strictQuery)
  }

  /** The guard chain of `register` as it runs against that schema: the
      first four guards are those of `RegisterCheck`, the user-name guard
      uses the query above. */
  function RegisterCheckAsWritten(users: seq<User>, b: RegisterBody, strictQuery: bool): (r: Option<Response>)
    ensures RegisterCheck(users, b).Some? && RegisterCheck(users, b).value != Response(400, "Username already exists")
            ==> r == RegisterCheck(users, b)
    ensures r == Some(Response(400, "Username already exists")) <==>
              && (RegisterCheck(users, b).None? || RegisterCheck(users, b) == Some(Response(400, "Username already exists")))
              && strictQuery && |users| > 0
  {
    var check := RegisterCheck(users, b);
    if check.Some? && check.value != Response(400, "Username already exists") then check
    else if FindUserByUserNameAsWritten(users, strictQuery).Some? then Some(Response(400, "Username already exists"))
    else None
  }

  /** Without `strictQuery`, a taken user name is let through: where the
      intended chain refuses the name, the chain as written passes on to
      `User.create`. */
  lemma TakenUserNameAcceptedAsWritten(users: seq<User>, b: RegisterBody)
    requires RegisterCheck(users, b) == Some(Response(400, "Username already exists"))
    ensures RegisterCheckAsWritten(users, b, false).None?
  {
  }

  /** With `strictQuery`, a fresh user name is refused as soon as any user
      exists: where the intended chain accepts, the chain as written says
      the name is taken. */
  lemma FreshUserNameRefusedAsWritten(users: seq<User>, b: RegisterBody)
    requires RegisterCheck(users, b).None? && |users| > 0
    ensures RegisterCheckAsWritten(users, b, true) == Some(Response(400, "Username already exists"))
  {
  }

  /** What `register` passes to `User.create`: the body's fields with the
      password replaced by its hash. */
  function AccountFields(b: RegisterBody, hashed: string): UserFields
    requires AllFieldsPresent(b)
  {
    UserFields(b.firstName.value, b.lastName.value, b.email.value, b.userName.value, Some(hashed), None)
  }

  /** `register`: a failed guard replies 400 and changes nothing; otherwise
      the user is created with the bcrypt hash (`hash`) of the password,
      unless schema validation rejects it (500). */
  method Register(db: Db, b: RegisterBody, hash: string -> string) returns (reply: Response)
    requires db.Valid()
    modifies db`users, db`nextId
    ensures db.Valid()
    ensures RegisterCheck(old(db.users), b).Some? ==>
              reply == RegisterCheck(old(db.users), b).value && unchanged(db)
    ensures RegisterCheck(old(db.users), b).None? ==>
              var created := CreateUser(old(db.nextId), AccountFields(b, hash(b.password.value)));
              if created.None? then
                reply == Response(500, "Failed to register") && unchanged(db)
              else
                && reply == Response(201, "Account Created Successfully")
                && db.users == old(db.users) + [created.value]
                && created.value.password == Some(hash(b.password.value))
                && created.value.email == NormalizeEmail(b.email.value)
                && db.nextId == old(db.nextId) + 1
  {
    var check := RegisterCheck(db.users, b);
    if check.Some? {
      return check.value;
    }
    var hashedPassword := hash(b.password.value);
    var created := CreateUser(db.nextId, AccountFields(b, hashedPassword));
    if created.None? {
      return Response(500, "Failed to register");
    }
    db.AddUser(created.value);
    reply := Response(201, "Account Created Successfully");
  }

  // ---------------------------------------------------------------- login

  /** The payload `login` and `googleLogin` sign as written:
      `{ userId: user._id }`. */
  function LoginClaims(id: Id): Claims
  {
    Claims(None, Some(id))
  }

  /** A token carrying the payload as written passes `isAuthenticated` but
      leaves `req.id` unset: the middleware reads `id`, the token has `userId`. */
  lemma LoginTokenCarriesNoId(id: Id, t: string, verify: string -> Option<Claims>)
    requires ' ' !in t && verify(t) == Some(LoginClaims(id))
    ensures Authenticate(Some(BearerPrefix + t), verify) == Accepted(None)
  {
    AcceptsVerifiedToken(t, verify, LoginClaims(id));
  }

  /** The payload the login handlers evidently mean to sign, `{ id: user._id }`
      (what controllers/Auth.js signs, and what the middleware reads). */
  function SessionClaims(id: Id): Claims
  {
    Claims(Some(id), None)
  }

  /** The reply of `login`, the user it returns and the claims of the token
      it sets in the cookie. */
  datatype LoginOutcome = LoginOutcome(reply: Response, user: Option<User>, claims: Option<Claims>)

  /** `login`, with `bcrypt.compare` as `compare`. It reads the store and
      never writes it. A user without a stored password makes `compare`
      throw (500). The token carries `SessionClaims`. */
  function Login(users: seq<User>, email: Option<string>, password: Option<string>,
                 compare: (string, string) -> bool): (r: LoginOutcome)
    ensures r.reply == Response(400, "All fields are required") <==> !Truthy(email) || !Truthy(password)
    ensures r.reply == Response(400, "Incorrect email or password") <==>
              Truthy(email) && Truthy(password) && FindUserByEmail(users, email.value).None?
    ensures r.reply == Response(500, "Failed to Login") <==>
              Truthy(email) && Truthy(password) && FindUserByEmail(users, email.value).Some?
              && users[FindUserByEmail(users, email.value).value].password.None?
    ensures r.reply == Response(400, "Invalid Credentials") <==>
              && Truthy(email) && Truthy(password) && FindUserByEmail(users, email.value).Some?
              && var u := users[FindUserByEmail(users, email.value).value];
                 u.password.Some? && !compare(password.value, u.password.value)
    ensures r.reply.code == 200 <==>
              && Truthy(email) && Truthy(password) && FindUserByEmail(users, email.value).Some?
              && var u := users[FindUserByEmail(users, email.value).value];
                 u.password.Some? && compare(password.value, u.password.value)
    ensures r.reply.code == 200 ==>
              var u := users[FindUserByEmail(users, email.value).value];
              && u.email == NormalizeEmail(email.value)
              && r.user == Some(u) && r.claims == Some(SessionClaims(u.id))
              && r.reply.message == "Welcome back " + u.firstName
    ensures r.reply.code != 200 ==> r.user.None? && r.claims.None?
  {
    if !Truthy(email) || !Truthy(password) then
      LoginOutcome(Response(400, "All fields are required"), None, None)
    else match FindUserByEmail(users, email.value)
      case None => LoginOutcome(Response(400, "Incorrect email or password"), None, None)
      case Some(i) =>
        var u := users[i];
        if u.password.None? then LoginOutcome(Response(500, "Failed to Login"), None, None)
        else if !compare(password.value, u.password.value) then
          LoginOutcome(Response(400, "Invalid Credentials"), None, None)
        else LoginOutcome(Response(200, "Welcome back " + u.firstName), Some(u), Some(SessionClaims(u.id)))
  }

  /** A token issued by a successful login authenticates as the user who
      logged in. */
  lemma LoginTokenIdentifiesUser(users: seq<User>, email: Option<string>, password: Option<string>,
                                 compare: (string, string) -> bool, t: string, verify: string -> Option<Claims>)
    requires Login(users, email, password, compare).reply.code == 200
    requires ' ' !in t && verify(t) == Login(users, email, password, compare).claims
    ensures Authenticate(Some(BearerPrefix + t), verify)
            == Accepted(Some(Login(users, email, password, compare).user.value.id))
  {
    AcceptsVerifiedToken(t, verify, verify(t).value);
  }

  // ---------------------------------------------------------------- google

  /** The fields of a verified Google ID token the handler reads. */
  datatype GooglePayload = GooglePayload(
    email: string,
    givenName: Option<string>,
    familyName: Option<string>,
    picture: Option<string>)

  /** `email.split('@')[0]`: the part before the first `@`. */
  function UserNameOf(email: string): (n: string)
    ensures '@' !in n && |n| <= |email| && n == email[..|n|]
    ensures |n| < |email| ==> email[|n|] == '@'
  {
    Split(email, '@')[0]
  }

  /** What `googleLogin` passes to `User.create`; a missing name becomes
      `""`, which `required` rejects as it rejects `undefined`. */
  function GoogleAccountFields(p: GooglePayload, hashed: string): UserFields {
    UserFields(p.givenName.GetOr(""), p.familyName.GetOr(""), p.email, UserNameOf(p.email),
               Some(hashed), p.picture)
  }

  /** The find-or-create of `googleLogin` on the user collection: the user
      with that e-mail if there is one, otherwise a new user appended,
      or `None` when validation rejects the new user. */
  function GoogleFindOrCreate(users: seq<User>, nextId: Id, p: GooglePayload, hashed: string)
    : (r: Option<(seq<User>, User)>)
    ensures FindUserByEmail(users, p.email).Some? ==>
              r == Some((users, users[FindUserByEmail(users, p.email).value]))
    ensures FindUserByEmail(users, p.email).None? ==>
              && (r.Some? <==> CreateUser(nextId, GoogleAccountFields(p, hashed)).Some?)
              && (r.Some? ==> r.value.0 == users + [r.value.1]
                              && r.value.1.id == nextId
                              && r.value.1.userName == UserNameOf(p.email)
                              && r.value.1.password == Some(hashed))
    ensures r.Some? ==> r.value.1.email == NormalizeEmail(p.email) && r.value.1 in r.value.0
  {
    match FindUserByEmail(users, p.email)
    case Some(i) => Some((users, users[i]))
    case None =>
      match CreateUser(nextId, GoogleAccountFields(p, hashed))
      case None => None
      case Some(u) => Some((users + [u], u))
  }

  /** A second Google login with the same e-mail creates nothing and returns
      the same user, whatever the id and hash it would have used. */
  lemma GoogleLoginIdempotent(users: seq<User>, nextId: Id, p: GooglePayload, hashed: string,
                              nextId2: Id, hashed2: string)
    requires GoogleFindOrCreate(users, nextId, p, hashed).Some?
    ensures var r := GoogleFindOrCreate(users, nextId, p, hashed).value;
            GoogleFindOrCreate(r.0, nextId2, p, hashed2) == Some(r)
  {
    var r := GoogleFindOrCreate(users, nextId, p, hashed).value;
    if FindUserByEmail(users, p.email).None? {
      var all := users + [r.1];
      assert all[|users|] == r.1;
      assert forall k :: 0 <= k < |users| ==> all[k].email != NormalizeEmail(p.email) by {
        forall k | 0 <= k < |users| ensures all[k].email != NormalizeEmail(p.email) {
          assert all[k] == users[k] && users[k] in users;
        }
      }
      var found := FindUserByEmail(all, p.email);
      assert r.1 in all;
      assert found.Some? && found.value == |users|;
    }
  }

  /** `googleLogin`: 500 when Google rejects the token or the new user fails
      validation; otherwise the find-or-create above, a welcome, and a token
      with `SessionClaims`. The
      random password is the hash of `randomText` (`Math.random()` in base 36). */
  method GoogleLogin(db: Db, token: string, verifyIdToken: string -> Option<GooglePayload>,
                     hash: string -> string, randomText: string)
    returns (reply: Response, user: Option<User>, claims: Option<Claims>)
    requires db.Valid()
    modifies db`users, db`nextId
    ensures db.Valid()
    ensures verifyIdToken(token).None? ==>
              reply == Response(500, "Google login failed") && user.None? && claims.None? && unchanged(db)
    ensures verifyIdToken(token).Some? ==>
              var r := GoogleFindOrCreate(old(db.users), old(db.nextId), verifyIdToken(token).value, hash(randomText));
              if r.None? then
                reply == Response(500, "Google login failed") && user.None? && claims.None? && unchanged(db)
              else
                && db.users == r.value.0 && user == Some(r.value.1) && claims == Some(SessionClaims(r.value.1.id))
                && reply == Response(200, "Welcome " + r.value.1.firstName)
                && db.nextId == old(db.nextId) + |db.users| - |old(db.users)|
  {
    var payload := verifyIdToken(token);
    if payload.None? {
      return Response(500, "Google login failed"), None, None;
    }
    var p := payload.value;
    var found := FindUserByEmail(db.users, p.email);
    if found.Some? {
      user := Some(db.users[found.value]);
    } else {
      var created := CreateUser(db.nextId, GoogleAccountFields(p, hash(randomText)));
      if created.None? {
        return Response(500, "Google login failed"), None, None;
      }
      db.AddUser(created.value);
      user := created;
    }
    reply := Response(200, "Welcome " + user.value.firstName);
    claims := Some(SessionClaims(user.value.id));
  }

  // ---------------------------------------------------------------- profile

  /** The fields `updateProfile` reads from the body. */
  datatype ProfileEdit = ProfileEdit(
    firstName: Option<string>,
    lastName: Option<string>,
    occupation: Option<string>,
    bio: Option<string>,
    instagram: Option<string>,
    facebook: Option<string>,
    linkedin: Option<string>,
    github: Option<string>)

  /** The conditional assignments of `updateProfile`: each truthy field
      overwrites the stored one (through the `trim` setter where the schema
      has one) and `photoUrl` takes the uploaded picture's URL. A field that
      is not supplied keeps its value, and the identity, e-mail, user name,
      password and `googleId` never change. */
  function MergeProfile(u: User, e: ProfileEdit, photoUrl: Option<string>): (r: User)
    ensures r.id == u.id && r.email == u.email && r.userName == u.userName
    ensures r.password == u.password && r.googleId == u.googleId
    ensures !Truthy(e.firstName) ==> r.firstName == u.firstName
    ensures !Truthy(e.lastName) ==> r.lastName == u.lastName
    ensures !Truthy(e.occupation) ==> r.occupation == u.occupation
    ensures !Truthy(e.bio) ==> r.bio == u.bio
    ensures !Truthy(e.instagram) ==> r.instagram == u.instagram
    ensures !Truthy(e.facebook) ==> r.facebook == u.facebook
    ensures !Truthy(e.linkedin) ==> r.linkedin == u.linkedin
    ensures !Truthy(e.github) ==> r.github == u.github
    ensures photoUrl.None? ==> r.photoUrl == u.photoUrl
  {
    User(u.id, TrimmedOr(e.firstName, u.firstName), TrimmedOr(e.lastName, u.lastName), u.email,
         u.userName, u.password, u.googleId, photoUrl.GetOr(u.photoUrl), ValueOr(e.bio, u.bio),
         if Truthy(e.occupation) then Some(Trim(e.occupation.value)) else u.occupation,
         ValueOr(e.instagram, u.instagram), ValueOr(e.linkedin, u.linkedin),
         ValueOr(e.github, u.github), ValueOr(e.facebook, u.facebook))
  }

  /** `if (x) field = x`. */
  function ValueOr(x: Option<string>, current: string): string {
    if Truthy(x) then x.value else current
  }

  /** `if (x) field = x` on a path with the `trim` setter. */
  function TrimmedOr(x: Option<string>, current: string): string {
    if Truthy(x) then Trim(x.value) else current
  }

  /** Each supplied field holds the supplied value, trimmed where the schema
      trims, whatever was stored before. */
  lemma MergeProfileOverwrites(u: User, e: ProfileEdit, photoUrl: Option<string>)
    ensures var r := MergeProfile(u, e, photoUrl);
            && (Truthy(e.firstName) ==> r.firstName == Trim(e.firstName.value))
            && (Truthy(e.lastName) ==> r.lastName == Trim(e.lastName.value))
            && (Truthy(e.occupation) ==> r.occupation == Some(Trim(e.occupation.value)))
            && (Truthy(e.bio) ==> r.bio == e.bio.value)
            && (Truthy(e.instagram) ==> r.instagram == e.instagram.value)
            && (Truthy(e.facebook) ==> r.facebook == e.facebook.value)
            && (Truthy(e.linkedin) ==> r.linkedin == e.linkedin.value)
            && (Truthy(e.github) ==> r.github == e.github.value)
            && (photoUrl.Some? ==> r.photoUrl == photoUrl.value)
  {
  }

  /** The `trim` setters leave the merged profile in normal form. */
  lemma MergeKeepsNormalized(u: User, e: ProfileEdit, photoUrl: Option<string>)
    requires Normalized(u)
    ensures Normalized(MergeProfile(u, e, photoUrl))
  {
    TrimIdempotent(e.firstName.GetOr(""));
    TrimIdempotent(e.lastName.GetOr(""));
    TrimIdempotent(e.occupation.GetOr(""));
  }

  /** An edit that supplies nothing, without an upload, changes nothing;
      repeating an edit is the same as making it once. */
  lemma MergeProfileLaws(u: User, e: ProfileEdit, photoUrl: Option<string>)
    ensures MergeProfile(u, ProfileEdit(None, None, None, None, None, None, None, None), None) == u
    ensures MergeProfile(MergeProfile(u, e, photoUrl), e, photoUrl) == MergeProfile(u, e, photoUrl)
  {
  }

  /** The validators `user.save()` runs on a profile: the document was loaded
      with `.select("-password")`, so the password rule is not checked. */
  predicate ProfileSaveAccepts(m: User) {
    m.firstName != "" && m.lastName != "" && m.email != "" && |m.bio| <= BioMaxLength
  }

  /** With the password and `googleId` of a valid stored user kept, the
      profile check is the full schema check. */
  lemma ProfileSaveIsValidation(u: User, m: User)
    requires ValidUser(u) && m.password == u.password && m.googleId == u.googleId
    ensures ValidUser(m) <==> ProfileSaveAccepts(m)
  {
  }

  /** A user document as `.select("-password")` returns it. */
  function WithoutPassword(u: User): (r: User)
    ensures r.password.None?
    ensures r.(password := u.password) == u
  {
    User(u.id, u.firstName, u.lastName, u.email, u.userName, None, u.googleId, u.photoUrl, u.bio,
         u.occupation, u.instagram, u.linkedin, u.github, u.facebook)
  }

  /** A merged profile that `save` accepts may replace a valid stored user:
      it is valid, in normal form, and keeps the id and e-mail. */
  lemma MergedProfileStorable(u: User, e: ProfileEdit, photoUrl: Option<string>)
    requires ValidUser(u) && Normalized(u) && ProfileSaveAccepts(MergeProfile(u, e, photoUrl))
    ensures var m := MergeProfile(u, e, photoUrl);
            ValidUser(m) && Normalized(m) && m.id == u.id && m.email == u.email
  {
    ProfileSaveIsValidation(u, MergeProfile(u, e, photoUrl));
    MergeKeepsNormalized(u, e, photoUrl);
  }

  /** `updateProfile`: 404 without a stored caller; 500 when the merged
      profile fails validation (an over-long `bio`, a name of blanks);
      otherwise the merged profile is stored and returned without password. */
  method UpdateProfile(db: Db, reqId: Option<Id>, e: ProfileEdit, photoUrl: Option<string>)
    returns (reply: Response, user: Option<User>)
    requires db.Valid()
    modifies db`users
    ensures db.Valid()
    ensures (reqId.None? || FindUser(old(db.users), reqId.value).None?) ==>
              reply == Response(404, "User not found") && user.None? && unchanged(db)
    ensures reqId.Some? && FindUser(old(db.users), reqId.value).Some? ==>
              var i := FindUser(old(db.users), reqId.value).value;
              var merged := MergeProfile(old(db.users)[i], e, photoUrl);
              if !ProfileSaveAccepts(merged) then
                reply == Response(500, "Failed to update profile") && user.None? && unchanged(db)
              else
                && reply == Response(200, "Profile updated successfully")
                && db.users == old(db.users)[i := merged]
                && user == Some(WithoutPassword(merged))
  {
    if reqId.None? {
      return Response(404, "User not found"), None;
    }
    var found := FindUser(db.users, reqId.value);
    if found.None? {
      return Response(404, "User not found"), None;
    }
    var i := found.value;
    var u := db.users[i];
    assert u in db.users;
    var merged := MergeProfile(u, e, photoUrl);
    if !ProfileSaveAccepts(merged) {
      return Response(500, "Failed to update profile"), None;
    }
    MergedProfileStorable(u, e, photoUrl);
    db.SetUser(i, merged);
    reply, user := Response(200, "Profile updated successfully"), Some(WithoutPassword(merged));
  }

  // ---------------------------------------------------------------- list

  /** The JSON of `getAllUsers`. */
  datatype UserList = UserList(total: nat, users: seq<User>)

  /** `getAllUsers`: every user in natural order with the password left out,
      and their number. */
  function GetAllUsers(users: seq<User>): (r: UserList)
    ensures r.total == |users| == |r.users|
    ensures forall i :: 0 <= i < |users| ==> r.users[i] == WithoutPassword(users[i])
    ensures forall u :: u in r.users ==> u.password.None?
  {
    var listed := seq(|users|, i requires 0 <= i < |users| => WithoutPassword(users[i]));
    UserList(|listed|, listed)
  }
}
