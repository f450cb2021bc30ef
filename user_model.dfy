/** The User schema (models/user.model.js): fields, defaults, the `trim` and
    `lowercase` setters, and the validators that `User.create` and `save`
    run. */
module UserModel {
  import opened Common
  import opened Text

  /** A stored user. `userName` is written and queried by the controllers
      (see README); `password` and `googleId` are optional paths. */
  datatype User = User(
    id: Id,
    firstName: string,
    lastName: string,
    email: string,
    userName: string,
    password: Option<string>,
    googleId: Option<string>,
    photoUrl: string,
    bio: string,
    occupation: Option<string>,
    instagram: string,
    linkedin: string,
    github: string,
    facebook: string)

  /** The `maxlength` of `bio`. */
  const BioMaxLength: nat := 500

  /** The password path's `required` function: `!this.googleId`. */
  predicate PasswordRequired(u: User) { !Truthy(u.googleId) }

  /** The schema's validators: `firstName`, `lastName` and `email` are
      required (a `required` string must be non-empty), `password` is
      required unless `googleId` is set, and `bio` is at most 500 long. */
  predicate ValidUser(u: User) {
    && u.firstName != "" && u.lastName != "" && u.email != ""
    && (PasswordRequired(u) ==> Truthy(u.password))
    && |u.bio| <= BioMaxLength
  }

  /** The `lowercase` and `trim` setters of `email`. */
  function NormalizeEmail(e: string): (r: string)
    ensures Trimmed(r)
    ensures forall i :: 0 <= i < |r| ==> !IsUpper(r[i])
    ensures |r| == |Trim(e)| && forall i :: 0 <= i < |r| ==> r[i] == LowerChar(Trim(e)[i])
  {
    ToLowerTrimmed(Trim(e));
    ToLower(Trim(e))
  }

  /** Normalising an e-mail twice is normalising it once. */
  lemma NormalizeEmailIdempotent(e: string)
    ensures NormalizeEmail(NormalizeEmail(e)) == NormalizeEmail(e)
  {
    var t := Trim(e);
    ToLowerTrimmed(t);
    TrimTrimmed(ToLower(t));
  }

  /** What the setters leave in a stored document. */
  predicate Normalized(u: User) {
    && u.firstName == Trim(u.firstName)
    && u.lastName == Trim(u.lastName)
    && u.email == NormalizeEmail(u.email)
    && (u.occupation.Some? ==> u.occupation.value == Trim(u.occupation.value))
  }

  /** The values a controller passes to `User.create`; `None` is a key that
      is absent or `undefined`. */
  datatype UserFields = UserFields(
    firstName: string,
    lastName: string,
    email: string,
    userName: string,
    password: Option<string>,
    photoUrl: Option<string>)

  /** The document `User.create` builds before validating: setters applied
      and defaults filled in (`googleId` null, `photoUrl`, `bio` and the
      social links `""`, no `occupation`). */
  function NewUser(id: Id, f: UserFields): (u: User)
    ensures Normalized(u)
    ensures u.id == id && u.userName == f.userName && u.password == f.password
    ensures u.firstName == Trim(f.firstName) && u.lastName == Trim(f.lastName)
    ensures u.email == NormalizeEmail(f.email)
    ensures u.googleId.None? && u.occupation.None?
    ensures u.photoUrl == f.photoUrl.GetOr("") && u.bio == ""
    ensures u.instagram == "" && u.linkedin == "" && u.github == "" && u.facebook == ""
  {
    TrimIdempotent(f.firstName);
    TrimIdempotent(f.lastName);
    NormalizeEmailIdempotent(f.email);
    User(id, Trim(f.firstName), Trim(f.lastName), NormalizeEmail(f.email), f.userName,
         f.password, None, f.photoUrl.GetOr(""), "", None, "", "", "", "")
  }

  /** Which created documents pass validation: a non-empty password (no
      `googleId` is set) and names and e-mail that are not blank. */
  lemma NewUserValidity(id: Id, f: UserFields)
    ensures ValidUser(NewUser(id, f)) <==>
              && f.password.Some? && f.password.value != ""
              && Trim(f.firstName) != "" && Trim(f.lastName) != "" && NormalizeEmail(f.email) != ""
  {
    FreshUserValidity(NewUser(id, f));
  }

  /** A document without `googleId` and with an empty `bio` is valid exactly
      when it has a password and its names and e-mail are not empty. */
  lemma FreshUserValidity(u: User)
    requires u.googleId.None? && u.bio == ""
    ensures ValidUser(u) <==> Truthy(u.password) && u.firstName != "" && u.lastName != "" && u.email != ""
  {
  }

  /** `User.create`: the new document when it passes validation, `None`
      when validation rejects it. */
  function CreateUser(id: Id, f: UserFields): (r: Option<User>)
    ensures r.Some? <==> ValidUser(NewUser(id, f))
    ensures r.Some? ==> r.value == NewUser(id, f)
    ensures r.Some? <==> f.password.Some? && f.password.value != ""
                         && Trim(f.firstName) != "" && Trim(f.lastName) != ""
                         && NormalizeEmail(f.email) != ""
  {
    NewUserValidity(id, f);
    var u := NewUser(id, f);
    if ValidUser(u) then Some(u) else None
  }

  /** Whether a user needs a password depends on `googleId` alone: with the
      other validators satisfied, dropping the password keeps the record
      valid exactly when `googleId` is truthy. */
  lemma PasswordRule(u: User)
    requires ValidUser(u)
    ensures ValidUser(u.(password := None)) <==> Truthy(u.googleId)
    ensures u.googleId.None? ==> Truthy(u.password)
  {
  }
}
