/** The `isAuthenticated` middleware (middleware/isAuthenticated.js): parse
    an `Authorization: Bearer <token>` header, verify the token, and either
    reply 401 or record the caller's id on the request and pass it on. */
module Authentication {
  import opened Common
  import opened Text

  /** The payload of a verified token. The middleware reads `id`; the login
      handlers of controllers/user.controller.js sign `userId`. */
  datatype Claims = Claims(id: Option<Id>, userId: Option<Id>)

  const BearerPrefix: string := "Bearer "

  predicate HasBearerPrefix(h: string) {
    |BearerPrefix| <= |h| && h[..|BearerPrefix|] == BearerPrefix
  }

  /** `authHeader.split(" ")[1]`: the second space-separated field, which
      starts right after the prefix and runs to the next space or the end. */
  function BearerToken(h: string): (t: string)
    requires HasBearerPrefix(h)
    ensures ' ' !in t
    ensures 7 + |t| <= |h| && t == h[7..7 + |t|]
    ensures 7 + |t| == |h| || h[7 + |t|] == ' '
  {
    SplitAfterPrefix(h);
    Split(h, ' ')[1]
  }

  /** Splitting a header with the prefix on spaces gives `"Bearer"` and
      then the pieces of what follows the prefix. */
  lemma SplitAfterPrefix(h: string)
    requires HasBearerPrefix(h)
    ensures Split(h, ' ') == [h[..6]] + Split(h[7..], ' ')
    ensures |Split(h, ' ')| >= 2 && Split(h, ' ')[1] == Split(h[7..], ' ')[0]
    ensures var t := Split(h[7..], ' ')[0];
            7 + |t| <= |h| && t == h[7..7 + |t|] && (7 + |t| == |h| || h[7 + |t|] == ' ')
  {
    assert h[6] == ' ';
    assert ' ' !in h[..6] by { assert h[..6] == "Bearer"; }
    assert IndexOf(h, ' ') == Some(6);
    var t := Split(h[7..], ' ')[0];
    assert t == h[7..][..|t|];
  }

  /** For a header built as `"Bearer " + t` with a token free of spaces, the
      extracted token is `t`. */
  lemma BearerTokenOf(t: string)
    requires ' ' !in t
    ensures HasBearerPrefix(BearerPrefix + t)
    ensures BearerToken(BearerPrefix + t) == t
  {
    var h := BearerPrefix + t;
    assert h[..|BearerPrefix|] == BearerPrefix;
    assert IndexOf(h, ' ') == Some(6) by {
      assert h[6] == ' ';
      assert ' ' !in h[..6] by { assert h[..6] == "Bearer"; }
    }
    assert h[7..] == t;
    assert IndexOf(t, ' ') == None;
    assert Split(t, ' ') == [t];
    assert Split(h, ' ') == [h[..6]] + Split(t, ' ');
  }

  /** What the middleware decides: a reply that ends the request, or the
      value it stores in `req.id` before calling `next`. */
  datatype AuthOutcome = Rejected(reply: Response) | Accepted(id: Option<Id>)

  /** The decision of `isAuthenticated`, with `jwt.verify` as the oracle
      `verify` (`None` is a token it throws on). */
  function Authenticate(header: Option<string>, verify: string -> Option<Claims>): (r: AuthOutcome)
    ensures r.Rejected? ==> r.reply.code == 401
    ensures r == Rejected(Response(401, "User not authenticated"))
            <==> header.None? || !HasBearerPrefix(header.value)
    ensures r == Rejected(Response(401, "Invalid token"))
            <==> header.Some? && HasBearerPrefix(header.value) && verify(BearerToken(header.value)).None?
    ensures r.Accepted? <==> header.Some? && HasBearerPrefix(header.value)
                             && verify(BearerToken(header.value)).Some?
    ensures r.Accepted? ==> r.id == verify(BearerToken(header.value)).value.id
  {
    if header.None? || !HasBearerPrefix(header.value) then
      Rejected(Response(401, "User not authenticated"))
    else
      match verify(BearerToken(header.value))
      case None => Rejected(Response(401, "Invalid token"))
      case Some(decoded) => Accepted(decoded.id)
  }

  /** A well-formed header whose token verifies is accepted with exactly the
      id in the token. */
  lemma AcceptsVerifiedToken(t: string, verify: string -> Option<Claims>, c: Claims)
    requires ' ' !in t && verify(t) == Some(c)
    ensures Authenticate(Some(BearerPrefix + t), verify) == Accepted(c.id)
  {
    BearerTokenOf(t);
  }

  /** The request as the middleware sees it: the `Authorization` header, the
      `req.id` it sets, and how many times `next` has been called. */
  class Request {
    const authorization: Option<string>
    var id: Option<Id>
    var nextCalls: nat

    constructor (authorization: Option<string>)
      ensures this.authorization == authorization && id.None? && nextCalls == 0
    {
      this.authorization := authorization;
      id := None;
      nextCalls := 0;
    }
  }

  /** `isAuthenticated(req, res, next)`: on a 401 it returns the reply and
      leaves `req` alone; otherwise it sets `req.id` to the token's `id`,
      calls `next` once and returns no reply. */
  method IsAuthenticated(req: Request, verify: string -> Option<Claims>) returns (reply: Option<Response>)
    modifies req
    ensures reply.Some? <==> Authenticate(req.authorization, verify).Rejected?
    ensures reply.Some? ==> reply.value == Authenticate(req.authorization, verify).reply
                            && req.id == old(req.id) && req.nextCalls == old(req.nextCalls)
    ensures reply.None? ==> req.id == Authenticate(req.authorization, verify).id
                            && req.nextCalls == old(req.nextCalls) + 1
  {
    var outcome := Authenticate(req.authorization, verify);
    match outcome
    case Rejected(r) =>
      reply := Some(r);
    case Accepted(id) =>
      req.id := id;
      req.nextCalls := req.nextCalls + 1;
      reply := None;
  }
}
