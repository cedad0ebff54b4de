/** The JWT guard in front of the protected routes: it takes the bearer token
    from the `Authorization` header, has the token library verify it, rejects
    expired tokens and otherwise hands the decoded claims to the next handler. */
module Auth {
  import opened Wrappers
  import opened Text

  /** The decoded payload of a token: the user it was issued to and its
      expiry in seconds since the epoch, either of which may be absent. */
  datatype Claims = Claims(userId: Option<string>, exp: Option<int>)

  /** `header?.split(' ')[1]`, where an empty token counts as none. */
  function BearerToken(header: Option<string>): (r: Option<string>)
    ensures r.Some? ==> r.value != [] && ' ' !in r.value
  {
    match header
    case None => None
    case Some(h) =>
      var fields := Split(h, ' ');
      if |fields| >= 2 && fields[1] != [] then Some(fields[1]) else None
  }

  /** `Authorization: <scheme> <token>`, possibly followed by more
      space-separated text, yields the token. */
  lemma {:induction false} BearerTokenOf(scheme: string, token: string, rest: string)
    requires ' ' !in scheme && ' ' !in token && token != []
    requires rest == [] || rest[0] == ' '
    ensures BearerToken(Some(scheme + " " + token + rest)) == Some(token)
  {
    var h := scheme + " " + token + rest;
    assert h == scheme + [' '] + (token + rest);
    SplitAfterField(scheme, token + rest, ' ');
    SplitFirstField(token, rest, ' ');
  }

  /** A header without a space carries no token. */
  lemma {:induction false} BearerTokenNeedsSpace(h: string)
    requires ' ' !in h
    ensures BearerToken(Some(h)) == None
  {
    SplitNoSep(h, ' ');
  }

  /** `decoded.exp < Math.floor(Date.now() / 1000)`; a missing `exp` never
      compares below a number. */
  predicate Expired(c: Claims, nowMs: nat)
  {
    c.exp.Some? && c.exp.value < nowMs / 1000
  }

  /** The guard's own comparison lets a token expiring at second `e` through
      the whole of that second: it passes exactly while
      `nowMs < (e + 1) * 1000`. The library's check, which comes first, is
      stricter; see `LibraryExpiryFirst`. */
  lemma {:induction false} ExpiryBoundary(e: int, nowMs: nat)
    ensures !Expired(Claims(None, Some(e)), nowMs) <==> nowMs < (e + 1) * 1000
    ensures e == nowMs / 1000 ==> !Expired(Claims(None, Some(e)), nowMs)
  {
    var q := nowMs / 1000;
    assert nowMs == 1000 * q + nowMs % 1000;
    if e >= q {
      assert (e + 1) * 1000 >= (q + 1) * 1000;
    } else {
      assert (e + 1) * 1000 <= q * 1000;
    }
  }

  datatype Decision = Deny(code: nat, message: string) | Admit(claims: Claims)

  /** What the guard does for a request, given the token library's answer
      (`None` when `jwt.verify` throws) and the current time in milliseconds. */
  function Decide(header: Option<string>, verify: string -> Option<Claims>, nowMs: nat): (r: Decision)
    ensures r.Deny? ==> r.code in {401, 403}
  {
    match BearerToken(header)
    case None => Deny(403, "Access denied")
    case Some(token) =>
      match verify(token)
      case None => Deny(403, "Invalid token")
      case Some(claims) =>
        if Expired(claims, nowMs) then Deny(401, "Token has expired") else Admit(claims)
  }

  /** The guard admits a request exactly when the header carries a token, the
      library verifies it, and it has not expired; the claims passed on are
      the verified ones. */
  lemma {:induction false} DecideAdmitsIff(header: Option<string>, verify: string -> Option<Claims>, nowMs: nat, claims: Claims)
    ensures Decide(header, verify, nowMs) == Admit(claims) <==>
      (exists token | BearerToken(header) == Some(token) ::
        verify(token) == Some(claims) && !Expired(claims, nowMs))
  {
    if BearerToken(header).Some? {
      var token := BearerToken(header).value;
      assert BearerToken(header) == Some(token);
    }
  }

  /** Each rejection has its own status: 403 without a token or with one the
      library refuses, 401 only for a verified token that has expired. */
  lemma {:induction false} DecideRejections(header: Option<string>, verify: string -> Option<Claims>, nowMs: nat)
    ensures BearerToken(header).None? ==> Decide(header, verify, nowMs) == Deny(403, "Access denied")
    ensures BearerToken(header).Some? && verify(BearerToken(header).value).None? ==>
      Decide(header, verify, nowMs) == Deny(403, "Invalid token")
    ensures Decide(header, verify, nowMs) == Deny(401, "Token has expired") <==>
      (BearerToken(header).Some? && verify(BearerToken(header).value).Some?
        && Expired(verify(BearerToken(header).value).value, nowMs))
  {
  }

  /** The token library's own expiry check: `jwt.verify` without options
      throws unless the current second is below `exp`. */
  ghost predicate VerifyChecksExpiry(verify: string -> Option<Claims>, nowMs: nat)
  {
    forall token | verify(token).Some? && verify(token).value.exp.Some? ::
      nowMs / 1000 < verify(token).value.exp.value
  }

  /** With a library that checks expiry itself, the guard's own comparison
      never fires: no request gets 401, and an admitted token expires after
      the current second. A token expiring in the current second is refused
      by the library, with 403 "Invalid token". */
  lemma {:induction false} LibraryExpiryFirst(header: Option<string>, verify: string -> Option<Claims>, nowMs: nat)
    requires VerifyChecksExpiry(verify, nowMs)
    ensures Decide(header, verify, nowMs).Deny? ==> Decide(header, verify, nowMs).code == 403
    ensures Decide(header, verify, nowMs).Admit? && Decide(header, verify, nowMs).claims.exp.Some? ==>
      nowMs / 1000 < Decide(header, verify, nowMs).claims.exp.value
    ensures BearerToken(header).Some? && verify(BearerToken(header).value).Some? ==>
      verify(BearerToken(header).value).value.exp != Some(nowMs / 1000)
  {
    if BearerToken(header).Some? {
      var token := BearerToken(header).value;
      if verify(token).Some? && verify(token).value.exp.Some? {
        assert nowMs / 1000 < verify(token).value.exp.value;
      }
    }
  }

  datatype Sent = Sent(code: nat, message: string)

  /** One request passing through the guard: its `Authorization` header, the
      `request.user` field the guard sets, the response it may send, and how
      often it calls `next()`. */
  class Exchange {
    const authorization: Option<string>
    var user: Option<Claims>
    var response: Option<Sent>
    var nextCalls: nat

    constructor (authorization: Option<string>)
      ensures this.authorization == authorization
      ensures user == None && response == None && nextCalls == 0
    {
      this.authorization := authorization;
      user := None;
      response := None;
      nextCalls := 0;
    }
  }

  /** `authenticateJWT`: either responds with the rejection, leaving
      `request.user` alone and not calling `next`, or sets `request.user` to
      the claims and calls `next` exactly once without responding. */
  method AuthenticateJwt(ex: Exchange, verify: string -> Option<Claims>, nowMs: nat)
    requires ex.response == None && ex.nextCalls == 0
    modifies ex
    ensures match Decide(ex.authorization, verify, nowMs)
      case Deny(code, message) =>
        ex.response == Some(Sent(code, message)) && ex.nextCalls == 0 && ex.user == old(ex.user)
      case Admit(claims) =>
        ex.response == None && ex.nextCalls == 1 && ex.user == Some(claims)
  {
    var token := BearerToken(ex.authorization);
    if token.None? {
      ex.response := Some(Sent(403, "Access denied"));
      return;
    }
    var decoded := verify(token.value);
    if decoded.None? {
      ex.response := Some(Sent(403, "Invalid token"));
      return;
    }
    var currentTime := nowMs / 1000;
    var claims := decoded.value;
    if claims.exp.Some? && claims.exp.value < currentTime {
      ex.response := Some(Sent(401, "Token has expired"));
      return;
    }
    ex.user := Some(claims);
    ex.nextCalls := ex.nextCalls + 1;
  }
}
