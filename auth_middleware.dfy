/** `authMiddleware`: takes the bearer token from the Authorization header
    (section 2.1 of RFC 6750), verifies it with JWT_SECRET and either
    answers 401 or records the user id on the request and passes control on.
    Gate is the decision; AuthMiddleware performs it on an Exchange. */
module Middleware {
  import opened Wrappers
  import opened Strings
  import opened Jwt

  /** Module load: an absent or empty JWT_SECRET aborts. */
  function LoadSecret(jwtSecret: Option<string>): (r: Result<string, string>)
    ensures r.Ok? <==> jwtSecret.Some? && jwtSecret.value != ""
    ensures r.Ok? ==> r.value == jwtSecret.value
    ensures r.Err? ==> r.error == "JWT_SECRET is not defined"
  {
    if jwtSecret.None? || jwtSecret.value == "" then Err("JWT_SECRET is not defined") else Ok(jwtSecret.value)
  }

  /** `req.headers.authorization?.split(' ')[1]`; None where JavaScript
      yields `undefined` (no header, or a header with no blank). */
  function BearerToken(authorization: Option<string>): (token: Option<string>)
    ensures token.Some? <==> authorization.Some? && ' ' in authorization.value
    ensures token.Some? ==> ' ' !in token.value
  {
    match authorization
    case None => None
    case Some(header) =>
      var fields := Split(header, ' ');
      if |fields| < 2 then None else Some(fields[1])
  }

  /** The token is the second blank-separated field: the first field is
      not checked to be "Bearer", and whatever follows the next blank is
      ignored. */
  lemma BearerTokenIsSecondField(scheme: string, token: string, rest: string)
    requires ' ' !in scheme && ' ' !in token
    requires rest == [] || rest[0] == ' '
    ensures BearerToken(Some(scheme + " " + token + rest)) == Some(token)
  {
    assert scheme + " " + token + rest == scheme + [' '] + (token + rest);
    SplitAtSeparator(scheme, token + rest, ' ');
    SplitAfterPlain(token, rest, ' ');
    if rest == [] {
      assert Split(rest, ' ')[0] == [];
    } else {
      assert rest == [' '] + rest[1..];
      assert Split(rest, ' ')[0] == [];
    }
    assert token + [] == token;
  }

  datatype Outcome = NoToken | InvalidToken | Authenticated(userId: string)

  /** The middleware's decision: no token (absent or empty), a token
      `jwt.verify` rejects, or the user id the token names. */
  function Gate(authorization: Option<string>, secret: string, nowMs: nat): (o: Outcome)
    ensures o == NoToken <==> BearerToken(authorization) == None || BearerToken(authorization) == Some("")
    ensures o == InvalidToken <==>
              && BearerToken(authorization).Some? && BearerToken(authorization).value != ""
              && Verify(BearerToken(authorization).value, secret, nowMs).None?
    ensures o.Authenticated? ==> Verify(BearerToken(authorization).value, secret, nowMs) == Some(o.userId)
  {
    match BearerToken(authorization)
    case None => NoToken
    case Some(token) =>
      if token == "" then NoToken
      else
        match Verify(token, secret, nowMs)
        case None => InvalidToken
        case Some(userId) => Authenticated(userId)
  }

  /** `Bearer <access token>` from a login passes for 15 minutes after the
      second of the login, for the user the token names, and is refused as
      an invalid token afterwards. */
  lemma AccessTokenAdmitted(userId: string, secret: string, issuedMs: nat, nowMs: nat)
    ensures Gate(Some("Bearer " + Sign(userId, secret, AccessTokenTtl, issuedMs)), secret, nowMs)
         == if nowMs < issuedMs - issuedMs % 1000 + 900000 then Authenticated(userId) else InvalidToken
  {
    var token := Sign(userId, secret, AccessTokenTtl, issuedMs);
    assert "Bearer " == "Bearer" + " ";
    assert "Bearer " + token == "Bearer" + " " + token + [];
    BearerTokenIsSecondField("Bearer", token, []);
    AccessTokenLifetime(userId, secret, issuedMs, nowMs);
    VerifySign(userId, secret, AccessTokenTtl, issuedMs, secret, nowMs);
  }

  /** A refresh token presented as a bearer token passes the middleware
      exactly when the two secrets coincide, which the configuration does
      not forbid, and the token has not expired. */
  lemma RefreshTokenAsBearer(userId: string, accessSecret: string, refreshSecret: string, issuedMs: nat, nowMs: nat)
    ensures Gate(Some("Bearer " + Sign(userId, refreshSecret, RefreshTokenTtl, issuedMs)), accessSecret, nowMs)
         == if accessSecret == refreshSecret && nowMs / 1000 < issuedMs / 1000 + RefreshTokenTtl
            then Authenticated(userId) else InvalidToken
  {
    var token := Sign(userId, refreshSecret, RefreshTokenTtl, issuedMs);
    assert "Bearer " + token == "Bearer" + " " + token + [];
    BearerTokenIsSecondField("Bearer", token, []);
    VerifySign(userId, refreshSecret, RefreshTokenTtl, issuedMs, accessSecret, nowMs);
  }

  /** The request, the response and `next` of one call of the middleware. */
  class Exchange {
    const authorization: Option<string>
    var userId: Option<string>
    var status: Option<nat>
    var error: Option<string>
    var nextCalls: nat

    constructor (authorization: Option<string>)
      ensures this.authorization == authorization
      ensures userId == None && status == None && error == None && nextCalls == 0
    {
      this.authorization := authorization;
      userId, status, error, nextCalls := None, None, None, 0;
    }
  }

  /** `authMiddleware(req, res, next)`. */
  method AuthMiddleware(ex: Exchange, secret: string, nowMs: nat)
    modifies ex
    ensures Gate(ex.authorization, secret, nowMs) == NoToken ==>
              && ex.status == Some(401) && ex.error == Some("No token provided")
              && ex.userId == old(ex.userId) && ex.nextCalls == old(ex.nextCalls)
    ensures Gate(ex.authorization, secret, nowMs) == InvalidToken ==>
              && ex.status == Some(401) && ex.error == Some("Invalid token")
              && ex.userId == old(ex.userId) && ex.nextCalls == old(ex.nextCalls)
    ensures Gate(ex.authorization, secret, nowMs).Authenticated? ==>
              && ex.userId == Some(Gate(ex.authorization, secret, nowMs).userId)
              && ex.nextCalls == old(ex.nextCalls) + 1
              && ex.status == old(ex.status) && ex.error == old(ex.error)
  {
    var token := BearerToken(ex.authorization);
    if token.None? || token.value == "" {
      ex.status, ex.error := Some(401), Some("No token provided");
      return;
    }
    var decoded := Verify(token.value, secret, nowMs);
    if decoded.None? {
      ex.status, ex.error := Some(401), Some("Invalid token");
      return;
    }
    ex.userId := decoded;
    ex.nextCalls := ex.nextCalls + 1;
  }
}
