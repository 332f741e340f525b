/** The five handlers of the auth routes. Each turns the request fields and
    the service outcome into a response: a status, a JSON body and what
    happens to the `refreshToken` cookie. The service's error is told apart
    by comparing its message with fixed strings, as the handlers do; the
    contract of each dispatch function states the resulting map from error
    kind to status. Handlers that change the tables return the new tables. */
module AuthController {
  import opened Wrappers
  import Bcrypt
  import opened Jwt
  import opened AuthHelpers
  import opened AuthService
  import opened Middleware

  datatype CookieOptions = CookieOptions(httpOnly: bool, secure: bool, maxAge: nat)

  datatype CookieEffect =
    | NoCookieChange
    | SetRefreshCookie(value: string, options: CookieOptions)
    | ClearRefreshCookie

  datatype Body =
    | MessageBody(message: string)
    | UserBody(user: PublicUser, message: string)
    | LoginBody(accessToken: string, user: PublicUser, message: string)
    | AccessTokenBody(accessToken: string, message: string)

  datatype HttpResponse = HttpResponse(status: nat, body: Body, cookie: CookieEffect)

  /** A response together with the tables after the request. */
  datatype Handled = Handled(response: HttpResponse, db: Db)

  const InternalServerError: string := "Internal server error"

  /** `maxAge: 1000 * 60 * 60 * 24 * 7` of the refresh cookie. */
  const RefreshCookieMaxAge: nat := 1000 * 60 * 60 * 24 * 7

  function Reply(status: nat, message: string): HttpResponse {
    HttpResponse(status, MessageBody(message), NoCookieChange)
  }

  /** The catch block of `signUpController`. */
  function SignUpFailure(e: AuthError): (resp: HttpResponse)
    ensures resp == if e in {UserAlreadyExists, MissingCredentials, InvalidPassword, UserNotFound}
                    then Reply(400, Message(e)) else Reply(500, InternalServerError)
  {
    var m := Message(e);
    if m == "User already exists" then Reply(400, m)
    else if m == "Email and password are required" then Reply(400, m)
    else if m == "Invalid password" then Reply(400, m)
    else if m == "User not found" then Reply(400, m)
    else Reply(500, InternalServerError)
  }

  /** `signUpController`: empty fields are refused before the service runs. */
  function SignUpController(db: Db, email: string, password: string): (h: Handled)
    ensures email == "" || password == "" ==> h == Handled(Reply(400, "Email and password are required"), db)
    ensures h.db == Signup(db, email, password).db
    ensures h.response.status == 200 <==> Signup(db, email, password).result.Ok?
    ensures h.response.status == 200 ==>
              h.response == HttpResponse(200, UserBody(Signup(db, email, password).result.value, "User signed up successfully"), NoCookieChange)
    ensures h.response.status != 200 ==> h.response.status == 400 && h.response.cookie == NoCookieChange
    ensures email != "" && password != "" && Signup(db, email, password).result.Err?
        ==> h.response == SignUpFailure(Signup(db, email, password).result.error)
  {
    if email == "" || password == "" then Handled(Reply(400, "Email and password are required"), db)
    else
      var s := Signup(db, email, password);
      match s.result
      case Ok(user) => Handled(HttpResponse(200, UserBody(PublicUser(user.id, user.email), "User signed up successfully"), NoCookieChange), s.db)
      case Err(e) => Handled(SignUpFailure(e), s.db)
  }

  /** The catch block of `loginController`. */
  function LoginFailure(e: AuthError): (resp: HttpResponse)
    ensures resp == if e in {UserNotFound, InvalidPassword, MissingCredentials}
                    then Reply(400, Message(e)) else Reply(500, InternalServerError)
  {
    var m := Message(e);
    if m == "User not found" then Reply(400, m)
    else if m == "Invalid password" then Reply(400, m)
    else if m == "Email and password are required" then Reply(400, m)
    else Reply(500, InternalServerError)
  }

  /** `loginController`: on success the refresh token goes only into an
      HTTP-only cookie that lives as long as its session, secure exactly in
      production; the body carries the access token and `{ id, email }`. */
  function LoginController(db: Db, cfg: Config, email: string, password: string, nowMs: nat, nodeEnv: Option<string>): (h: Handled)
    ensures email == "" || password == "" ==> h == Handled(Reply(400, "Email and password are required"), db)
    ensures h.db == (if email == "" || password == "" then db else Login(db, cfg, email, password, nowMs).db)
    ensures h.response.status == 200 <==> email != "" && password != "" && Login(db, cfg, email, password, nowMs).result.Ok?
    ensures h.response.status == 200 ==>
              var t := Login(db, cfg, email, password, nowMs).result.value;
              && h.response.body == LoginBody(t.accessToken, t.user, "User logged in successfully")
              && h.response.cookie == SetRefreshCookie(t.refreshToken, CookieOptions(true, nodeEnv == Some("production"), RefreshCookieMaxAge))
              && RefreshCookieMaxAge == SessionLifetime() == RefreshTokenTtl * 1000
    ensures h.response.status != 200 ==> h.response.cookie == NoCookieChange && h.response.body.MessageBody?
    ensures h.response.status == 500 <==> email != "" && password != "" && Login(db, cfg, email, password, nowMs).result == Err(StoreFailure)
    ensures email != "" && password != "" && Login(db, cfg, email, password, nowMs).result.Err?
        ==> h.response == LoginFailure(Login(db, cfg, email, password, nowMs).result.error)
  {
    if email == "" || password == "" then Handled(Reply(400, "Email and password are required"), db)
    else
      var s := Login(db, cfg, email, password, nowMs);
      match s.result
      case Ok(t) =>
        var cookie := SetRefreshCookie(t.refreshToken, CookieOptions(true, nodeEnv == Some("production"), RefreshCookieMaxAge));
        Handled(HttpResponse(200, LoginBody(t.accessToken, PublicUser(t.user.id, t.user.email), "User logged in successfully"), cookie), s.db)
      case Err(e) => Handled(LoginFailure(e), s.db)
  }

  function LoggedOut(): HttpResponse {
    HttpResponse(200, MessageBody("User logged out successfully"), ClearRefreshCookie)
  }

  /** `logoutController` as written: without a `refreshToken` cookie the
      token is `undefined`, and the store reads
      `deleteMany({ where: { token: undefined } })` as a delete with no
      filter, which empties the session table. */
  function LogoutControllerAsWritten(db: Db, cookie: Option<string>): (h: Handled)
    ensures h.response == LoggedOut()
    ensures cookie.None? ==> h.db == db.(sessions := [])
    ensures cookie.Some? ==> h.db == Logout(db, cookie.value)
  {
    match cookie
    case None => Handled(LoggedOut(), db.(sessions := []))
    case Some(token) => Handled(LoggedOut(), Logout(db, token))
  }

  /** `logoutController` as evidently intended: the session holding the
      cookie's token goes and nothing else; without a cookie nothing goes.
      The cookie is cleared and 200 returned either way. */
  function LogoutController(db: Db, cookie: Option<string>): (h: Handled)
    ensures h.response == LoggedOut()
    ensures h.db.users == db.users && h.db.nextId == db.nextId
    ensures forall s :: s in h.db.sessions <==> s in db.sessions && (cookie.None? || s.token != cookie.value)
  {
    match cookie
    case None => Handled(LoggedOut(), db)
    case Some(token) => Handled(LoggedOut(), Logout(db, token))
  }

  /** Finding: a logout request that carries a valid access token but no
      refresh cookie ends every user's session as written, and none when
      corrected. */
  lemma LogoutWithoutCookie(db: Db, cfg: Config, other: Session, nowMs: nat)
    requires other in db.sessions
    ensures LogoutControllerAsWritten(db, None).db.sessions == []
    ensures Refresh(LogoutControllerAsWritten(db, None).db, cfg, other.token, nowMs) != Refresh(db, cfg, other.token, nowMs)
        <== Refresh(db, cfg, other.token, nowMs).Ok?
    ensures LogoutController(db, None).db == db
  {
    var emptied := LogoutControllerAsWritten(db, None).db;
    assert other.token !in Tokens(emptied.sessions);
    assert other.token in Tokens(db.sessions);
  }

  /** The catch block of `refreshTokenController`. */
  function RefreshFailure(e: AuthError): (resp: HttpResponse)
    ensures resp == if e in {SessionNotFound, InvalidRefreshToken, SessionExpired}
                    then Reply(401, Message(e)) else Reply(500, InternalServerError)
  {
    var m := Message(e);
    if m == "Session not found" || m == "Invalid refresh token" then Reply(401, m)
    else if m == "Session expired" then Reply(401, m)
    else Reply(500, InternalServerError)
  }

  /** `refreshTokenController`: reads the `refreshToken` cookie; a missing
      or empty cookie is refused before the service runs. */
  function RefreshTokenController(db: Db, cfg: Config, cookie: Option<string>, nowMs: nat): (resp: HttpResponse)
    ensures cookie.None? || cookie.value == "" ==> resp == Reply(401, "Refresh token not provided")
    ensures resp.status == 200 <==> cookie.Some? && cookie.value != "" && Refresh(db, cfg, cookie.value, nowMs).Ok?
    ensures resp.status == 200 ==> resp.body == AccessTokenBody(Refresh(db, cfg, cookie.value, nowMs).value, "Access token generated successfully")
    ensures resp.status != 200 ==> resp.status == 401 && resp.body.MessageBody?
    ensures resp.cookie == NoCookieChange
    ensures cookie.Some? && cookie.value != "" && Refresh(db, cfg, cookie.value, nowMs).Err?
        ==> resp == RefreshFailure(Refresh(db, cfg, cookie.value, nowMs).error)
  {
    if cookie.None? || cookie.value == "" then Reply(401, "Refresh token not provided")
    else
      match Refresh(db, cfg, cookie.value, nowMs)
      case Ok(accessToken) => HttpResponse(200, AccessTokenBody(accessToken, "Access token generated successfully"), NoCookieChange)
      case Err(e) => RefreshFailure(e)
  }

  /** The catch block of `getUserController`. */
  function GetUserFailure(e: AuthError): (resp: HttpResponse)
    ensures resp == if e == UserNotFound then Reply(400, Message(e)) else Reply(500, InternalServerError)
  {
    var m := Message(e);
    if m == "User not found" then Reply(400, m) else Reply(500, InternalServerError)
  }

  /** `getUserController`: `req.userId` as the middleware left it. */
  function GetUserController(db: Db, userId: Option<string>): (resp: HttpResponse)
    ensures userId.None? || userId.value == "" ==> resp == Reply(400, "User ID is required")
    ensures resp.status == 200 <==> userId.Some? && userId.value != "" && LookupUser(db, userId.value).Ok?
    ensures resp.status == 200 ==>
              exists u :: u in db.users && u.id == userId.value
                       && resp == HttpResponse(200, UserBody(PublicUser(u.id, u.email), "User found successfully"), NoCookieChange)
    ensures resp.status != 200 ==> resp.status == 400 && resp.body.MessageBody?
    ensures userId.Some? && userId.value != "" && LookupUser(db, userId.value).Err?
        ==> resp == GetUserFailure(LookupUser(db, userId.value).error)
  {
    if userId.None? || userId.value == "" then Reply(400, "User ID is required")
    else
      match LookupUser(db, userId.value)
      case Ok(user) => HttpResponse(200, UserBody(user, "User found successfully"), NoCookieChange)
      case Err(e) => GetUserFailure(e)
  }

  /** A refresh whose session is gone is answered 401 "Session not found". */
  lemma SessionNotFoundAnswer(db: Db, cfg: Config, token: string, nowMs: nat)
    requires token != ""
    requires Refresh(db, cfg, token, nowMs) == Err(SessionNotFound)
    ensures RefreshTokenController(db, cfg, Some(token), nowMs) == Reply(401, "Session not found")
  {
    assert Message(SessionNotFound) == "Session not found";
  }

  /** `/me` for a user the store holds answers with that user. */
  lemma UserFoundAnswer(db: Db, user: PublicUser)
    requires user.id != ""
    requires LookupUser(db, user.id) == Ok(user)
    ensures GetUserController(db, Some(user.id)) == HttpResponse(200, UserBody(user, "User found successfully"), NoCookieChange)
  {
  }

  /** The first half of the life of one account from an empty store:
      signup and login succeed; within 15 minutes the access token passes
      the middleware, `/me` answers with the user and the refresh cookie
      yields a new access token. */
  lemma LoginFromEmptyStore(cfg: Config, email: string, password: string, loginMs: nat, laterMs: nat)
    requires email != "" && password != ""
    requires laterMs < loginMs - loginMs % 1000 + 900000
    ensures var signedUp := SignUpController(Db([], [], 0), email, password);
            var loggedIn := LoginController(signedUp.db, cfg, email, password, loginMs, None);
            && signedUp.response.status == 200
            && loggedIn.response.status == 200
            && loggedIn.response.body.LoginBody?
            && loggedIn.response.cookie.SetRefreshCookie?
            && var user := loggedIn.response.body.user;
               && user.email == email
               && Gate(Some("Bearer " + loggedIn.response.body.accessToken), cfg.jwtSecret, laterMs) == Authenticated(user.id)
               && GetUserController(loggedIn.db, Some(user.id)) == HttpResponse(200, UserBody(user, "User found successfully"), NoCookieChange)
               && RefreshTokenController(loggedIn.db, cfg, Some(loggedIn.response.cookie.value), laterMs).status == 200
  {
    var db0 := Db([], [], 0);
    EmptyConsistent();
    var s := Signup(db0, email, password);
    SignupKeepsConsistent(db0, email, password);
    SignupThenLogin(db0, cfg, email, password, loginMs);
    var l := Login(s.db, cfg, email, password, loginMs);
    var t := l.result.value;
    assert t.user == s.result.value;
    LoginThenRefresh(s.db, cfg, email, password, loginMs, laterMs);
    assert laterMs / 1000 < loginMs / 1000 + RefreshTokenTtl;
    AccessTokenAdmitted(t.user.id, cfg.jwtSecret, loginMs, laterMs);
    assert s.db.users == [User(t.user.id, email, Bcrypt.Hash(password))];
    assert l.db.users == s.db.users;
  }

  /** The second half: after logout with the refresh cookie, the refresh
      token is refused with "Session not found", while `/me` still answers
      for the user. */
  lemma LogoutAfterLogin(cfg: Config, email: string, password: string, loginMs: nat, laterMs: nat)
    requires email != "" && password != ""
    requires laterMs < loginMs - loginMs % 1000 + 900000
    ensures var signedUp := SignUpController(Db([], [], 0), email, password);
            var loggedIn := LoginController(signedUp.db, cfg, email, password, loginMs, None);
            && loggedIn.response.status == 200
            && loggedIn.response.body.LoginBody?
            && loggedIn.response.cookie.SetRefreshCookie?
            && var loggedOut := LogoutController(loggedIn.db, Some(loggedIn.response.cookie.value));
               var user := loggedIn.response.body.user;
               && loggedOut.response.status == 200
               && RefreshTokenController(loggedOut.db, cfg, Some(loggedIn.response.cookie.value), laterMs) == Reply(401, "Session not found")
               && GetUserController(loggedOut.db, Some(user.id)) == HttpResponse(200, UserBody(user, "User found successfully"), NoCookieChange)
  {
    var db0 := Db([], [], 0);
    assert laterMs / 1000 < loginMs / 1000 + RefreshTokenTtl;
    LogoutAfterFirstLogin(cfg, email, password, loginMs, laterMs);
    var s := Signup(db0, email, password);
    var l := Login(s.db, cfg, email, password, loginMs);
    var t := l.result.value;
    assert SignUpController(db0, email, password).db == s.db;
    var loggedIn := LoginController(s.db, cfg, email, password, loginMs, None);
    assert loggedIn.db == l.db;
    assert loggedIn.response.cookie.value == t.refreshToken;
    assert loggedIn.response.body.user == t.user;
    var loggedOut := LogoutController(l.db, Some(t.refreshToken));
    assert loggedOut.db == Logout(l.db, t.refreshToken);
    assert loggedOut.response.status == 200;
    SessionNotFoundAnswer(loggedOut.db, cfg, t.refreshToken, laterMs);
    UserFoundAnswer(loggedOut.db, t.user);
  }


}
