/** The authentication service: signup, login, logout, refresh of the
    access token and user lookup over the user and session tables.
    Each operation is first given as a function of the tables (`Db`) and
    the configuration, which the lemmas below reason about; class AuthStore
    then holds the tables as fields and performs each operation in place,
    proved to agree with its function. The clock is the `nowMs` parameter
    (milliseconds, as `Date.now()`). */
module AuthService {
  import opened Wrappers
  import opened Strings
  import opened Bcrypt
  import opened Jwt
  import opened AuthHelpers

  /** The errors the service throws, one per message it throws them with;
      StoreFailure is the store's own error on a duplicate session token. */
  datatype AuthError =
    | MissingCredentials
    | UserAlreadyExists
    | UserNotFound
    | InvalidPassword
    | InvalidRefreshToken
    | SessionNotFound
    | SessionExpired
    | StoreFailure

  /** `error.message` of each error, the text the controllers compare. */
  function Message(e: AuthError): string {
    match e
    case MissingCredentials => "Email and password are required"
    case UserAlreadyExists => "User already exists"
    case UserNotFound => "User not found"
    case InvalidPassword => "Invalid password"
    case InvalidRefreshToken => "Invalid refresh token"
    case SessionNotFound => "Session not found"
    case SessionExpired => "Session expired"
    case StoreFailure => "Unique constraint failed on the fields: (`token`)"
  }

  /** The controllers tell errors apart by their messages, which works
      because no two errors share one. */
  lemma MessageInjective(a: AuthError, b: AuthError)
    ensures Message(a) == Message(b) <==> a == b
  {
  }

  /** The two signing secrets read from the environment at module load. */
  datatype Config = Config(jwtSecret: string, jwtRefreshSecret: string)

  /** Module load: an absent or empty JWT_SECRET or JWT_REFRESH_SECRET
      aborts; nothing requires the two to differ. */
  function LoadConfig(jwtSecret: Option<string>, jwtRefreshSecret: Option<string>): (r: Result<Config, string>)
    ensures r.Ok? <==> jwtSecret.Some? && jwtSecret.value != "" && jwtRefreshSecret.Some? && jwtRefreshSecret.value != ""
    ensures r.Ok? ==> r.value == Config(jwtSecret.value, jwtRefreshSecret.value)
    ensures r.Err? ==> r.error == "JWT_SECRET or JWT_REFRESH_SECRET is not defined"
  {
    match (jwtSecret, jwtRefreshSecret)
    case (Some(access), Some(refresh)) =>
      if access == "" || refresh == "" then Err("JWT_SECRET or JWT_REFRESH_SECRET is not defined")
      else Ok(Config(access, refresh))
    case _ => Err("JWT_SECRET or JWT_REFRESH_SECRET is not defined")
  }

  /** A user row: the store keeps only the bcrypt digest of the password. */
  datatype User = User(id: string, email: string, passwordHash: PasswordHash)

  /** What the service hands out about a user: `{ id, email }`. */
  datatype PublicUser = PublicUser(id: string, email: string)

  datatype LoginTokens = LoginTokens(accessToken: string, refreshToken: string, user: PublicUser)

  /** The two tables, and the counter from which the store draws the next
      user id (the id is opaque to the code; any fresh value would do). */
  datatype Db = Db(users: seq<User>, sessions: seq<Session>, nextId: nat)

  /** The outcome of an operation and the tables after it. */
  datatype Step<T> = Step(result: Result<T, AuthError>, db: Db)

  /** `prisma.user.findUnique({ where: { email } })`. */
  function FindUserByEmail(users: seq<User>, email: string): (r: Option<User>)
    ensures r.Some? ==> r.value in users && r.value.email == email
    ensures r.None? ==> forall u :: u in users ==> u.email != email
    decreases |users|
  {
    if users == [] then None
    else if users[0].email == email then Some(users[0])
    else FindUserByEmail(users[1..], email)
  }

  /** `prisma.user.findUnique({ where: { id } })`. */
  function FindUserById(users: seq<User>, id: string): (r: Option<User>)
    ensures r.Some? ==> r.value in users && r.value.id == id
    ensures r.None? ==> forall u :: u in users ==> u.id != id
    decreases |users|
  {
    if users == [] then None
    else if users[0].id == id then Some(users[0])
    else FindUserById(users[1..], id)
  }

  /** `signupUser`: both fields must be non-empty, then the email must be
      new; only then is one user row added, holding the digest. */
  function Signup(db: Db, email: string, password: string): (s: Step<PublicUser>)
    ensures s.result == Err(MissingCredentials) <==> email == "" || password == ""
    ensures s.result == Err(UserAlreadyExists)
        <==> email != "" && password != "" && exists u :: u in db.users && u.email == email
    ensures s.result.Err? ==> s.db == db && s.result.error in {MissingCredentials, UserAlreadyExists}
    ensures s.result.Ok? ==>
              && s.result.value.email == email
              && (forall u :: u in db.users ==> u.id != s.result.value.id || !IdBelow(u.id, db.nextId))
              && s.db == Db(db.users + [User(s.result.value.id, email, Hash(password))], db.sessions, db.nextId + 1)
  {
    if email == "" || password == "" then Step(Err(MissingCredentials), db)
    else if FindUserByEmail(db.users, email).Some? then Step(Err(UserAlreadyExists), db)
    else
      var id := NatToString(db.nextId);
      ParseNatToString(db.nextId);
      Step(Ok(PublicUser(id, email)), Db(db.users + [User(id, email, Hash(password))], db.sessions, db.nextId + 1))
  }

  /** The tokens and the single new session a successful login for `u`
      produces: both tokens name `u.id`, the access token is signed with
      JWT_SECRET for 15 minutes, the refresh token with JWT_REFRESH_SECRET
      for 7 days, and the session is keyed by the refresh token. */
  ghost predicate LoggedIn(db: Db, cfg: Config, u: User, nowMs: nat, t: LoginTokens, after: Db) {
    && t.user == PublicUser(u.id, u.email)
    && t.accessToken == Sign(u.id, cfg.jwtSecret, AccessTokenTtl, nowMs)
    && t.refreshToken == Sign(u.id, cfg.jwtRefreshSecret, RefreshTokenTtl, nowMs)
    && after == db.(sessions := db.sessions + [Session(u.id, t.refreshToken, nowMs + 604800000)])
  }

  /** `loginUser`: unknown email first, then a wrong password; only a
      login that passes both adds a session, and nothing else changes. */
  function Login(db: Db, cfg: Config, email: string, password: string, nowMs: nat): (s: Step<LoginTokens>)
    ensures s.result == Err(UserNotFound) <==> forall u :: u in db.users ==> u.email != email
    ensures s.result == Err(InvalidPassword)
        <==> FindUserByEmail(db.users, email).Some? && FindUserByEmail(db.users, email).value.passwordHash != Hash(password)
    ensures s.result == Err(StoreFailure)
        <==> && FindUserByEmail(db.users, email).Some?
             && var u := FindUserByEmail(db.users, email).value;
                && u.passwordHash == Hash(password)
                && Sign(u.id, cfg.jwtRefreshSecret, RefreshTokenTtl, nowMs) in Tokens(db.sessions)
    ensures s.result.Err? ==> s.db == db && s.result.error in {UserNotFound, InvalidPassword, StoreFailure}
    ensures s.result.Ok? ==>
              exists u :: u in db.users && u.email == email && u.passwordHash == Hash(password)
                       && LoggedIn(db, cfg, u, nowMs, s.result.value, s.db)
  {
    match FindUserByEmail(db.users, email)
    case None => Step(Err(UserNotFound), db)
    case Some(u) =>
      if !Compare(password, u.passwordHash) then Step(Err(InvalidPassword), db)
      else
        var accessToken := Sign(u.id, cfg.jwtSecret, AccessTokenTtl, nowMs);
        var refreshToken := Sign(u.id, cfg.jwtRefreshSecret, RefreshTokenTtl, nowMs);
        match Insert(db.sessions, u.id, refreshToken, nowMs)
        case None => Step(Err(StoreFailure), db)
        case Some(rows) =>
          assert rows == db.sessions + [Session(u.id, refreshToken, nowMs + 604800000)];
          Step(Ok(LoginTokens(accessToken, refreshToken, PublicUser(u.id, u.email))), db.(sessions := rows))
  }

  /** `logoutUser`: the session rows holding the token go; users stay. */
  function Logout(db: Db, refreshToken: string): (after: Db)
    ensures after.users == db.users && after.nextId == db.nextId
    ensures forall s :: s in after.sessions <==> s in db.sessions && s.token != refreshToken
  {
    db.(sessions := WithoutToken(db.sessions, refreshToken))
  }

  /** `generateAccessToken`: the JWT check comes first, then the session
      lookup, then the session expiry (strictly before now). The result is
      an access token for the user named in the refresh token, valid now.
      The function returns no tables: refreshing changes none. */
  function Refresh(db: Db, cfg: Config, refreshToken: string, nowMs: nat): (r: Result<string, AuthError>)
    ensures r == Err(InvalidRefreshToken) <==> Verify(refreshToken, cfg.jwtRefreshSecret, nowMs).None?
    ensures r == Err(SessionNotFound)
        <==> Verify(refreshToken, cfg.jwtRefreshSecret, nowMs).Some? && refreshToken !in Tokens(db.sessions)
    ensures Verify(refreshToken, cfg.jwtRefreshSecret, nowMs).Some? && FindByToken(db.sessions, refreshToken).Some?
        ==> (r == Err(SessionExpired) <==> FindByToken(db.sessions, refreshToken).value.expiresAt < nowMs)
    ensures r == Err(SessionExpired)
        ==> exists s :: s in db.sessions && s.token == refreshToken && s.expiresAt < nowMs
    ensures r.Ok? <==> && Verify(refreshToken, cfg.jwtRefreshSecret, nowMs).Some?
                       && FindByToken(db.sessions, refreshToken).Some?
                       && nowMs <= FindByToken(db.sessions, refreshToken).value.expiresAt
    ensures r.Ok? ==> r.value == Sign(Verify(refreshToken, cfg.jwtRefreshSecret, nowMs).value, cfg.jwtSecret, AccessTokenTtl, nowMs)
    ensures r.Ok? ==> Verify(r.value, cfg.jwtSecret, nowMs) == Verify(refreshToken, cfg.jwtRefreshSecret, nowMs)
    ensures r.Err? ==> r.error in {InvalidRefreshToken, SessionNotFound, SessionExpired}
  {
    match Verify(refreshToken, cfg.jwtRefreshSecret, nowMs)
    case None => Err(InvalidRefreshToken)
    case Some(userId) =>
      match FindByToken(db.sessions, refreshToken)
      case None => Err(SessionNotFound)
      case Some(row) =>
        if row.expiresAt < nowMs then Err(SessionExpired)
        else
          VerifySign(userId, cfg.jwtSecret, AccessTokenTtl, nowMs, cfg.jwtSecret, nowMs);
          Ok(Sign(userId, cfg.jwtSecret, AccessTokenTtl, nowMs))
  }

  /** `getUser`: `{ id, email }` of the user with that id, never the digest. */
  function LookupUser(db: Db, userId: string): (r: Result<PublicUser, AuthError>)
    ensures r.Ok? ==> r.value.id == userId && exists u :: u in db.users && r.value == PublicUser(u.id, u.email)
    ensures r.Err? ==> r.error == UserNotFound && forall u :: u in db.users ==> u.id != userId
  {
    match FindUserById(db.users, userId)
    case None => Err(UserNotFound)
    case Some(u) => Ok(PublicUser(u.id, u.email))
  }

  // ---------------------------------------------------------------------
  // The invariant the operations keep

  /** `id` is the rendering of a counter value the store has handed out. */
  ghost predicate IdBelow(id: string, bound: nat) {
    match ParseNat(id)
    case Some(n) => n < bound
    case None => false
  }

  /** A session row names a user the store created, and its token was
      signed for that user and expires (in whole seconds) no later than the
      row does. */
  ghost predicate SessionRowValid(row: Session, bound: nat) {
    match Decode(row.token)
    case None => false
    case Some(c) => c.userId == row.userId && IdBelow(row.userId, bound) && c.exp * 1000 <= row.expiresAt
  }

  /** Emails and ids are unique, session tokens are unique, and every
      session row is one that a login wrote. */
  ghost predicate Consistent(db: Db) {
    && (forall i, j :: 0 <= i < j < |db.users| ==> db.users[i].email != db.users[j].email && db.users[i].id != db.users[j].id)
    && (forall i :: 0 <= i < |db.users| ==> IdBelow(db.users[i].id, db.nextId))
    && UniqueTokens(db.sessions)
    && (forall i :: 0 <= i < |db.sessions| ==> SessionRowValid(db.sessions[i], db.nextId))
  }

  lemma EmptyConsistent()
    ensures Consistent(Db([], [], 0))
  {
  }

  lemma SignupKeepsConsistent(db: Db, email: string, password: string)
    requires Consistent(db)
    ensures Consistent(Signup(db, email, password).db)
  {
    var s := Signup(db, email, password);
    if s.result.Ok? {
      var after := s.db;
      var id := NatToString(db.nextId);
      ParseNatToString(db.nextId);
      assert s.result.value.id == id;
      forall i, j | 0 <= i < j < |after.users|
        ensures after.users[i].email != after.users[j].email && after.users[i].id != after.users[j].id
      {
        assert after.users[i] == db.users[i];
        assert db.users[i] in db.users;
        if j == |db.users| {
          assert IdBelow(db.users[i].id, db.nextId);
        } else {
          assert after.users[j] == db.users[j];
        }
      }
      forall i | 0 <= i < |after.users| ensures IdBelow(after.users[i].id, after.nextId) {
        if i < |db.users| {
          assert after.users[i] == db.users[i];
          assert IdBelow(db.users[i].id, db.nextId);
        }
      }
      forall i | 0 <= i < |after.sessions| ensures SessionRowValid(after.sessions[i], after.nextId) {
        assert SessionRowValid(db.sessions[i], db.nextId);
      }
    }
  }

  /** The user `FindUserByEmail` returns in a consistent table is the only one with that email. */
  lemma FoundUserIsUnique(db: Db, email: string, u: User)
    requires Consistent(db) && u in db.users && u.email == email
    ensures FindUserByEmail(db.users, email) == Some(u)
  {
    var v := FindUserByEmail(db.users, email).value;
    var i :| 0 <= i < |db.users| && db.users[i] == u;
    var j :| 0 <= j < |db.users| && db.users[j] == v;
    assert i == j;
  }

  lemma LoginKeepsConsistent(db: Db, cfg: Config, email: string, password: string, nowMs: nat)
    requires Consistent(db)
    ensures Consistent(Login(db, cfg, email, password, nowMs).db)
  {
    var s := Login(db, cfg, email, password, nowMs);
    if s.result.Ok? {
      var u := FindUserByEmail(db.users, email).value;
      var t := s.result.value;
      var row := Session(u.id, t.refreshToken, nowMs + 604800000);
      InsertKeepsUnique(db.sessions, u.id, t.refreshToken, nowMs);
      assert s.db.sessions == Insert(db.sessions, u.id, t.refreshToken, nowMs).value;
      DecodeEncode(Claims(u.id, cfg.jwtRefreshSecret, nowMs / 1000 + RefreshTokenTtl));
      var k :| 0 <= k < |db.users| && db.users[k] == u;
      assert IdBelow(db.users[k].id, db.nextId);
      assert SessionRowValid(row, db.nextId);
      forall i | 0 <= i < |s.db.sessions| ensures SessionRowValid(s.db.sessions[i], s.db.nextId) {
        if i < |db.sessions| {
          assert s.db.sessions[i] == db.sessions[i];
        }
      }
    }
  }

  lemma LogoutKeepsConsistent(db: Db, refreshToken: string)
    requires Consistent(db)
    ensures Consistent(Logout(db, refreshToken))
  {
    var after := Logout(db, refreshToken);
    WithoutTokenKeepsUnique(db.sessions, refreshToken);
    forall i | 0 <= i < |after.sessions| ensures SessionRowValid(after.sessions[i], after.nextId) {
      assert after.sessions[i] in after.sessions;
      var k :| 0 <= k < |db.sessions| && db.sessions[k] == after.sessions[i];
    }
  }

  // ---------------------------------------------------------------------
  // The session lifecycle

  /** A user who has just signed up can log in with the same credentials,
      and the login reports the user that signup returned. */
  lemma SignupThenLogin(db: Db, cfg: Config, email: string, password: string, nowMs: nat)
    requires Consistent(db)
    requires Signup(db, email, password).result.Ok?
    ensures var s := Signup(db, email, password);
            var l := Login(s.db, cfg, email, password, nowMs);
            l.result.Ok? && l.result.value.user == s.result.value
  {
    var s := Signup(db, email, password);
    SignupKeepsConsistent(db, email, password);
    var u := s.db.users[|db.users|];
    FoundUserIsUnique(s.db, email, u);
    var id := u.id;
    var token := Sign(id, cfg.jwtRefreshSecret, RefreshTokenTtl, nowMs);
    DecodeEncode(Claims(id, cfg.jwtRefreshSecret, nowMs / 1000 + RefreshTokenTtl));
    ParseNatToString(db.nextId);
    assert token !in Tokens(s.db.sessions) by {
      forall row | row in s.db.sessions ensures row.token != token {
        var k :| 0 <= k < |db.sessions| && db.sessions[k] == row;
        assert SessionRowValid(db.sessions[k], db.nextId);
      }
    }
  }

  /** From an empty store: signup, login, then logout with the login's
      refresh token. While that token still verifies it is refused with
      "Session not found", and the user is still found. */
  lemma LogoutAfterFirstLogin(cfg: Config, email: string, password: string, loginMs: nat, laterMs: nat)
    requires email != "" && password != ""
    requires laterMs / 1000 < loginMs / 1000 + RefreshTokenTtl
    ensures var s := Signup(Db([], [], 0), email, password);
            var l := Login(s.db, cfg, email, password, loginMs);
            && s.result.Ok? && l.result.Ok? && l.result.value.user == s.result.value
            && var out := Logout(l.db, l.result.value.refreshToken);
               && Refresh(out, cfg, l.result.value.refreshToken, laterMs) == Err(SessionNotFound)
               && LookupUser(out, s.result.value.id) == Ok(s.result.value)
  {
    var db0 := Db([], [], 0);
    EmptyConsistent();
    var s := Signup(db0, email, password);
    SignupThenLogin(db0, cfg, email, password, loginMs);
    var l := Login(s.db, cfg, email, password, loginMs);
    var t := l.result.value;
    var out := Logout(l.db, t.refreshToken);
    VerifySign(t.user.id, cfg.jwtRefreshSecret, RefreshTokenTtl, loginMs, cfg.jwtRefreshSecret, laterMs);
    LogoutEndsRefresh(l.db, cfg, t.refreshToken, laterMs);
    assert out.users == [User(t.user.id, email, Hash(password))];
  }

  /** With a wrong password a login fails with "Invalid password" and
      changes nothing, whoever else may share that password. */
  lemma LoginWithWrongPassword(db: Db, cfg: Config, u: User, password: string, nowMs: nat)
    requires Consistent(db) && u in db.users && u.passwordHash == Hash(password)
    ensures forall other :: other != password ==> Login(db, cfg, u.email, other, nowMs) == Step(Err(InvalidPassword), db)
  {
    FoundUserIsUnique(db, u.email, u);
  }

  /** A refresh token from a login is honoured until the token itself
      expires, seven days after the second of the login, and refused with
      "Invalid refresh token" from then on. */
  lemma LoginThenRefresh(db: Db, cfg: Config, email: string, password: string, loginMs: nat, nowMs: nat)
    requires Consistent(db)
    requires Login(db, cfg, email, password, loginMs).result.Ok?
    ensures var s := Login(db, cfg, email, password, loginMs);
            var t := s.result.value;
            Refresh(s.db, cfg, t.refreshToken, nowMs)
              == if nowMs / 1000 < loginMs / 1000 + RefreshTokenTtl
                 then Ok(Sign(t.user.id, cfg.jwtSecret, AccessTokenTtl, nowMs))
                 else Err(InvalidRefreshToken)
  {
    var s := Login(db, cfg, email, password, loginMs);
    var t := s.result.value;
    var u := FindUserByEmail(db.users, email).value;
    LoginKeepsConsistent(db, cfg, email, password, loginMs);
    VerifySign(u.id, cfg.jwtRefreshSecret, RefreshTokenTtl, loginMs, cfg.jwtRefreshSecret, nowMs);
    var row := Session(u.id, t.refreshToken, loginMs + 604800000);
    assert s.db.sessions[|db.sessions|] == row;
    var found := FindByToken(s.db.sessions, t.refreshToken);
    assert found.Some? by {
      assert row in s.db.sessions;
    }
    assert found.value == row by {
      var k :| 0 <= k < |s.db.sessions| && s.db.sessions[k] == found.value;
      assert s.db.sessions[k].token == s.db.sessions[|db.sessions|].token;
      assert UniqueTokens(s.db.sessions);
      assert k == |db.sessions|;
    }
  }

  /** Logging in twice within the same second issues the same refresh
      token again (no nonce enters it); the second session insert then
      breaks the unique token column and the login fails. */
  lemma SameSecondLoginsCollide(db: Db, cfg: Config, email: string, password: string, firstMs: nat, secondMs: nat)
    requires Login(db, cfg, email, password, firstMs).result.Ok?
    requires firstMs / 1000 == secondMs / 1000
    ensures var s := Login(db, cfg, email, password, firstMs);
            Login(s.db, cfg, email, password, secondMs) == Step(Err(StoreFailure), s.db)
  {
    var s := Login(db, cfg, email, password, firstMs);
    var t := s.result.value;
    assert s.db.users == db.users;
    var row := s.db.sessions[|db.sessions|];
    assert row.token == t.refreshToken && row in s.db.sessions;
  }

  /** After logout the refresh token no longer obtains an access token,
      even though its signature and expiry still verify. */
  lemma LogoutEndsRefresh(db: Db, cfg: Config, refreshToken: string, nowMs: nat)
    ensures Refresh(Logout(db, refreshToken), cfg, refreshToken, nowMs)
         == if Verify(refreshToken, cfg.jwtRefreshSecret, nowMs).Some? then Err(SessionNotFound) else Err(InvalidRefreshToken)
  {
    var after := Logout(db, refreshToken);
    assert refreshToken !in Tokens(after.sessions);
  }

  /** Logging out twice is logging out once. */
  lemma LogoutIdempotent(db: Db, refreshToken: string)
    ensures Logout(Logout(db, refreshToken), refreshToken) == Logout(db, refreshToken)
  {
    WithoutTokenIdempotent(db.sessions, refreshToken);
  }

  /** Logging out with a token no session holds changes nothing. */
  lemma LogoutUnknownToken(db: Db, refreshToken: string)
    requires refreshToken !in Tokens(db.sessions)
    ensures Logout(db, refreshToken) == db
  {
    WithoutAbsentToken(db.sessions, refreshToken);
  }

  /** In a consistent store "Session expired" is never reported: a
      session outlives its own refresh token, so a token whose session has
      expired has already failed the JWT check. */
  lemma RefreshNeverReportsExpiry(db: Db, cfg: Config, refreshToken: string, nowMs: nat)
    requires Consistent(db)
    ensures Refresh(db, cfg, refreshToken, nowMs) != Err(SessionExpired)
  {
    var found := FindByToken(db.sessions, refreshToken);
    if Verify(refreshToken, cfg.jwtRefreshSecret, nowMs).Some? && found.Some? {
      var row := found.value;
      var k :| 0 <= k < |db.sessions| && db.sessions[k] == row;
      assert SessionRowValid(db.sessions[k], db.nextId);
      var c := Decode(refreshToken).value;
      assert nowMs / 1000 < c.exp && c.exp * 1000 <= row.expiresAt;
      assert nowMs < (nowMs / 1000 + 1) * 1000;
      assert nowMs <= row.expiresAt;
    }
  }

  // ---------------------------------------------------------------------
  // The store as the service runs it: two tables updated in place

  class AuthStore {
    const config: Config
    var users: seq<User>
    var sessions: seq<Session>
    var nextId: nat

    function Snapshot(): Db
      reads this
    {
      Db(users, sessions, nextId)
    }

    ghost predicate Valid()
      reads this
    {
      Consistent(Snapshot())
    }

    constructor (config: Config)
      ensures this.config == config && Snapshot() == Db([], [], 0) && Valid()
    {
      this.config := config;
      users, sessions, nextId := [], [], 0;
    }

    /** `saveSession` (auth.helpers): one row, expiring seven days from now. */
    method SaveSession(userId: string, token: string, nowMs: nat) returns (saved: bool)
      modifies this
      ensures users == old(users) && nextId == old(nextId)
      ensures saved <==> token !in Tokens(old(sessions))
      ensures sessions == if saved then old(sessions) + [Session(userId, token, nowMs + 604800000)] else old(sessions)
    {
      var existing := FindByToken(sessions, token);
      if existing.Some? {
        return false;
      }
      var expiresAt := nowMs + SessionLifetime();
      sessions := sessions + [Session(userId, token, expiresAt)];
      saved := true;
    }

    /** `deleteSession` (auth.helpers): every row with the token goes. */
    method DeleteSession(token: string)
      modifies this
      ensures users == old(users) && nextId == old(nextId)
      ensures sessions == WithoutToken(old(sessions), token)
    {
      sessions := WithoutToken(sessions, token);
    }

    method SignupUser(email: string, password: string) returns (r: Result<PublicUser, AuthError>)
      requires Valid()
      modifies this
      ensures Valid()
      ensures Step(r, Snapshot()) == Signup(old(Snapshot()), email, password)
    {
      SignupKeepsConsistent(Snapshot(), email, password);
      if email == "" || password == "" {
        return Err(MissingCredentials);
      }
      var existingUser := FindUserByEmail(users, email);
      if existingUser.Some? {
        return Err(UserAlreadyExists);
      }
      var hashedPassword := Hash(password);
      var id := NatToString(nextId);
      users := users + [User(id, email, hashedPassword)];
      nextId := nextId + 1;
      r := Ok(PublicUser(id, email));
    }

    method LoginUser(email: string, password: string, nowMs: nat) returns (r: Result<LoginTokens, AuthError>)
      requires Valid()
      modifies this
      ensures Valid()
      ensures Step(r, Snapshot()) == Login(old(Snapshot()), config, email, password, nowMs)
    {
      LoginKeepsConsistent(Snapshot(), config, email, password, nowMs);
      var user := FindUserByEmail(users, email);
      if user.None? {
        return Err(UserNotFound);
      }
      var valid := Compare(password, user.value.passwordHash);
      if !valid {
        return Err(InvalidPassword);
      }
      var accessToken := Sign(user.value.id, config.jwtSecret, AccessTokenTtl, nowMs);
      var refreshToken := Sign(user.value.id, config.jwtRefreshSecret, RefreshTokenTtl, nowMs);
      var saved := SaveSession(user.value.id, refreshToken, nowMs);
      if !saved {
        return Err(StoreFailure);
      }
      r := Ok(LoginTokens(accessToken, refreshToken, PublicUser(user.value.id, user.value.email)));
    }

    method LogoutUser(refreshToken: string)
      requires Valid()
      modifies this
      ensures Valid()
      ensures Snapshot() == Logout(old(Snapshot()), refreshToken)
    {
      LogoutKeepsConsistent(Snapshot(), refreshToken);
      DeleteSession(refreshToken);
    }

    /** Reads the session table and changes nothing: the refresh token and
        its session are not rotated. */
    method GenerateAccessToken(refreshToken: string, nowMs: nat) returns (r: Result<string, AuthError>)
      ensures r == Refresh(Snapshot(), config, refreshToken, nowMs)
    {
      var decoded := Verify(refreshToken, config.jwtRefreshSecret, nowMs);
      if decoded.None? {
        return Err(InvalidRefreshToken);
      }
      var session := FindByToken(sessions, refreshToken);
      if session.None? {
        return Err(SessionNotFound);
      }
      if session.value.expiresAt < nowMs {
        return Err(SessionExpired);
      }
      r := Ok(Sign(decoded.value, config.jwtSecret, AccessTokenTtl, nowMs));
    }

    method GetUser(userId: string) returns (r: Result<PublicUser, AuthError>)
      ensures r == LookupUser(Snapshot(), userId)
    {
      var user := FindUserById(users, userId);
      if user.None? {
        return Err(UserNotFound);
      }
      r := Ok(PublicUser(user.value.id, user.value.email));
    }
  }
}
