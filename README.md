# Verified model of the JWT authentication core of express-ts-jwt-boilerplate

This Dafny project models the authentication and session lifecycle of a
small Express backend:

- **signup** hashes the password and stores a user;
- **login** checks the password, signs a 15-minute access token and a
  7-day refresh token, and stores a session row keyed by the refresh token;
- **logout** deletes the session rows that hold a refresh token;
- **refresh** checks the refresh token's JWT, then its session row, then
  the row's expiry, and signs a new access token;
- **/me** looks up a user by id, behind a middleware that takes the token
  from the `Authorization` header.

Around these sit the controllers, which map service errors to HTTP statuses
and set or clear the `refreshToken` cookie, and the two JSON envelope helpers.

Modules, one per source file or library:

| module | file | models |
|---|---|---|
| `Wrappers` | wrappers.dfy | `Option` (`undefined`, a missing row) and `Result` (a thrown error) |
| `Strings` | strings.dfy | `split(' ')`, decimal rendering and `parseInt`, an escaping used by the token encoding |
| `Bcrypt` | bcrypt.dfy | `bcrypt.hash` / `bcrypt.compare`, symbolically |
| `Jwt` | jwt.dfy | `jwt.sign` / `jwt.verify` (RFC 7519, `exp` of section 4.1.4), symbolically |
| `AuthHelpers` | auth_helpers.dfy | `src/utils/auth.helpers.ts`: the session table, `saveSession`, `deleteSession` |
| `AuthService` | auth_service.dfy | `src/services/auth/auth-service.ts` |
| `Middleware` | auth_middleware.dfy | `src/middlewares/auth.middleware.ts` |
| `AuthController` | auth_controller.dfy | `src/controllers/auth/auth.controller.ts` |
| `Helpers` | helpers.dfy | `src/utils/helpers.ts` |

How the model is built:

- **Time.** The clock is a parameter `nowMs`, in milliseconds like
  `Date.now()`.
- **Tokens.** A token is a string. It encodes `Claims(userId, signedWith, exp)`,
  where `exp` is in whole seconds, as `jsonwebtoken` writes it. `Verify`
  accepts a token signed with the given secret while the current whole second
  is below `exp`.
- **Passwords.** A bcrypt digest is a value of its own type that records its
  preimage. `Compare` holds exactly for the hashed password.
- **Tables.** The two tables are sequences of rows, and `findUnique` returns
  the first match.
- **Operations.** `AuthService` defines each operation as a function from the
  tables to an outcome and new tables, and the lemmas reason about these
  functions. The class `AuthService.AuthStore` holds the tables as fields and
  runs each operation in place. Each of its methods is proved to agree with
  the matching function. `SignupUser`, `LoginUser` and `LogoutUser` also keep
  `Consistent`. `SaveSession` and `DeleteSession` are the raw table writes
  that those methods use; they promise only the new table, not
  `Consistent`, since an arbitrary token can break it.
- **`Consistent`.** Emails, ids and session tokens are unique. Every session
  row holds a token that was signed for that row's user and that expires no
  later than the row.

Three behaviours of the code differ from what one would expect. The model
follows the code:

- **"Session expired" is almost never reported.** One would expect the
  refresh path to answer "Session expired" once the 7-day session lapses. In
  the code the JWT check runs first, and the refresh token always expires no
  later than its session, earlier by up to about a second: `exp` is counted
  from the start of the signing second, the row's expiry from the moment it
  is saved. So the client gets "Invalid refresh token" instead,
  except when the session lookup straddles the token's expiry.
  `RefreshNeverReportsExpiry` proves that with one clock reading per request
  "Session expired" is never reported, and `LoginThenRefresh` gives the exact
  cutoff.
- **Logins in the same second collide.** One would expect concurrent logins
  to simply add session rows. A refresh token holds the user id, `iat` and
  `exp`, all fixed within one second, and no nonce, so two logins by one user within the same second produce the
  same token. The store's unique token column then rejects the second session
  insert, and that login answers 500. `SameSecondLoginsCollide` proves this.
- **The two secrets may be equal.** One would expect two distinct secrets to
  be required. The code only checks that both are present, so when they are equal a
  refresh token is accepted as a bearer access token for 7 days.
  `RefreshTokenAsBearer` proves this.

## Model

| member | source | states |
|---|---|---|
| `Strings.Split` | src/middlewares/auth.middleware.ts:16 | `split(' ')` yields at least one piece and no piece contains the separator |
| `Strings.ParseIntPrefix` | src/utils/auth.helpers.ts:7 | `parseInt` of a string of decimal digits followed by text, without a `0x` prefix, yields a number exactly when the string starts with a digit, NaN otherwise |
| `Strings.ParseIntPrefixRendering` | src/utils/auth.helpers.ts:7 | `parseInt` reads back a rendered natural followed by a unit such as "d" that is not a digit, except "0" followed by `x`, a hexadecimal prefix |
| `Strings.JoinSplit` | src/middlewares/auth.middleware.ts:16 | joining the pieces with the separator gives the header back: splitting loses nothing |
| `Bcrypt.Compare` | src/services/auth/auth-service.ts:63 | the password check holds exactly when the stored digest is the digest of the given password |
| `Jwt.Sign` | src/services/auth/auth-service.ts:69-70 | a signed token carries exactly the user id, the signing secret and `exp` = the current whole second plus the lifetime, and contains no blank |
| `Jwt.Verify` | src/services/auth/auth-service.ts:89 | `jwt.verify` returns the token's user id exactly when the token decodes, was signed with the given secret and its `exp` lies after the current whole second |
| `Jwt.DecodeEncode` | src/services/auth/auth-service.ts:69-70 | a signed token decodes to exactly the claims it was signed with |
| `Jwt.VerifySign` | src/services/auth/auth-service.ts:89 | a token verifies under its own secret, for its own user, until `exp`, and never under another secret |
| `Jwt.SignInjective` | src/services/auth/auth-service.ts:70 | equal tokens were issued for the same user and secret and expire together |
| `Jwt.AccessTokenLifetime` | src/services/auth/auth-service.ts:16 | an access token is accepted exactly until 15 minutes after the start of the second it was signed in |
| `AuthHelpers.SessionLifetime` | src/utils/auth.helpers.ts:3-7 | `parseInt("7d") * 24 * 60 * 60 * 1000` is 604800000 ms |
| `AuthHelpers.Insert` | src/utils/auth.helpers.ts:6-8 | a session insert appends exactly one row (user, token, now + 604800000) and keeps the old rows; it fails when the token is already stored |
| `AuthHelpers.InsertKeepsUnique` | src/utils/auth.helpers.ts:7 | a successful insert keeps session tokens unique |
| `AuthHelpers.WithoutToken` | src/utils/auth.helpers.ts:11-13 | `deleteMany` by token removes every row with that token and keeps every other row |
| `AuthHelpers.WithoutAbsentToken` | src/utils/auth.helpers.ts:11-13 | deleting a token no row holds leaves the table unchanged |
| `AuthHelpers.WithoutTokenIdempotent` | src/utils/auth.helpers.ts:11-13 | deleting twice equals deleting once |
| `AuthHelpers.WithoutTokenKeepsUnique` | src/utils/auth.helpers.ts:12 | deleting keeps session tokens unique |
| `AuthHelpers.FindByToken` | src/services/auth/auth-service.ts:95 | the session lookup returns a row holding the token, and none exactly when no row holds it |
| `AuthService.MessageInjective` | src/services/auth/auth-service.ts:32-103 | no two service errors share a message, so the controllers' string comparisons tell every error apart |
| `AuthService.LoadConfig` | src/services/auth/auth-service.ts:8-13 | loading fails with "JWT_SECRET or JWT_REFRESH_SECRET is not defined" exactly when either secret is absent or empty |
| `AuthService.FindUserByEmail` | src/services/auth/auth-service.ts:36 | the lookup returns a user with that email, and none exactly when no user has it |
| `AuthService.FindUserById` | src/services/auth/auth-service.ts:115-118 | the lookup returns a user with that id, and none exactly when no user has it |
| `AuthService.Signup` | src/services/auth/auth-service.ts:26-49 | empty fields give "Email and password are required" first; an existing email gives "User already exists" whatever the password; failures change nothing; success appends exactly one user holding `Hash(password)` and returns only `{id, email}`; the new id differs from every id below the store's counter, so in a consistent store from every existing id |
| `AuthService.Login` | src/services/auth/auth-service.ts:52-78 | "User not found" exactly when no user has the email; "Invalid password" exactly when the found user's digest is not that of the password; the store error exactly when the password matches and the refresh token about to be issued is already stored; so success exactly in every other case; failures change nothing; success appends exactly one session keyed by the refresh token; both tokens name the user's id; access is signed with JWT_SECRET for 15 min and refresh with JWT_REFRESH_SECRET for 7 days; users are untouched |
| `AuthService.Logout` | src/services/auth/auth-service.ts:81-83 | logout removes exactly the sessions holding the token and leaves the users untouched |
| `AuthService.Refresh` | src/services/auth/auth-service.ts:85-112 | "Invalid refresh token" exactly when the JWT fails to verify, before any lookup; "Session not found" exactly when it verifies and no row holds it; for a verified token with a row, "Session expired" exactly when `expiresAt < now` (strict, so a row expiring at `now` still succeeds); success exactly in the remaining case, with a new 15-minute access token for the decoded user signed with JWT_SECRET; no other error; no table changes |
| `AuthService.LookupUser` | src/services/auth/auth-service.ts:114-125 | returns `{id, email}` of the user with that id, or "User not found" exactly when no user has it |
| `AuthService.SignupKeepsConsistent` | src/services/auth/auth-service.ts:36-46 | signup keeps emails, ids and session tokens unique and every session tied to its token |
| `AuthService.LoginKeepsConsistent` | src/services/auth/auth-service.ts:69-73 | login keeps the store consistent: the new row's token names its user and expires no later than the row |
| `AuthService.LogoutKeepsConsistent` | src/services/auth/auth-service.ts:81-83 | logout keeps the store consistent |
| `AuthService.FoundUserIsUnique` | src/services/auth/auth-service.ts:56 | in a consistent store the email lookup finds the one user with that email |
| `AuthService.SignupThenLogin` | src/services/auth/auth-service.ts:43-77 | right after signup, login with the same credentials succeeds and reports the user that signup returned |
| `AuthService.LoginWithWrongPassword` | src/services/auth/auth-service.ts:62-66 | any other password fails with "Invalid password" and changes nothing (bcrypt's 72-byte truncation aside) |
| `AuthService.LoginThenRefresh` | src/services/auth/auth-service.ts:69-104 | a login's refresh token yields a fresh access token for that user until 7 days after the login's second, and "Invalid refresh token" afterwards |
| `AuthService.SameSecondLoginsCollide` | src/services/auth/auth-service.ts:69-73 | a second login of the same user in the same second fails on the duplicate session token and changes nothing |
| `AuthService.LogoutEndsRefresh` | src/services/auth/auth-service.ts:95-99 | after logout with `t`, refreshing with `t` gives "Session not found" whenever `t` still verifies |
| `AuthService.LogoutAfterFirstLogin` | src/services/auth/auth-service.ts:81-99 | from an empty store, after signup, login and logout with the login's refresh token, refresh answers "Session not found" while the token still verifies, and the user is still found |
| `AuthService.LogoutIdempotent` | src/services/auth/auth-service.ts:81-83 | logging out twice with one token equals logging out once |
| `AuthService.LogoutUnknownToken` | src/services/auth/auth-service.ts:81-83 | logout with a token no session holds changes nothing |
| `AuthService.RefreshNeverReportsExpiry` | src/services/auth/auth-service.ts:101-104 | in a consistent store, with one clock reading per request, refresh never answers "Session expired" |
| `AuthService.AuthStore.SaveSession` | src/utils/auth.helpers.ts:6-8 | the session table gains exactly the row (user, token, now + 604800000) unless the token is already stored; users untouched |
| `AuthService.AuthStore.DeleteSession` | src/utils/auth.helpers.ts:11-13 | the session table becomes `WithoutToken` of the old one; users untouched |
| `AuthService.AuthStore.SignupUser` | src/services/auth/auth-service.ts:26-49 | the result and new tables are those of `Signup`; consistency is kept |
| `AuthService.AuthStore.LoginUser` | src/services/auth/auth-service.ts:52-78 | the result and new tables are those of `Login`; consistency is kept |
| `AuthService.AuthStore.LogoutUser` | src/services/auth/auth-service.ts:81-83 | the new tables are those of `Logout`; consistency is kept |
| `AuthService.AuthStore.GenerateAccessToken` | src/services/auth/auth-service.ts:85-112 | returns `Refresh` of the current tables and modifies nothing, so the refresh token is not rotated |
| `AuthService.AuthStore.GetUser` | src/services/auth/auth-service.ts:114-125 | returns `LookupUser` of the current tables and modifies nothing |
| `Middleware.LoadSecret` | src/middlewares/auth.middleware.ts:4-8 | loading fails with "JWT_SECRET is not defined" exactly when the secret is absent or empty |
| `Middleware.BearerToken` | src/middlewares/auth.middleware.ts:16 | `authorization?.split(' ')[1]` is defined exactly when a header is present and contains a blank, and the field it yields contains no blank |
| `Middleware.BearerTokenIsSecondField` | src/middlewares/auth.middleware.ts:16 | the token is the second blank-separated field: any first word is accepted and later fields are ignored |
| `Middleware.Gate` | src/middlewares/auth.middleware.ts:14-27 | "No token provided" exactly for an absent or empty token; "Invalid token" exactly for a present token that fails verification; otherwise the verified user id |
| `Middleware.AccessTokenAdmitted` | src/middlewares/auth.middleware.ts:22-24 | `Bearer <access token>` authenticates its user until 15 minutes after the login's second, and is an invalid token afterwards |
| `Middleware.RefreshTokenAsBearer` | src/middlewares/auth.middleware.ts:22 | a refresh token passes the middleware exactly when the two secrets are equal and the token is unexpired |
| `Middleware.AuthMiddleware` | src/middlewares/auth.middleware.ts:14-28 | on no or invalid token: status 401 with the matching error, `next` not called and `userId` untouched; on success: `userId` set to the verified user, `next` called exactly once, no status written |
| `AuthController.SignUpFailure` | src/controllers/auth/auth.controller.ts:26-41 | "User already exists", "Email and password are required", "Invalid password" and "User not found" give 400 with that message; any other error gives 500 "Internal server error" |
| `AuthController.SignUpController` | src/controllers/auth/auth.controller.ts:18-43 | empty fields give 400 before the service runs, with the tables unchanged; 200 exactly when signup succeeds, with the new user and message; a service error is answered by `SignUpFailure`, e.g. 400 "User already exists" for a known email |
| `AuthController.LoginFailure` | src/controllers/auth/auth.controller.ts:56-68 | "User not found", "Invalid password" and "Email and password are required" give 400 with that message; any other error gives 500 "Internal server error" |
| `AuthController.LoginController` | src/controllers/auth/auth.controller.ts:45-70 | empty fields give 400 without the service; 200 exactly on a successful login, with the access token and `{id, email}`; the refresh cookie is httpOnly with maxAge 604800000 (= the session lifetime = the refresh TTL), and `secure` exactly when NODE_ENV is "production"; no cookie on failure; a service error is answered by `LoginFailure`: 400 "User not found" or "Invalid password", and 500 only for the store error |
| `AuthController.LogoutControllerAsWritten` | src/controllers/auth/auth.controller.ts:72-77 | as written: 200 and the cookie cleared always; without a cookie the session table is emptied |
| `AuthController.LogoutController` | src/controllers/auth/auth.controller.ts:72-77 | 200 and the cookie cleared always; exactly the sessions holding the cookie's token are removed, and none without a cookie |
| `AuthController.LogoutWithoutCookie` | src/controllers/auth/auth.controller.ts:73-74 | as written, a logout without a cookie deletes every other user's session, so a refresh that worked before no longer does; corrected, it changes nothing |
| `AuthController.RefreshFailure` | src/controllers/auth/auth.controller.ts:89-98 | "Session not found", "Invalid refresh token" and "Session expired" give 401 with that message; any other error gives 500 "Internal server error" |
| `AuthController.RefreshTokenController` | src/controllers/auth/auth.controller.ts:79-100 | a missing or empty cookie gives 401 "Refresh token not provided"; 200 exactly when the refresh succeeds, with the new access token; a service error is answered by `RefreshFailure`, 401 with the service's own message ("Invalid refresh token", "Session not found" or "Session expired"); cookies untouched |
| `AuthController.GetUserFailure` | src/controllers/auth/auth.controller.ts:110-116 | "User not found" gives 400; any other error gives 500 "Internal server error" |
| `AuthController.GetUserController` | src/controllers/auth/auth.controller.ts:102-118 | a missing or empty user id gives 400 "User ID is required"; 200 exactly when the user exists, with only its id and email; a missing user is answered by `GetUserFailure`: 400 "User not found" |
| `AuthController.LoginFromEmptyStore` | src/routes/auth.routes.ts:7-11 | from an empty store, signup and login succeed; within 15 minutes the access token passes the middleware, `/me` returns the user and the refresh cookie yields a new access token |
| `AuthController.LogoutAfterLogin` | src/routes/auth.routes.ts:7-11 | after logout with the login's cookie, refresh answers 401 "Session not found" while `/me` still returns the user: the access token is bound to no session |
| `Helpers.FormatResponse` | src/utils/helpers.ts:5-11 | `success` is true and `data` is unchanged; the message is passed through unless absent or empty, when it is "Operation successful" |
| `Helpers.FormatError` | src/utils/helpers.ts:13-19 | `success` is false and the message is unchanged; the status is passed through unless absent or 0, when it is 400 |

## Findings

| source | as written | input that shows it | evidently intended | confidence | as-written member | corrected member |
|---|---|---|---|---|---|---|
| src/controllers/auth/auth.controller.ts:73-74 | `logoutController` passes `req.cookies.refreshToken` to `deleteSession` unchecked. Without the cookie that value is `undefined`, and Prisma ignores an `undefined` filter, so `deleteMany({ where: { token: undefined } })` deletes every session row | `POST /logout` with a valid bearer access token and no `refreshToken` cookie, while other users hold sessions | logout removes only the caller's session, and with no token it removes nothing | medium, not executed (rests on Prisma's documented reading of `undefined` in filters) | `AuthController.LogoutControllerAsWritten` | `AuthController.LogoutController` |

`AuthController.LogoutWithoutCookie` exhibits the discrepancy. As written,
the session table is emptied, and a refresh that succeeded before the request
fails after it. Corrected, the tables are unchanged. The end-to-end lemma
`LogoutAfterLogin` uses the corrected handler.

## Left out

- bcrypt internals (salt, cost 10) are not modelled: a digest is a symbolic value that records its whole preimage. The `bcrypt` package reads only the first 72 bytes of a password, so two passwords that agree on those bytes compare equal; the model does not capture that truncation.
- `Bcrypt.Compare`: holds exactly for the same password, where bcrypt also accepts a password that agrees with the hashed one on its first 72 bytes; the contract is exact only for passwords that differ within their first 72 bytes.
- `AuthService.Login`: "Invalid password" exactly when the digest differs holds only for passwords that differ from the stored one within their first 72 bytes, because bcrypt ignores the rest.
- `AuthService.LoginWithWrongPassword`: holds only for other passwords that differ within their first 72 bytes; a longer password sharing those bytes logs in.
- `AuthService.RefreshNeverReportsExpiry`: the model reads the clock once per operation, where the code reads it twice in refresh (`jwt.verify`, then `new Date()` after the awaited lookup) and twice in login (`jwt.sign`, then `Date.now()` in `saveSession`). A refresh whose lookup straddles the token's expiry can therefore be answered "Session expired" in the code.
- jsonwebtoken internals (base64url JSON, the HMAC signature, the `iat` claim) are not modelled. A token is a reversible text encoding of (userId, signing secret, `exp`) that contains no blank. `Verify` looks at the signature and `exp` only.
- The TTL strings "15m" and "7d" that jsonwebtoken parses are constants (900 s and 604800 s). `parseInt` is modelled only for a leading run of decimal digits, which covers the constant "7d".
- `Strings.ParseIntPrefix`: does not model the `0x`/`0X` hexadecimal prefix (`parseInt("0x1A")` is 26, `parseInt("0x")` is NaN, where the model reads both as 0), leading blanks, or a sign; the code parses only "7d".
- Prisma, `async`/`await` and database concurrency are not modelled. The tables are in-memory sequences and each operation is atomic. The only store error modelled is the unique constraint on the session token, which `findUnique({ where: { token } })` implies. Connection and other store failures are left out, and so is the propagation of such a failure out of `logoutController`, which has no `catch`.
- Prisma's user id generator is not modelled: the store hands out the decimal rendering of a counter.
- `Date.now()` and `new Date()` are not modelled: the time is the parameter `nowMs`, read once per operation.
- Request bodies whose `email` or `password` is not a string are not modelled: a missing field is the empty string, which is falsy like `undefined`.
- A token whose payload lacks `userId` is not modelled: every decodable token names a user.
- `Middleware.AuthMiddleware`: does not model the case where `next()` throws synchronously, which the `catch` would answer with 401 'Invalid token'. The route handlers are `async` and never throw synchronously.
- `AuthService.Message`: the store's error text for a duplicate token is an approximation. Only its difference from the service's own messages matters.
- `Helpers.FormatError`: does not model a `NaN` status code, which is also falsy, because status codes are integers here.
- src/app.ts, src/routes/auth.routes.ts, src/routes/example.ts, src/config/index.ts and src/controllers/exampleController.ts are Express wiring, environment reading and a demo handler. They are not part of this model, except that `LoginFromEmptyStore` and `LogoutAfterLogin` follow the route table.
