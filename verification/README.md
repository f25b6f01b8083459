# go-crud-api authentication and user management, in Dafny

A model of the request path of the `go-crud-api` service: the JSON handlers
for register, login and user CRUD, the user service behind them, the
PostgreSQL-backed user repository, the HS256 JSON Web Token service, and the
bearer-token middleware in front of the protected routes.

Everything is pure functions over immutable data:

- The `users` table is a map from id to row plus the next value of the id
  sequence (`Repository.Table`). Every repository, service and handler
  operation returns its outcome together with the table after it.
- bcrypt is a pair of functions supplied by the caller (`Crypto.Hasher`).
  `Crypto.Complete` and `Crypto.Discriminating` state what the end-to-end
  lemmas assume of it; `Scenarios.LoginAfterRegister` needs only the first.
  bcrypt itself does not have the second for passwords past 72 bytes (see
  "Left out").
- The JOSE primitives are also supplied functions (`Jwt.Jose`): the HMAC-SHA-256
  MAC of section 3.2 of RFC 7518, and the compact serialization of section 7.1
  of RFC 7515. `Jwt.Faithful` states what is assumed of the serialization.
- golang-jwt v5's parse rule is written out: a token that does not parse is
  malformed, then the signature is checked, then expiry.
- The clock is an explicit `now: int`, in seconds.
- A request body is `Option<…>`: `None` is a body that does not decode.
- Path ids are raw strings, parsed by a model of `strconv.ParseInt(s, 10, 64)`.
- The validator's email rule and its error text are parameters of
  `Handlers.Env`.

Modules:

- `Wrappers`, `GoTypes`, `Errors`: option/result types, int64, and the error
  values that travel between layers with their `Error()` texts.
- `GoStrings`: `strings.Split` and `strings.Join`.
- `StrConv`: `strconv.ParseInt` and `strconv.FormatInt`.
- `Models`: the records and their validation tags.
- `Crypto`, `Jwt`: the password hasher and the token service.
- `Http`, `Middleware`: the response shape and the bearer-token gate.
- `Repository`, `Services`, `Handlers`: the three layers of the user API.
- `Scenarios`: flows across all layers.

## Model

| member | source | states |
|---|---|---|
| GoStrings.Split | internal/middleware/auth.go:27 | `strings.Split` always yields at least one part, and no part contains the separator |
| GoStrings.JoinSplit | internal/middleware/auth.go:27 | joining the parts with the separator gives the string back |
| GoStrings.SplitCount | internal/middleware/auth.go:27-28 | there is one more part than there are separators, so "exactly two parts" means "exactly one space" |
| GoStrings.SplitWithoutSeparator | internal/middleware/auth.go:27 | a string without the separator splits into itself alone |
| GoStrings.SplitAfterPrefix | internal/middleware/auth.go:27 | a separator-free prefix followed by the separator becomes the first part, and the rest splits on its own |
| GoStrings.SplitTwo | internal/middleware/auth.go:27-28 | the split is exactly `[a, b]` iff the string is `a`, separator, `b` with neither part holding the separator |
| StrConv.ParseInt64 | internal/handlers/handler.go:90 | only an optional sign followed by digits parses; a digit string within int64 range parses to its decimal value; one beyond the range is rejected |
| StrConv.ParseFormat | internal/handlers/handler.go:90-94 | every int64 printed in base 10 parses back to itself, so no stored id is answered "Invalid user ID" |
| StrConv.ParseExamples | internal/handlers/handler.go:90-94 | "", "abc", "-" and "1.5" are rejected; "-12" and "+007" are accepted |
| Models.ResponseForgetsPassword | internal/models/user.go:10-14 | the public view keeps id, name and email, and two users differing only in password look the same |
| Models.JsonKeys | internal/models/user.go:3-8 | a user's JSON always has id, name and email, and has a password key iff the password is non-empty (`omitempty`) |
| Models.CheckField | internal/models/user.go:16-30 | a field reports at most one violation, the first failing tag in order; it reports none iff every tag holds |
| Models.CheckTwo | internal/models/user.go:16-30 | a field with two tags passes iff it satisfies both |
| Models.RegisterViolations | internal/models/user.go:21-25 | a registration is valid iff the name has at least 2 characters, the email is present and well-formed, and the password has at least 6 characters |
| Models.LoginViolations | internal/models/user.go:16-19 | a login is valid iff the email is present and well-formed and the password has at least 6 characters |
| Models.UpdateViolations | internal/models/user.go:27-30 | an update is valid iff the name has at least 2 characters and the email is present and well-formed |
| Jwt.NewJwtService | internal/utils/jwt.go:25-30 | the service keeps the secret's bytes and the expiry exactly as given |
| Jwt.IssueClaims | internal/utils/jwt.go:32-43 | issued claims carry user id and email verbatim, subject equals email, issued-at is now, and expiry minus issued-at is the configured lifetime |
| Jwt.GenerateToken | internal/utils/jwt.go:45-46 | signing with an HMAC byte key always succeeds |
| Jwt.ParseWithClaims | internal/utils/jwt.go:50-52 | the library answers malformed, bad signature or expired; a nil error always comes with `Valid` set |
| Jwt.ValidateToken | internal/utils/jwt.go:49-63 | a token is accepted iff it parses, its MAC verifies under the secret and now is before its `exp`; the claims returned are the token's own; `ErrInvalidToken` is never returned |
| Jwt.IssuedTokenLifetime | internal/utils/jwt.go:25-63 | a token issued at time T validates to exactly its issued claims at every time before T + expiry, and is expired from then on |
| Jwt.VerdictDependsOnlyOnSecret | internal/utils/jwt.go:49-52 | every token is verified under the one secret: services with equal secrets agree on every token at every time |
| Jwt.ForeignSignatureRejected | internal/utils/jwt.go:45-52 | a token signed under another key whose MAC differs is rejected as badly signed |
| Middleware.BearerToken | internal/middleware/auth.go:21-33 | an empty header is "header required"; a token is extracted only from `Bearer ` + token with no space in the token; every other header is "invalid format" |
| Middleware.BearerTokenIff | internal/middleware/auth.go:27-33 | the header passes with token `t` iff it is `Bearer`, one space, `t`, and `t` has no space |
| Middleware.NotBearerShaped | internal/middleware/auth.go:27-31 | a non-empty header without the `Bearer ` prefix, or with a space after it, is "invalid format" |
| Middleware.MalformedHeaders | internal/middleware/auth.go:27-31 | `Bearer`, `Foo abc`, `Bearer a b` and `Bearer  a` are "invalid format" |
| Middleware.EmptyTokenHeader | internal/middleware/auth.go:27-33 | `Bearer ` passes the format check with the empty token |
| Middleware.Authenticate | internal/middleware/auth.go:21-45 | every rejection is a 401 with a failure envelope; a header failure gives its own message; a validator failure gives "Invalid or expired token"; the request is forwarded iff the header passes and the validator accepts, with the claims' identity attached |
| Middleware.ValidatorNotConsulted | internal/middleware/auth.go:21-35 | with a missing or malformed header the decision does not depend on the validator |
| Middleware.ValidatorSeesTokenText | internal/middleware/auth.go:33-45 | the validator is handed exactly the text after `Bearer `, and its verdict alone decides |
| Middleware.Serve | internal/middleware/auth.go:35-45 | a rejected request never reaches the next handler; an accepted one reaches it exactly once |
| Middleware.GetUserId | internal/middleware/auth.go:50-53 | yields `(id, true)` iff an int64 is stored under the user-id key, else `(0, false)` |
| Middleware.GetUserEmail | internal/middleware/auth.go:55-58 | yields `(email, true)` iff a string is stored under the email key, else `("", false)` |
| Middleware.AcceptedIdentity | internal/middleware/auth.go:41-58 | on acceptance the next handler runs once and reads back exactly the claims' user id and email, whatever the incoming context held |
| Middleware.RejectionIsTerminal | internal/middleware/auth.go:21-39 | a rejection is a 401 and the next handler is never invoked |
| Repository.SortedIds | internal/repository/user.go:88 | `ORDER BY id`: every id exactly once, strictly ascending |
| Repository.LeastInFront | internal/repository/user.go:88 | the least id followed by an ascending listing of the other ids lists the whole set ascending, each id once |
| Repository.FindEmail | internal/repository/user.go:51-53 | finds a row with the email, or reports that no row has it |
| Repository.Create | internal/repository/user.go:26-47 | a taken email is `ErrUserExists` with the table unchanged; a hashing error aborts before any insert; otherwise name, email and the digest (never the plaintext) go in under a fresh id, and nothing else changes |
| Repository.GetByEmail | internal/repository/user.go:49-59 | fails with `ErrUserNotFound` iff no row has the email; otherwise yields that row with its digest |
| Repository.VerifyPassword | internal/repository/user.go:61-73 | not-found propagates; a digest mismatch is "invalid password"; success iff the row exists and the password checks, with the password blanked |
| Repository.GetById | internal/repository/user.go:75-85 | succeeds iff the id is stored, yielding its name and email and no password |
| Repository.GetByIdAsWritten | internal/repository/user.go:75-85 | as written, a missing id surfaces as pgx's own no-rows error, whose text is not "user not found" |
| Repository.GetAll | internal/repository/user.go:87-104 | one entry per row, strictly ascending ids, each the stored profile without password |
| Repository.Update | internal/repository/user.go:106-119 | a missing id is `ErrUserNotFound`; success iff the id exists and no other row has the email; an email another row holds is the database's unique-violation error; only that row's name and email change, and its digest is kept |
| Repository.Delete | internal/repository/user.go:121-132 | succeeds iff the id exists, removing exactly that row; otherwise `ErrUserNotFound` with the table unchanged |
| Repository.WritesPreserveValid | internal/repository/user.go:26-132 | create, update and delete keep ids within the sequence and emails unique |
| Repository.CreateThenGetByEmail | internal/repository/user.go:26-59 | a created user is found again by email under the fresh id with the digest stored, and earlier rows are untouched |
| Repository.CreateTwice | internal/repository/user.go:26-36 | creating a second user with the same email fails with `ErrUserExists` and changes nothing |
| Repository.WritesThenGetById | internal/repository/user.go:75-132 | after an update, a read by id gives the new name and email; after a delete, the id is not found |
| Repository.UpdateIgnoresPassword | internal/repository/user.go:106-109 | the password in the user passed to `Update` plays no part |
| Repository.NoDigestInJson | internal/repository/user.go:61-104 | users returned by `VerifyPassword`, `GetById` and `GetAll` carry no password key in their JSON |
| Services.Register | internal/services/user.go:34-44 | no check of its own: a taken email is `ErrUserExists`, a hashing error passes through, it succeeds exactly when the email is free, the hash succeeds and ids remain, and success inserts the request's name, email and password digest under the next id, advancing the sequence |
| Services.Login | internal/services/user.go:46-72 | an unknown email and a wrong password give the same "invalid credentials"; only once the credentials match is a token issued, for the stored id and email; an issuer error passes through; success returns the stored id, name and email |
| Services.LoginIssuesOnlyAfterCheck | internal/services/user.go:49-60 | when the credentials fail, the issuer is not consulted |
| Services.ProjectAll | internal/services/user.go:82-89 | each user projected to its id, name and email, same length and order |
| Services.GetAllUsers | internal/services/user.go:74-92 | same length and order as the repository's list, each entry projected to id, name and email |
| Services.GetUserById | internal/services/user.go:94-107 | succeeds iff the id is stored, with the stored name and email; otherwise not-found |
| Services.UpdateUser | internal/services/user.go:109-119 | succeeds exactly when the id is stored and no other row holds the email; an email another row holds is the unique-violation error; a failure leaves the table unchanged; no stored password changes, the ids and the sequence are kept, every other row is untouched, and success sets the requested name and email |
| Services.DeleteUser | internal/services/user.go:121-124 | succeeds iff the id is stored, and then removes exactly that id; every remaining row and the sequence are unchanged |
| Handlers.SendError | internal/handlers/handler.go:158-165 | a failure envelope carrying the message, which is a well-formed response iff the status is 400 or above |
| Handlers.SendSuccess | internal/handlers/handler.go:167-174 | a success envelope carrying the data and no error, which is a well-formed response iff the status is below 400 and not 204 |
| Handlers.NotFoundOrInternal | internal/handlers/handler.go:98-103 | an error with text "user not found" is 404 "User not found"; any other error is 500 "Internal server error" |
| Handlers.RegisterHandler | internal/handlers/handler.go:30-52 | a bad body or validation failure is a 400 before the service; a taken email is 409; any other service error, whose text is not "user already exists", is a 500; 201 iff the service succeeds; only a 201 changes the table; the response is well-formed |
| Handlers.LoginHandler | internal/handlers/handler.go:54-78 | a bad body or validation failure is a 400; every service error is the same 401 "Invalid email or password"; 200 iff login succeeds, carrying token and user |
| Handlers.LoginHidesCause | internal/handlers/handler.go:66-70 | an unknown email and a wrong password get identical responses |
| Handlers.GetAllUsersHandler | internal/handlers/handler.go:80-87 | a 200 listing every stored user's id, name and email, in ascending id order |
| Handlers.GetUserByIdHandler | internal/handlers/handler.go:89-107 | an unparsable id is a 400 before the service; a missing user is a 404; 200 iff the id is stored, with its profile |
| Handlers.MissingIdAsWritten | internal/handlers/handler.go:96-103 | over the repository as written a missing id is answered 500; over the corrected one it is 404 |
| Handlers.FetchByPrintedId | internal/handlers/handler.go:89-107 | every stored user can be fetched through the decimal text of its id |
| Handlers.UpdateUserHandler | internal/handlers/handler.go:109-137 | the id is checked before the body, and both before validation and the service; a missing user is a 404; an email another user holds is a 500; 200 iff the update succeeds; only a 200 changes the table |
| Handlers.BadIdDecidesUpdate | internal/handlers/handler.go:109-114 | with an unparsable id, neither the body nor the table affects the response, and nothing changes |
| Handlers.DeleteUserHandler | internal/handlers/handler.go:139-156 | a bad id is a 400 and a missing user a 404; 204 with no body iff the id is stored, removing exactly that row and leaving every other row as it was |
| Scenarios.RegisterTwiceConflicts | internal/handlers/handler.go:30-52 | a first valid registration is a 201, and the same request again is a 409 that changes nothing |
| Scenarios.LoginAfterRegister | internal/services/user.go:46-72 | after registering, logging in with the same password is a 200 with the token for the new id and email and the new profile, for any hasher whose digests verify their own password |
| Scenarios.WrongPasswordAfterRegister | internal/services/user.go:46-72 | after registering, logging in with a different valid password is the 401 of an unknown email, for a hasher that tells passwords apart |
| Scenarios.IssuedTokenOpensProtectedRoutes | internal/middleware/auth.go:18-48 | a freshly issued token presented as `Bearer <token>` before it expires lets the request through once with the issued id and email in its context; from expiry on it is a 401 "Invalid or expired token" and the handler never runs |

## Left out

- bcrypt, HMAC-SHA-256, base64url and the JSON encoding of tokens are supplied functions. Their internals, the random salt and constant-time comparison are not modelled.
- The database schema is not part of this model. The model assumes a unique constraint on `email` and ids drawn from a sequence starting at 1. An update to an email another row holds therefore fails with the database's unique-violation error, which the handler answers with 500.
- Database and connection failures are not modelled: the `err != nil` branches after each query, exec and scan in `internal/repository/user.go`. The table has no I/O, so `GetAll` always succeeds and the 500 branch of the list handler is unreachable in the model.
- The race between the existence check and the insert in `Create` is not modelled, since the model is sequential. A concurrent duplicate would surface as the database's unique-violation error.
- Clock: `GenerateToken` reads `time.Now` twice. The model uses one instant, and times are whole seconds, matching the second truncation of `NumericDate`.
- Jwt.ValidateToken: the key function does not pin the signing algorithm, and golang-jwt v5 treats `exp` as optional. The model has one MAC and always-present claims, so a token signed with HS384/HS512 under the same secret, or one without `exp`, is outside the model.
- Jwt.NewJwtService: takes the secret as bytes. The conversion `[]byte(secretKey)` from a Go string (its UTF-8 encoding) is not modelled.
- Jwt.ParseWithClaims: golang-jwt v5 wraps its errors in longer messages (for example "token has invalid claims: token is expired"). The model keeps only the sentinel texts, which no code path compares. An unknown or mismatched `alg` (ErrTokenUnverifiable) is folded into `TokenMalformed`. `nbf` and `iat` checks are not modelled.
- Jwt.GenerateToken: its contract states only that signing succeeds. What the token carries is stated by `Jwt.IssuedTokenLifetime`.
- JSON decoding (unknown fields, key case-folding, trailing data) is reduced to "decodes or not". JSON encoding of responses is reduced to the `Envelope` record.
- An empty user list is an empty sequence. Go encodes the nil slice as `null`.
- The go-playground email rule and the text of the validator's error are parameters, not models.
- `http.Error` writes its body as `text/plain` with a trailing newline, and `sendError`/`sendSuccess` set `Content-Type`. Headers are not modelled.
- StrConv.ParseInt64: the syntax error and the range error are both `None`, since the handler treats them alike.
- Logging (`log.Printf` in the service) is not modelled.
- Not part of this model: the wiring and bootstrap files (`internal/router/router.go`, `cmd/server/main.go`, `internal/config/config.go`, `internal/db/postgres.go`); the secret generator `cmd/generate-secret/main.go`; and `internal/services/auth.go`, which only forwards to the JWT service and is modelled as that service.
- Also not part of this model: `internal/router/handler.go`, which refers to methods that do not exist, and the legacy `internal/user/repository.go`, which stores the plaintext password.
- The middleware is typed against an `internal/auth.JWTService` that is not part of this model. Its validator is a parameter, instantiated in `Scenarios` with `Jwt.ValidateToken`.
- Scenarios.WrongPasswordAfterRegister: assumes `Crypto.Discriminating`. bcrypt reads at most the first 72 bytes of a password, and no request field bounds its length, so a digest can verify a password that differs from the registered one only after its 72nd byte. The lemma does not hold for bcrypt on such passwords. Where bcrypt refuses a longer password at hashing time instead, `hash` fails and registration answers 500, which `Crypto.Hasher` covers.
- One `Crypto.Hasher` stands for two unseen packages. The repository hashes and checks with `auth.HashPassword` and `auth.CheckPasswordHash` (`internal/repository/user.go:38,67`). `Login` checks with `utils.CheckPasswordHash` (`internal/services/user.go:55`). Neither package is part of this model, and `Crypto.Complete` assumes that each accepts the other's digests.
- The repository spells the id field `Id` and the method `GetById`, while the model and service use `ID` and `GetByID`. The model uses one name.

## Notes

- Login maps every service error to 401, including an issuer failure.

## Findings

| source | as written | input that shows it | evidently intended | confidence | as-written member | corrected member |
|---|---|---|---|---|---|---|
| internal/repository/user.go:81-84 | a missing row is detected by `err == sql.ErrNoRows`, but pgx's `Scan` returns pgx's own `ErrNoRows`, so the error passes through unchanged and `GetUserByID` answers 500 | `GET /api/users/42` with a valid bearer token, no row 42 | `ErrUserNotFound`, answered 404 "User not found" | medium, not executed (depends on pgx returning its own no-rows value, as pgx v5 does) | Repository.GetByIdAsWritten, Handlers.MissingIdAsWritten | Repository.GetById, Handlers.GetUserByIdHandler |

The same comparison in `GetByEmail` (`internal/repository/user.go:55-57`) has no visible effect: `Login` turns every lookup error into "invalid credentials", and `Register` checks existence through `Create`'s own query.
