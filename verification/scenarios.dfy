/** The service's flows end to end: register through the handler, log in
    through the handler, and present the issued token to the bearer-token gate
    in front of a protected route. The token issuer and validator are the JWT
    service's, at the clock times given. */
module Scenarios {
  import opened Wrappers
  import opened GoTypes
  import opened Errors
  import opened Models
  import opened Http
  import opened Repository
  import opened Services
  import opened Handlers
  import Crypto
  import Jwt
  import Middleware

  /** `AuthService.GenerateToken` of the JWT service at clock time `now`. */
  function IssuerAt(svc: Jwt.JwtService, jose: Jwt.Jose, now: int): Issuer {
    (id: Int64, email: string) => Jwt.GenerateToken(svc, jose, now, id, email)
  }

  /** `ValidateToken` of the JWT service at clock time `now`. */
  function ValidatorAt(svc: Jwt.JwtService, jose: Jwt.Jose, now: int): string -> Result<Jwt.Claims, Error> {
    (token: string) => Jwt.ValidateToken(svc, jose, token, now)
  }

  /** A registration that passes validation and finds its email free, with a
      digest available and ids left, is a 201; the same request again is a 409
      and changes nothing. */
  lemma RegisterTwiceConflicts(env: Env, t: Table, req: RegisterRequest)
    requires RegisterViolations(req, env.isEmail) == []
    requires !EmailTaken(t, req.email) && env.hasher.hash(req.password).Success? && t.nextId <= MaxInt64
    ensures var (first, t1) := RegisterHandler(env, t, Some(req));
            && first == SendSuccess(Message(RegisteredMessage), StatusCreated)
            && RegisterHandler(env, t1, Some(req)) == (SendError(ConflictMessage, StatusConflict), t1)
  {
    var t1 := RegisterHandler(env, t, Some(req)).1;
    assert t1.rows[t.nextId].email == req.email;
  }

  /** After a registration, logging in with the same email and password is a
      200 carrying the token issued for the new id and email, and the new
      user's id, name and email. */
  lemma LoginAfterRegister(env: Env, t: Table, req: RegisterRequest)
    requires Valid(t) && Crypto.Complete(env.hasher)
    requires RegisterViolations(req, env.isEmail) == []
    requires !EmailTaken(t, req.email) && env.hasher.hash(req.password).Success? && t.nextId <= MaxInt64
    requires env.issue(t.nextId, req.email).Success?
    ensures var t1 := RegisterHandler(env, t, Some(req)).1;
            LoginHandler(env, t1, Some(LoginRequest(req.email, req.password)))
              == SendSuccess(TokenAndUser(env.issue(t.nextId, req.email).value, UserResponse(t.nextId, req.name, req.email)), StatusOK)
  {
    var u := User(0, req.name, req.email, req.password);
    CreateThenGetByEmail(t, u, env.hasher);
    var t1 := RegisterHandler(env, t, Some(req)).1;
    assert t1 == Create(t, u, env.hasher).table;
    var digest := env.hasher.hash(req.password).value;
    assert Stored(t1, req.email) == User(t.nextId, req.name, req.email, digest);
    assert env.hasher.check(req.password, digest);
  }

  /** After a registration, logging in with the same email and a different
      (valid) password is the 401 an unknown email gets, for a hasher that
      tells passwords apart. */
  lemma WrongPasswordAfterRegister(env: Env, t: Table, req: RegisterRequest, other: string)
    requires Valid(t) && Crypto.Discriminating(env.hasher)
    requires RegisterViolations(req, env.isEmail) == []
    requires !EmailTaken(t, req.email) && env.hasher.hash(req.password).Success? && t.nextId <= MaxInt64
    requires other != req.password && |other| >= 6
    ensures var t1 := RegisterHandler(env, t, Some(req)).1;
            IsError(LoginHandler(env, t1, Some(LoginRequest(req.email, other))), StatusUnauthorized, BadCredentialsMessage)
  {
    var u := User(0, req.name, req.email, req.password);
    CreateThenGetByEmail(t, u, env.hasher);
    var t1 := RegisterHandler(env, t, Some(req)).1;
    assert t1 == Create(t, u, env.hasher).table;
    var digest := env.hasher.hash(req.password).value;
    assert Stored(t1, req.email) == User(t.nextId, req.name, req.email, digest);
    assert !env.hasher.check(other, digest);
  }

  /** A token the JWT service issued at `issuedAt` for `id` and `email`,
      presented as `Bearer <token>` strictly before `issuedAt + expiry`, lets
      the request through exactly once, and the protected handler reads back
      that id and email; from `issuedAt + expiry` on, the request is refused
      with 401 "Invalid or expired token" and the handler never runs. */
  lemma IssuedTokenOpensProtectedRoutes(
    svc: Jwt.JwtService, jose: Jwt.Jose, issuedAt: int, now: int,
    id: Int64, email: string, next: Middleware.Context -> HttpResponse, ctx: Middleware.Context)
    requires Jwt.Faithful(jose)
    ensures var token := IssuerAt(svc, jose, issuedAt)(id, email).value;
            var (response, calls) := Middleware.Serve(ValidatorAt(svc, jose, now), next, Middleware.Request("Bearer " + token, ctx));
            && (now < issuedAt + svc.expiry ==>
                  |calls| == 1 && response == next(calls[0])
                  && Middleware.GetUserId(calls[0]) == (id, true)
                  && Middleware.GetUserEmail(calls[0]) == (email, true))
            && (now >= issuedAt + svc.expiry ==>
                  calls == [] && response == Middleware.Unauthorized(Middleware.BadTokenMessage))
  {
    var token := IssuerAt(svc, jose, issuedAt)(id, email).value;
    var claims := Jwt.IssueClaims(svc, issuedAt, id, email);
    assert token == jose.serialize(claims, jose.mac(svc.secretKey, claims));
    assert ' ' !in token;
    Jwt.IssuedTokenLifetime(svc.secretKey, svc.expiry, jose, issuedAt, now, id, email);
    var req := Middleware.Request("Bearer " + token, ctx);
    Middleware.ValidatorSeesTokenText(ValidatorAt(svc, jose, now), req, token);
    if now < issuedAt + svc.expiry {
      Middleware.AcceptedIdentity(ValidatorAt(svc, jose, now), next, req, token, claims);
    }
  }
}
