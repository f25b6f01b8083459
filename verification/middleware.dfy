/** The bearer-token gate in front of the protected routes
    (`internal/middleware/auth.go`). The request context is a map from context
    keys to values; the token validator is a function the caller supplies. */
module Middleware {
  import opened Wrappers
  import opened GoTypes
  import opened Errors
  import opened GoStrings
  import opened Http
  import Jwt

  const MissingHeaderMessage: string := "Authorization header required"
  const BadFormatMessage: string := "Invalid authorization format"
  const BadTokenMessage: string := "Invalid or expired token"

  /** Context keys. The middleware's keys have their own Go type, so they never
      coincide with a key someone else stored, even one spelled the same. */
  datatype Key = UserIdKey | UserEmailKey | ForeignKey(name: string)

  /** Context values, tagged with their dynamic Go type. */
  datatype Value = Int64Value(i: Int64) | StringValue(s: string) | OtherValue(description: string)

  type Context = map<Key, Value>

  /** An incoming request: the `Authorization` header (`Header.Get` yields ""
      when it is absent) and the request context. */
  datatype Request = Request(authorization: string, ctx: Context)

  /** What the middleware decides: answer 401 itself, or hand the request to the
      next handler with the given context. */
  datatype Decision = Reject(response: HttpResponse) | Forward(ctx: Context)

  /** The body `http.Error` writes for a rejection. */
  function Unauthorized(message: string): HttpResponse {
    HttpResponse(StatusUnauthorized, Some(Envelope(false, None, message)))
  }

  /** The header checks that come before the validator: the header must be
      present, and `strings.Split(header, " ")` must give exactly two parts, the
      first exactly `Bearer`. On success the second part is the token. */
  function BearerToken(header: string): (r: Result<string, string>)
    ensures r.Failure? ==> r.error in {MissingHeaderMessage, BadFormatMessage}
    ensures r.Failure? && r.error == MissingHeaderMessage <==> header == ""
    ensures r.Success? ==> header == "Bearer " + r.value && ' ' !in r.value
  {
    if header == "" then Failure(MissingHeaderMessage)
    else
      var parts := Split(header, ' ');
      if |parts| != 2 || parts[0] != "Bearer" then Failure(BadFormatMessage)
      else
        SplitTwo(header, ' ', parts[0], parts[1]);
        Success(parts[1])
  }

  /** The header passes the format checks with token `t` exactly when it is
      `Bearer`, one space, then `t`, and `t` holds no space. */
  lemma BearerTokenIff(header: string, t: string)
    ensures BearerToken(header) == Success(t) <==> header == "Bearer " + t && ' ' !in t
  {
    if header == "Bearer " + t && ' ' !in t {
      assert "Bearer " + t == "Bearer" + [' '] + t;
      SplitTwo(header, ' ', "Bearer", t);
    }
  }

  /** A non-empty header that does not start with `Bearer ` or whose remainder
      holds a space fails the format check. */
  lemma NotBearerShaped(header: string)
    requires header != ""
    requires |header| < 7 || header[..7] != "Bearer " || ' ' in header[7..]
    ensures BearerToken(header) == Failure(BadFormatMessage)
  {
  }

  /** The header shapes that fail the format check: no token part, another
      scheme, a token with a space, and two spaces after the scheme. */
  lemma MalformedHeaders()
    ensures BearerToken("Bearer") == Failure(BadFormatMessage)
    ensures BearerToken("Foo abc") == Failure(BadFormatMessage)
    ensures BearerToken("Bearer a b") == Failure(BadFormatMessage)
    ensures BearerToken("Bearer  a") == Failure(BadFormatMessage)
  {
    NotBearerShaped("Bearer");
    assert "Foo abc"[..7][0] == 'F' != "Bearer "[0];
    NotBearerShaped("Foo abc");
    assert "Bearer a b"[7..][1] == ' ';
    NotBearerShaped("Bearer a b");
    assert "Bearer  a"[7..][0] == ' ';
    NotBearerShaped("Bearer  a");
  }

  /** `Bearer ` followed by nothing passes the format check with the empty
      token, which is then left to the validator. */
  lemma EmptyTokenHeader()
    ensures BearerToken("Bearer ") == Success("")
  {
  }

  /** Attach the identity of the claims, as `context.WithValue` does twice. */
  function WithIdentity(ctx: Context, claims: Jwt.Claims): Context {
    ctx[UserIdKey := Int64Value(claims.userId)][UserEmailKey := StringValue(claims.email)]
  }

  /** The middleware's decision for one request. The validator is consulted only
      once the header has passed the format checks; any validator error becomes
      the same 401, and every rejection is a 401. */
  function Authenticate(validate: string -> Result<Jwt.Claims, Error>, req: Request): (d: Decision)
    ensures d.Reject? ==> d.response.status == StatusUnauthorized
    ensures d.Reject? ==> d.response.body.Some? && !d.response.body.value.success
    ensures req.authorization == "" ==> d == Reject(Unauthorized(MissingHeaderMessage))
    ensures BearerToken(req.authorization).Failure? ==> d == Reject(Unauthorized(BearerToken(req.authorization).error))
    ensures BearerToken(req.authorization).Success? && validate(BearerToken(req.authorization).value).Failure?
      ==> d == Reject(Unauthorized(BadTokenMessage))
    ensures d.Forward? <==> BearerToken(req.authorization).Success? && validate(BearerToken(req.authorization).value).Success?
    ensures d.Forward? ==> d.ctx == WithIdentity(req.ctx, validate(BearerToken(req.authorization).value).value)
  {
    match BearerToken(req.authorization)
    case Failure(message) => Reject(Unauthorized(message))
    case Success(token) =>
      match validate(token)
      case Failure(_) => Reject(Unauthorized(BadTokenMessage))
      case Success(claims) => Forward(WithIdentity(req.ctx, claims))
  }

  /** A header that fails the format checks is rejected without consulting the
      validator: any two validators give the same decision. */
  lemma ValidatorNotConsulted(v1: string -> Result<Jwt.Claims, Error>, v2: string -> Result<Jwt.Claims, Error>, req: Request)
    requires BearerToken(req.authorization).Failure?
    ensures Authenticate(v1, req) == Authenticate(v2, req)
    ensures Authenticate(v1, req).Reject?
  {
  }

  /** The validator sees exactly the text after `Bearer `, and it is space-free. */
  lemma ValidatorSeesTokenText(v: string -> Result<Jwt.Claims, Error>, req: Request, t: string)
    requires req.authorization == "Bearer " + t && ' ' !in t
    ensures Authenticate(v, req) == match v(t)
      case Failure(_) => Reject(Unauthorized(BadTokenMessage))
      case Success(claims) => Forward(WithIdentity(req.ctx, claims))
  {
    BearerTokenIff(req.authorization, t);
  }

  /** Running the middleware in front of `next`: the response, and the contexts
      `next` was invoked with, in order. */
  function Serve(validate: string -> Result<Jwt.Claims, Error>, next: Context -> HttpResponse, req: Request): (r: (HttpResponse, seq<Context>))
    ensures Authenticate(validate, req).Reject? ==> r == (Authenticate(validate, req).response, [])
    ensures Authenticate(validate, req).Forward? ==> |r.1| == 1 && r.0 == next(r.1[0])
  {
    match Authenticate(validate, req)
    case Reject(response) => (response, [])
    case Forward(ctx) => (next(ctx), [ctx])
  }

  /** `GetUserID`: the value under the user-id key when it is an int64, else
      `(0, false)`. */
  function GetUserId(ctx: Context): (r: (Int64, bool))
    ensures r.1 <==> UserIdKey in ctx && ctx[UserIdKey].Int64Value?
    ensures r.1 ==> r.0 == ctx[UserIdKey].i
    ensures !r.1 ==> r.0 == 0
  {
    if UserIdKey in ctx && ctx[UserIdKey].Int64Value? then (ctx[UserIdKey].i, true) else (0, false)
  }

  /** `GetUserEmail`: the value under the email key when it is a string, else
      `("", false)`. */
  function GetUserEmail(ctx: Context): (r: (string, bool))
    ensures r.1 <==> UserEmailKey in ctx && ctx[UserEmailKey].StringValue?
    ensures r.1 ==> r.0 == ctx[UserEmailKey].s
    ensures !r.1 ==> r.0 == ""
  {
    if UserEmailKey in ctx && ctx[UserEmailKey].StringValue? then (ctx[UserEmailKey].s, true) else ("", false)
  }

  /** On acceptance the next handler runs exactly once, and the identity it
      reads back from its context is exactly the validated claims' user id and
      email, whatever the incoming context held. */
  lemma AcceptedIdentity(validate: string -> Result<Jwt.Claims, Error>, next: Context -> HttpResponse, req: Request, t: string, claims: Jwt.Claims)
    requires req.authorization == "Bearer " + t && ' ' !in t
    requires validate(t) == Success(claims)
    ensures var (response, calls) := Serve(validate, next, req);
            && |calls| == 1
            && response == next(calls[0])
            && GetUserId(calls[0]) == (claims.userId, true)
            && GetUserEmail(calls[0]) == (claims.email, true)
  {
    BearerTokenIff(req.authorization, t);
  }

  /** Every rejection is a 401 and the next handler is never invoked. */
  lemma RejectionIsTerminal(validate: string -> Result<Jwt.Claims, Error>, next: Context -> HttpResponse, req: Request)
    requires Authenticate(validate, req).Reject?
    ensures Serve(validate, next, req).1 == []
    ensures Serve(validate, next, req).0.status == StatusUnauthorized
  {
  }
}
