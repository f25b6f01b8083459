/** Token issuance and validation (`internal/utils/jwt.go`): HS256-signed JSON Web
    Tokens (RFC 7519) carrying the user's id and email. The MAC (HMAC-SHA-256,
    section 3.2 of RFC 7518) and the compact serialization (section 7.1 of RFC
    7515) are supplied as functions; the rule the golang-jwt library applies when
    parsing is written out in `ParseWithClaims`. Times are whole seconds. */
module Jwt {
  import opened Wrappers
  import opened GoTypes
  import opened Errors

  /** The claims the service signs: `user_id`, `email`, and the registered
      claims `sub`, `iat` and `exp`. */
  datatype Claims = Claims(userId: Int64, email: string, subject: string, issuedAt: int, expiresAt: int)

  /** The process-wide signing secret and token lifetime. */
  datatype JwtService = JwtService(secretKey: seq<Byte>, expiry: int)

  /** The JOSE primitives: `mac(key, claims)` is the HS256 signature of the
      encoded claims under `key`; `serialize` and `deserialize` convert between a
      (claims, signature) pair and the `header.payload.signature` string. */
  datatype Jose = Jose(
    mac: (seq<Byte>, Claims) -> seq<Byte>,
    serialize: (Claims, seq<Byte>) -> string,
    deserialize: string -> Option<(Claims, seq<Byte>)>)

  /** What the model assumes of the serialization: it is read back exactly, and
      it never contains a space (base64url segments joined by dots). */
  ghost predicate Faithful(jose: Jose) {
    && (forall c, tag :: jose.deserialize(jose.serialize(c, tag)) == Some((c, tag)))
    && (forall c, tag :: ' ' !in jose.serialize(c, tag))
  }

  /** `NewJWTService`: the secret string's bytes and the expiry, kept as given. */
  function NewJwtService(secretKey: seq<Byte>, expiry: int): (svc: JwtService)
    ensures svc.secretKey == secretKey && svc.expiry == expiry
  {
    JwtService(secretKey, expiry)
  }

  /** The claims `GenerateToken` builds for a user at time `now`. */
  function IssueClaims(svc: JwtService, now: int, userId: Int64, email: string): (c: Claims)
    ensures c.userId == userId && c.email == email && c.subject == c.email
    ensures c.issuedAt == now && c.expiresAt - c.issuedAt == svc.expiry
  {
    Claims(userId, email, email, now, now + svc.expiry)
  }

  /** `GenerateToken`: sign the issued claims with HS256 under the service's
      secret. Signing an HMAC with a byte-slice key does not fail. */
  function GenerateToken(svc: JwtService, jose: Jose, now: int, userId: Int64, email: string): (r: Result<string, Error>)
    ensures r.Success?
  {
    var claims := IssueClaims(svc, now, userId, email);
    Success(jose.serialize(claims, jose.mac(svc.secretKey, claims)))
  }

  /** The parsed token the library hands back with a nil error. */
  datatype Parsed = Parsed(claims: Claims, valid: bool)

  /** golang-jwt v5's `ParseWithClaims` with a key function that always returns
      `key`: a string that does not parse is malformed; then the signature is
      checked; then the claims, where a token is expired once `now >= exp`.
      A nil error always comes with `Valid` set. */
  function ParseWithClaims(jose: Jose, key: seq<Byte>, token: string, now: int): (r: Result<Parsed, Error>)
    ensures r.Success? ==> r.value.valid
    ensures r.Failure? ==> r.error in {TokenMalformed, TokenSignatureInvalid, TokenExpired}
  {
    match jose.deserialize(token)
    case None => Failure(TokenMalformed)
    case Some((claims, tag)) =>
      if jose.mac(key, claims) != tag then Failure(TokenSignatureInvalid)
      else if now >= claims.expiresAt then Failure(TokenExpired)
      else Success(Parsed(claims, true))
  }

  /** The validity rule of section 4.1.4 of RFC 7519 for an HS256 token: it
      parses, its MAC verifies under `key`, and `now` is strictly before its
      expiration time. Nothing else decides validity. */
  predicate Authentic(jose: Jose, key: seq<Byte>, token: string, now: int) {
    match jose.deserialize(token)
    case None => false
    case Some((claims, tag)) => jose.mac(key, claims) == tag && now < claims.expiresAt
  }

  /** `ValidateToken`: a token is accepted exactly when it parses, its signature
      verifies under the service's secret, and `now` is strictly before its
      `exp`; the claims returned are the ones the token carries. The
      `ErrInvalidToken` branch cannot be reached. */
  function ValidateToken(svc: JwtService, jose: Jose, token: string, now: int): (r: Result<Claims, Error>)
    ensures r.Success? <==> Authentic(jose, svc.secretKey, token, now)
    ensures r.Success? ==> r.value == jose.deserialize(token).value.0
    ensures r.Failure? ==> r.error != InvalidToken
  {
    match ParseWithClaims(jose, svc.secretKey, token, now)
    case Failure(e) => Failure(e)
    case Success(parsed) =>
      if parsed.valid then Success(parsed.claims) else Failure(InvalidToken)
  }

  /** A token issued at `issuedAt` by the service built from `secret` and
      `expiry` validates, under that service, to the claims it was issued with
      at every time strictly before `issuedAt + expiry`, and is expired from
      then on. */
  lemma IssuedTokenLifetime(secret: seq<Byte>, expiry: int, jose: Jose, issuedAt: int, now: int, userId: Int64, email: string)
    requires Faithful(jose)
    ensures var svc := NewJwtService(secret, expiry);
            var token := GenerateToken(svc, jose, issuedAt, userId, email).value;
            && (now < issuedAt + expiry ==> ValidateToken(svc, jose, token, now) == Success(IssueClaims(svc, issuedAt, userId, email)))
            && (now >= issuedAt + expiry ==> ValidateToken(svc, jose, token, now) == Failure(TokenExpired))
  {
  }

  /** Every token is verified under the one secret of the service: two services
      with the same secret reach the same verdict on every token at every time,
      whatever their configured lifetimes. */
  lemma VerdictDependsOnlyOnSecret(svc1: JwtService, svc2: JwtService, jose: Jose, token: string, now: int)
    requires svc1.secretKey == svc2.secretKey
    ensures ValidateToken(svc1, jose, token, now) == ValidateToken(svc2, jose, token, now)
  {
  }

  /** A token whose signature was made under another key, and does not match the
      MAC under the service's secret, is rejected as badly signed. */
  lemma ForeignSignatureRejected(svc: JwtService, jose: Jose, otherKey: seq<Byte>, claims: Claims, now: int)
    requires Faithful(jose)
    requires jose.mac(otherKey, claims) != jose.mac(svc.secretKey, claims)
    ensures ValidateToken(svc, jose, jose.serialize(claims, jose.mac(otherKey, claims)), now) == Failure(TokenSignatureInvalid)
  {
  }
}
