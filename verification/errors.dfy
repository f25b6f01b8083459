/** The error values that travel between the layers of the service. Go compares
    some of them by their text (`err.Error() == "user not found"`), so each one
    carries the text `Error()` returns for it. */
module Errors {

  datatype Error =
    | UserNotFound           // repository.ErrUserNotFound
    | UserExists             // repository.ErrUserExists
    | InvalidPassword        // the error VerifyPassword builds on a hash mismatch
    | InvalidCredentials     // the error Login builds for both unknown email and wrong password
    | TokenMalformed         // golang-jwt: the token string does not parse
    | TokenSignatureInvalid  // golang-jwt: the MAC does not verify under the key
    | TokenExpired           // golang-jwt: the `exp` claim is not in the future
    | InvalidToken           // utils.ErrInvalidToken
    | Opaque(text: string)   // an error of a collaborator outside the model (bcrypt, the database)

  /** The text the handlers compare against. For the repository's and the
      service's errors it is exactly what `err.Error()` yields; for the
      golang-jwt errors it is the text of the sentinel value, which the library
      wraps in a longer message. No code path compares those. */
  function Text(e: Error): string {
    match e
    case UserNotFound => "user not found"
    case UserExists => "user already exists"
    case InvalidPassword => "invalid password"
    case InvalidCredentials => "invalid credentials"
    case TokenMalformed => "token is malformed"
    case TokenSignatureInvalid => "token signature is invalid"
    case TokenExpired => "token is expired"
    case InvalidToken => "invalid token"
    case Opaque(text) => text
  }
}
