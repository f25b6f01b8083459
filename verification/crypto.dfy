/** The password hasher (bcrypt) as the repository and the service see it. Its
    internals are out of reach, so it is a pair of functions supplied by the
    caller, and what the rest of the model needs from it is stated as
    predicates over that pair. */
module Crypto {
  import opened Wrappers
  import opened Errors

  /** `hash` is `HashPassword` (the random salt is folded into the function; a
      failure stands for any error bcrypt reports, such as a password longer
      than 72 bytes or a failing entropy source) and `check` is
      `CheckPasswordHash(plaintext, digest)`. */
  datatype Hasher = Hasher(hash: string -> Result<string, Error>, check: (string, string) -> bool)

  /** A digest made from a password verifies against that password. */
  ghost predicate Complete(h: Hasher) {
    forall p, d :: h.hash(p) == Success(d) ==> h.check(p, d)
  }

  /** A digest made from one password verifies against no other password.
      bcrypt reads at most the first 72 bytes of a password, so an
      implementation that truncates instead of refusing longer passwords does
      not have this property. */
  ghost predicate Discriminating(h: Hasher) {
    forall p, q, d :: h.hash(q) == Success(d) && p != q ==> !h.check(p, d)
  }
}
