/**
 * The two cryptographic libraries, seen only through their interfaces. bcrypt's salted
 * hash is a function of the plaintext and of the salt it draws at random (the salt is a
 * parameter of every operation that hashes); its compare is a second function. jsonwebtoken's
 * sign and verify are likewise a pair of functions over claims and token strings.
 */
module Oracles {
  import opened Wrappers

  type Digest = string
  type Token = string

  /** The identity a token carries: `{ id, email }` of a user row. */
  datatype Claim = Claim(id: int, email: string)

  /** `bcrypt.hash(plaintext, SALT_ROUNDS)` with its random salt, and `bcrypt.compare`. */
  datatype PasswordHasher = PasswordHasher(hash: (string, nat) -> Digest, compare: (string, Digest) -> bool)

  /** `jwt.sign(claim, JWT_SECRET, …)` and `jwt.verify(token, JWT_SECRET, …)`; None is an error. */
  datatype TokenSigner = TokenSigner(sign: Claim -> Token, verify: Token -> Option<Claim>)

  /** What bcrypt guarantees: a digest of p compares equal to p, whatever the salt. */
  ghost predicate HashRoundTrip(h: PasswordHasher) {
    forall p, salt :: h.compare(p, h.hash(p, salt))
  }

  /** What jsonwebtoken guarantees for an unexpired token under the same secret: verifying a
      signed claim gives the claim back; a token is a non-empty string with no spaces. */
  ghost predicate SignRoundTrip(j: TokenSigner) {
    forall c :: j.verify(j.sign(c)) == Some(c) && j.sign(c) != [] && ' ' !in j.sign(c)
  }
}
