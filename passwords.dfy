/**
 * Werkzeug's `generate_password_hash` and `check_password_hash`.
 *
 * The key-derivation function (scrypt or pbkdf2 in Werkzeug) is a parameter,
 * so nothing below depends on how digests are computed; the random salt
 * Werkzeug draws for every new hash is a parameter too.
 */
module Passwords {

  /** A key-derivation function: a digest computed from a salt and a password. */
  type Kdf = (string, string) -> string

  /** A stored hash: the salt it was made with and the digest of the password. */
  datatype PasswordHash = PasswordHash(salt: string, digest: string)

  /** `check_password_hash(h, password)`: the password digests, under the stored salt, to the stored digest. */
  predicate CheckPasswordHash(kdf: Kdf, h: PasswordHash, password: string) {
    kdf(h.salt, password) == h.digest
  }

  /** `generate_password_hash(password)`, with `salt` the random salt drawn for it. */
  function GeneratePasswordHash(kdf: Kdf, salt: string, password: string): (h: PasswordHash)
    ensures h.salt == salt
    ensures CheckPasswordHash(kdf, h, password)
  {
    PasswordHash(salt, kdf(salt, password))
  }

  /** Under any one salt, different passwords give different digests. */
  ghost predicate CollisionFree(kdf: Kdf) {
    forall salt, a, b :: kdf(salt, a) == kdf(salt, b) ==> a == b
  }

  /**
   * With a key-derivation function free of collisions, the check accepts a
   * generated hash for exactly the password it was generated from.
   */
  lemma CheckAcceptsOnlyOriginal(kdf: Kdf, salt: string, password: string, attempt: string)
    requires CollisionFree(kdf)
    ensures CheckPasswordHash(kdf, GeneratePasswordHash(kdf, salt, password), attempt) <==> attempt == password
  {
  }
}
