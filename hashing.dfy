/** The password hashing primitive, kept abstract: `hash` stands for
    `generate_password_hash` with the random salt it draws made an explicit
    argument, `verify(h, p)` for `check_password_hash(h, p)`. Nothing is
    assumed about either beyond what a lemma states in its requires. */
module Hashing {

  /** The encoded digest the `password` column holds. It is a type of its
      own, so a plaintext password can never be stored in its place. */
  datatype PasswordHash = PasswordHash(encoded: string)

  datatype Hasher = Hasher(
    hash: (string, string) -> PasswordHash,
    verify: (PasswordHash, string) -> bool)

  /** A hash made from a password verifies against that password, whatever
      the salt. */
  ghost predicate Sound(h: Hasher)
  {
    forall password, salt :: h.verify(h.hash(password, salt), password)
  }

  /** A hash made from a password verifies against no other password. */
  ghost predicate CollisionFree(h: Hasher)
  {
    forall password, salt, other :: h.verify(h.hash(password, salt), other) ==> other == password
  }
}
