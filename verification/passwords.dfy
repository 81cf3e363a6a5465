/** `hashPassword` and `validatePassword` of src/userManager.ts. The digest
    (hex-encoded SHA-256 in the program) is the parameter `hash`: nothing is
    assumed about it beyond being a function, in particular not that it is
    injective. */
module Passwords {

  /** `hashPassword(password)`: the stored digest of a password. */
  function HashPassword(hash: string -> string, password: string): string {
    hash(password)
  }

  /** `validatePassword(input, stored)`: the input's digest equals the
      stored one. */
  predicate ValidatePassword(hash: string -> string, input: string, stored: string) {
    HashPassword(hash, input) == stored
  }

  /** A password always validates against its own digest, whatever the
      digest function. */
  lemma ValidatesOwnDigest(hash: string -> string, password: string)
    ensures ValidatePassword(hash, password, HashPassword(hash, password))
  {
  }

  /** Validation only recomputes and compares digests, so a different
      password is accepted whenever the digest function collides on the
      two: with a constant digest, `b` validates against the digest of `a`. */
  lemma CollidingDigestsValidate()
    ensures ValidatePassword(_ => "", "b", HashPassword(_ => "", "a"))
  {
  }
}
