/** The password hasher the resolver calls (`argon2.hash`, `argon2.verify`),
    modelled abstractly.

    The memory-hard key derivation itself is a foreign library and is not
    modelled: it is represented by an arbitrary key-derivation function
    `kdf` from a salt and a password to a digest. A stored hash is
    self-describing: it carries the salt it was made with, so `Verify` can
    recompute the digest from the stored salt and the candidate password.
    The random salt that argon2 draws on each call is a parameter. */
module Argon2 {

  type Salt = seq<bv8>
  type Digest = seq<bv8>

  /** A key-derivation function: what the memory-hard algorithm computes. */
  type Kdf = (Salt, string) -> Digest

  /** An encoded hash as argon2 stores it: the salt and the derived digest. */
  datatype PasswordHash = PasswordHash(salt: Salt, digest: Digest)

  /** `argon2.verify(hash, password)`: recompute the digest with the stored
      salt and compare. Under the library assumption a stored hash verifies
      at most one password. */
  predicate Verify(kdf: Kdf, h: PasswordHash, password: string)
    ensures Verify(kdf, h, password) && CollisionResistant(kdf) ==>
              forall q :: kdf(h.salt, q) == h.digest ==> q == password
  {
    kdf(h.salt, password) == h.digest
  }

  /** `argon2.hash(password)`, with the random salt made explicit. */
  function HashWith(kdf: Kdf, salt: Salt, password: string): (h: PasswordHash)
    ensures h.salt == salt
    ensures Verify(kdf, h, password)
  {
    PasswordHash(salt, kdf(salt, password))
  }

  /** The assumption made of the library, not proved of it: under one salt,
      two different passwords never derive the same digest. */
  ghost predicate CollisionResistant(kdf: Kdf)
  {
    forall salt, p1, p2 :: kdf(salt, p1) == kdf(salt, p2) ==> p1 == p2
  }

  /** Under the library assumption, a hash accepts exactly the password it
      was made from. */
  lemma VerifyAcceptsOnlyHashedPassword(kdf: Kdf, salt: Salt, p: string, q: string)
    requires CollisionResistant(kdf)
    ensures Verify(kdf, HashWith(kdf, salt, p), q) <==> p == q
  {
  }

  /** Salting: hashing the same password under two different salts gives two
      different stored hashes. This holds because a stored hash embeds its
      salt; that argon2 draws a fresh salt on each call is not modelled, the
      salt being a parameter. */
  lemma SaltedHashesDiffer(kdf: Kdf, s1: Salt, s2: Salt, p: string)
    requires s1 != s2
    ensures HashWith(kdf, s1, p) != HashWith(kdf, s2, p)
  {
  }

  /** The hasher as the resolver sees it: a fixed key-derivation function,
      and a count of how often `Hash` has been called, so that callers can
      promise when they do not hash. */
  class Hasher {
    const kdf: Kdf
    ghost var calls: nat

    constructor (kdf: Kdf)
      ensures this.kdf == kdf && calls == 0
    {
      this.kdf := kdf;
      calls := 0;
    }

    /** `await argon2.hash(password)`; `salt` is the randomness it draws. */
    method Hash(password: string, salt: Salt) returns (h: PasswordHash)
      modifies this`calls
      ensures h == HashWith(kdf, salt, password)
      ensures calls == old(calls) + 1
    {
      h := PasswordHash(salt, kdf(salt, password));
      calls := calls + 1;
    }
  }
}
