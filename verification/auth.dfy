/**
 * The password hashing and token signing the handlers call into.
 * Their implementation is not part of this model; what the handlers rely on
 * is captured by concrete stand-ins with the properties proved below:
 * `Hash` is injective, `Verify(p, h)` holds exactly when `Hash(p) == h`,
 * `Decode(Encode(sub)) == Some(sub)`, and every token that is not the
 * encoding of some subject decodes to `None`.
 */
module Auth {
  import opened Wrappers

  type Token = string

  /** Marks a stored password digest. */
  const DigestMark: string := "#"

  /** Password digest: an injective, deterministic stand-in for a salted one-way hash. */
  function Hash(password: string): (h: string)
  {
    DigestMark + password
  }

  /** Password check against a stored digest. */
  predicate Verify(password: string, hash: string)
    ensures Verify(password, hash) <==> Hash(password) == hash
  {
    Hash(password) == hash
  }

  lemma HashInjective(p: string, q: string)
    requires Hash(p) == Hash(q)
    ensures p == q
  {
    assert p == Hash(p)[|DigestMark|..];
    assert q == Hash(q)[|DigestMark|..];
  }

  /** A digest verifies the password it was made from, and no other. */
  lemma VerifyHash(p: string, q: string)
    ensures Verify(p, Hash(q)) <==> p == q
  {
    if Verify(p, Hash(q)) {
      HashInjective(p, q);
    }
  }

  /** Marks a signed token carrying a `sub` claim. */
  const TokenMark: string := "sub="

  /** Issue a token whose subject claim is `sub`. */
  function Encode(sub: string): (t: Token)
  {
    TokenMark + sub
  }

  /** Check a token and return its subject claim, or `None` when it does not verify. */
  function Decode(t: Token): (r: Option<string>)
    ensures r.Some? ==> Encode(r.value) == t
    ensures r.None? ==> forall sub :: Encode(sub) != t
  {
    if |TokenMark| <= |t| && t[..|TokenMark|] == TokenMark then
      assert t == TokenMark + t[|TokenMark|..];
      Some(t[|TokenMark|..])
    else
      None
  }

  /** A token issued for `sub` decodes to `sub`. */
  lemma DecodeEncode(sub: string)
    ensures Decode(Encode(sub)) == Some(sub)
  {
  }
}
