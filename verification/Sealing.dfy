/** Sealed values and the keyring that opens them (executioncontext/credential).

    The cryptography is symbolic: a well-formed sealed value is the key it names, the context it is
    bound to, its plaintext and the randomness of the seal, and it opens exactly when the keyring
    holds the key and the context is the one it was sealed under. */
module Sealing {
  import opened Wrappers

  /** Credential bytes. The empty string is the nil credential. */
  type Plain = string
  type KeyId = nat

  datatype Context = AccountCredential(row: string) | ClientSecret(row: string)

  datatype Sealed =
    | Sealed(key: KeyId, context: Context, plain: Plain, nonce: nat)
    | Malformed(bytes: string)

  datatype Keyring = Keyring(keys: set<KeyId>, current: KeyId) {
    /** A keyring holds the key it seals to. */
    predicate Valid() { current in keys }

    function Open(s: Sealed, c: Context): (r: Option<Plain>)
      ensures r.Some? ==> s.Sealed? && s.plain == r.value && s.context == c
    {
      if c.row != "" && s.Sealed? && s.key in keys && s.context == c then Some(s.plain) else None
    }

    /** Seals to the current key. nonce is the randomness of this call. */
    function Seal(p: Plain, c: Context, nonce: nat): (s: Sealed)
      ensures Valid() && c.row != "" ==> Open(s, c) == Some(p)
      ensures !OnOldKey(s)
    {
      Sealed(current, c, p, nonce)
    }

    predicate OnOldKey(s: Sealed) {
      s.Malformed? || s.key != current
    }

    /** None for what does not open here, otherwise s moved to the current key, or s itself when it is there. */
    function Reseal(s: Sealed, c: Context, nonce: nat): (r: Option<Sealed>)
      ensures r.Some? ==> Open(s, c).Some? && !OnOldKey(r.value)
      ensures r.Some? && Valid() ==> Open(r.value, c) == Open(s, c)
    {
      match Open(s, c)
      case None => None
      case Some(p) => Some(if OnOldKey(s) then Seal(p, c, nonce) else s)
    }
  }
}
