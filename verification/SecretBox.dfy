/**
  * Stored secrets and the key pair a process reads them with. A ciphertext is the key, the
  * nonce and the plaintext that went into it: it opens under that key and no other.
  */
module SecretBox {
  import opened Options

  type Key = nat
  type Secret = nat

  datatype Stored =
    | Plain(secret: Secret)
    | Sealed(key: Key, nonce: nat, secret: Secret)
    | Malformed(bytes: nat)

  datatype Keys = Keys(current: Key, previous: Option<Key>)

  function Seal(keys: Keys, nonce: nat, secret: Secret): Stored {
    Sealed(keys.current, nonce, secret)
  }

  function Open(keys: Keys, stored: Stored): Option<Secret> {
    match stored
    case Plain(secret) => Some(secret)
    case Sealed(key, _, secret) => if key == keys.current || keys.previous == Some(key) then Some(secret) else None
    case Malformed(_) => None
  }

  datatype Rewrapping = UpToDate | Rewrapped(stored: Stored) | Unreadable

  predicate UnderCurrent(keys: Keys, stored: Stored) {
    stored.Sealed? && stored.key == keys.current
  }

  function Rewrap(keys: Keys, nonce: nat, stored: Stored): Rewrapping {
    if UnderCurrent(keys, stored) then UpToDate
    else match Open(keys, stored)
      case None => Unreadable
      case Some(secret) => Rewrapped(Seal(keys, nonce, secret))
  }

  /** Rewrapping moves a readable secret under the current key and changes nothing else. */
  lemma RewrapKeepsSecret(keys: Keys, nonce: nat, stored: Stored)
    ensures Rewrap(keys, nonce, stored).Unreadable? <==> Open(keys, stored).None?
    ensures Rewrap(keys, nonce, stored).Rewrapped? ==>
      var after := Rewrap(keys, nonce, stored).stored;
      UnderCurrent(keys, after) && Open(keys, after) == Open(keys, stored)
  {}
}
