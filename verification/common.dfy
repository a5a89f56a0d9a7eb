/** Shared vocabulary of the account switcher: optional values, byte strings,
    e-mail keys and the SSH key pair stored for each account. */
module Common {

  /** A value that may be absent: an unset git config field, a missing key
      file, a row that a SELECT did not find. */
  datatype Option<+T> = None | Some(value: T)

  /** One octet of a key file or of a BLOB column. */
  newtype byte = x: int | 0 <= x < 256

  type Bytes = seq<byte>

  /** Accounts are keyed by their e-mail address (the PRIMARY KEY of both
      tables). */
  type Email = string

  /** The contents of `id_ed25519` and `id_ed25519.pub`, as stored in the
      `private_key` / `public_key` BLOB columns of `ssh_keys`. */
  datatype KeyPair = KeyPair(privateKey: Bytes, publicKey: Bytes)
}
