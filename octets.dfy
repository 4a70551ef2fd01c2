/** Byte strings, as Python's `bytes`. */
module Octets {

  type Byte = b: int | 0 <= b < 256

  type Bytes = seq<Byte>

  /** A 32-byte string: an HMAC-SHA256 digest, or the entropy `os.urandom(32)`
      behind a freshly generated Fernet key. */
  type Bytes32 = s: Bytes | |s| == 32 witness seq(32, _ => 0)
}
