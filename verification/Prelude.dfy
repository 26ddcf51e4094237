/** Types every other module shares: bytes, byte strings, and the two outcome datatypes. */
module Prelude {

  newtype byte = x: int | 0 <= x < 256

  /** A Rust `Vec<u8>`, `&[u8]` or `String`: a string is the sequence of its UTF-8 bytes. */
  type Bytes = seq<byte>

  datatype Option<+T> = None | Some(value: T)

  datatype Result<+T, +E> = Ok(value: T) | Err(error: E)

  /** The bytes of a 32-byte draw, a 48-byte key and a 96-byte signature. */
  const NONCE_LEN: nat := 32
  const SIGNING_KEY_LEN: nat := 48
  const SIGNATURE_LEN: nat := 96

  type Nonce = b: Bytes | |b| == NONCE_LEN witness seq(NONCE_LEN, _ => 0)
  type Key = b: Bytes | |b| == SIGNING_KEY_LEN witness seq(SIGNING_KEY_LEN, _ => 0)
  type Signature = b: Bytes | |b| == SIGNATURE_LEN witness seq(SIGNATURE_LEN, _ => 0)
}
