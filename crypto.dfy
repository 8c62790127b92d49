/** The cryptographic and text-encoding primitives the ledger calls but does
    not implement. Each is an uninterpreted function: the model knows only
    the length of a digest, never its value, so no property below depends on
    how SHA-256, RIPEMD-160 or Base58 actually compute. */
module Crypto {
  import opened Encoding

  type Digest = s: Bytes | |s| == 32 witness seq(32, _ => 0)
  type Ripemd = s: Bytes | |s| == 20 witness seq(20, _ => 0)

  /** crypto/sha256.Sum256 */
  const Sha256: Bytes -> Digest

  /** The RIPEMD-160 hasher of the crypto package */
  const Ripemd160: Bytes -> Ripemd

  /** Base58Encode and Base58Decode of the wallet code (Base58.go is not part of this model). */
  const Base58Encode: Bytes -> Bytes
  const Base58Decode: Bytes -> Bytes

  /** The property a Base58 codec is expected to have: decoding undoes encoding. */
  ghost predicate Base58RoundTrips()
  {
    forall x :: Base58Decode(Base58Encode(x)) == x
  }
}
