/** Wallet addresses (Wallet.go): the public-key hash and the Base58Check
    payload `version ‖ HashPubKey(pub) ‖ checksum`. */
module Wallets {
  import opened Encoding
  import opened Crypto

  const Version: byte := 0x00
  const AddressChecksumLen: nat := 4

  /** A wallet as far as addresses are concerned: its public key, the bytes
      of the curve point's X followed by Y. The ECDSA private key and its
      generation are not modelled. */
  datatype Wallet = Wallet(PublicKey: Bytes)

  /** RIPEMD-160 of the SHA-256 of the public key. */
  function HashPubKey(pubKey: Bytes): (h: Bytes)
    ensures |h| == 20
  {
    var publicSha256 := Sha256(pubKey);
    Ripemd160(publicSha256)
  }

  /** The first four bytes of SHA-256 applied twice. */
  function Checksum(payload: Bytes): (c: Bytes)
    ensures |c| == AddressChecksumLen
    ensures c == Sha256(Sha256(payload))[..AddressChecksumLen]
  {
    var firstSha := Sha256(payload);
    var secondSha := Sha256(firstSha);
    secondSha[..AddressChecksumLen]
  }

  /** The bytes getAddress hands to Base58Encode. */
  function AddressPayload(w: Wallet): (p: Bytes)
    ensures |p| == 1 + 20 + AddressChecksumLen
    ensures p[0] == Version
    ensures p[1..|p| - AddressChecksumLen] == HashPubKey(w.PublicKey)
    ensures p[|p| - AddressChecksumLen..] == Checksum(p[..|p| - AddressChecksumLen])
  {
    var pubKeyHash := HashPubKey(w.PublicKey);
    var versionedPayload := [Version] + pubKeyHash;
    var checksum := Checksum(versionedPayload);
    assert (versionedPayload + checksum)[..21] == versionedPayload;
    versionedPayload + checksum
  }

  /** getAddress: the Base58 text of the payload. Where Base58 decoding
      undoes encoding, the address decodes back to the 25-byte payload. */
  function GetAddress(w: Wallet): (a: Bytes)
    ensures Base58RoundTrips() ==> Base58Decode(a) == AddressPayload(w)
    ensures Base58RoundTrips() ==> |Base58Decode(a)| == 1 + 20 + AddressChecksumLen
  {
    Base58Encode(AddressPayload(w))
  }
}
