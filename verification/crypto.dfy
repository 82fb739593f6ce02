/**
  The cryptographic primitives the credential code calls into, known only by
  the sizes of what they return: SHA-256 and SHA-512 digests and the ed25519
  key derived from a 32-byte seed. Nothing in the model depends on what they
  compute, so they are passed in as functions.
 */
module Crypto {
  import opened BigEndian

  type Sha256Digest = d: seq<Byte> | |d| == 32 witness Zeros(32)

  type Sha512Digest = d: seq<Byte> | |d| == 64 witness Zeros(64)

  /** `ed25519.SeedSize` bytes. */
  type Ed25519Seed = s: seq<Byte> | |s| == 32 witness Zeros(32)

  /** `ed25519.PrivateKeySize` bytes. */
  type Ed25519PrivateKey = k: seq<Byte> | |k| == 64 witness Zeros(64)

  /** `sha256.Sum256`, `sha512.Sum512` and `ed25519.NewKeyFromSeed`. */
  datatype Primitives = Primitives(
    sha256: seq<Byte> -> Sha256Digest,
    sha512: seq<Byte> -> Sha512Digest,
    newKeyFromSeed: Ed25519Seed -> Ed25519PrivateKey)
}
