/**
 The foreign primitives (ML-DSA-65, SHA-256) as function values with only the laws the
 gateway relies on.
 */
module Crypto {
  import opened Wrappers
  import opened Gf256
  import opened RecoveryCodes

  type Bytes = seq<byte>

  const SEED_LENGTH: nat := 32

  /** `verify` is false also for keys and signatures that do not decode. */
  datatype Scheme = Scheme(
    publicKey: Bytes -> Bytes,
    sign: (Bytes, Bytes) -> Bytes,
    verify: (Bytes, Bytes, Bytes) -> bool,
    digest: Bytes -> Bytes
  ) {
    ghost predicate Lawful() {
      && (forall seed, message {:trigger sign(seed, message)} ::
            |seed| == SEED_LENGTH ==> verify(publicKey(seed), message, sign(seed, message)))
      && (forall data {:trigger digest(data)} :: |digest(data)| == 32)
    }

    /** Signing fails on a seed of the wrong length. */
    function TrySign(seed: Bytes, message: Bytes): Option<Bytes> {
      if |seed| == SEED_LENGTH then Some(sign(seed, message)) else None
    }

    /** The first 16 bytes of the key's digest, in hex. */
    function Fingerprint(key: Bytes): (f: string)
      requires |digest(key)| == 32
      ensures |f| == 32
    {
      HexEncode(digest(key)[..16])
    }
  }
}
