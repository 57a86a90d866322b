/**
 * Program-derived addresses (utils/pda.ts): the seed list handed to the
 * library's derivation. The derivation itself (SHA-256 and the off-curve
 * bump search) is a parameter.
 */
module Pda {
  import opened Bytes

  /** An extra seed: a public key or a raw buffer. */
  datatype Seed = KeySeed(key: PublicKey) | BufferSeed(bytes: seq<byte>)

  /** `PublicKey.findProgramAddressSync(seeds, programId)`: the address and its bump. */
  type Derivation = (seq<seq<byte>>, PublicKey) -> (PublicKey, byte)

  /** A key seed becomes its 32-byte buffer; a buffer seed passes through. */
  function SeedBytes(seed: Seed): (r: seq<byte>)
    ensures seed.KeySeed? ==> |r| == 32
  {
    match seed
    case KeySeed(key) => key
    case BufferSeed(bytes) => bytes
  }

  /** `[seedPrefix, ...extraSeeds.map(toBuffer)]`. */
  function SeedList(prefix: seq<byte>, extras: seq<Seed>): (r: seq<seq<byte>>)
    ensures |r| == 1 + |extras| && r[0] == prefix
    ensures forall i :: 0 <= i < |extras| ==> r[i + 1] == SeedBytes(extras[i])
  {
    if extras == [] then [prefix]
    else SeedList(prefix, extras[..|extras| - 1]) + [SeedBytes(extras[|extras| - 1])]
  }

  /** `findProgramAddress(seedPrefix, programId, ...extraSeeds)`. */
  function FindProgramAddress(derive: Derivation, prefix: seq<byte>, programId: PublicKey, extras: seq<Seed>): (PublicKey, byte)
  {
    derive(SeedList(prefix, extras), programId)
  }

  /**
   * Only the seed bytes matter: two argument lists whose seeds have the same
   * bytes (a key, or the same 32 bytes as a buffer) give the same address and bump.
   */
  lemma {:induction false} SameSeedBytesSameAddress(derive: Derivation, prefix: seq<byte>, programId: PublicKey, a: seq<Seed>, b: seq<Seed>)
    requires |a| == |b|
    requires forall i :: 0 <= i < |a| ==> SeedBytes(a[i]) == SeedBytes(b[i])
    ensures FindProgramAddress(derive, prefix, programId, a) == FindProgramAddress(derive, prefix, programId, b)
  {
    var sa, sb := SeedList(prefix, a), SeedList(prefix, b);
    assert |sa| == |sb|;
    forall i | 0 <= i < |sa| ensures sa[i] == sb[i] {
      if i > 0 { assert sa[i] == SeedBytes(a[i - 1]); }
    }
    assert sa == sb;
  }
}
