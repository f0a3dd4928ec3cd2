/**
 The padding of FIPS 180-4 section 5.1.1, in octets: the bit "1" and the first seven zero bits are
 0x80, the length field is eight octets.
 */
module Padding {
  import opened Bits
  import opened Bytes

  const BLOCK := 64

  type Block = b: seq<byte> | |b| == BLOCK witness Zeros(BLOCK)

  predicate IsWhole(n: nat) { n % BLOCK == 0 }

  /** The number of zero octets between 0x80 and the length field. */
  function ZeroCount(length: nat): nat { (119 - length % BLOCK) % BLOCK }

  lemma PaddedLength(length: nat)
    ensures IsWhole(length + 1 + ZeroCount(length) + 8)
  {
  }

  function Pad(message: seq<byte>): (p: seq<byte>)
    ensures IsWhole(|p|)
  {
    PaddedLength(|message|);
    message + [0x80] + Zeros(ZeroCount(|message|)) + ToBigEndian(8 * |message|, 8)
  }

  /** Section 5.1.1: after the one bit and k zero bits, 64 bits are missing from a whole block. */
  predicate LeavesRoomForLength(bits: nat, k: nat) { (bits + 1 + k) % 512 == 448 }

  /** The zero bits written, seven of them in 0x80, are the smallest number that fits. */
  lemma PaddingIsMinimal(length: nat)
    ensures LeavesRoomForLength(8 * length, 7 + 8 * ZeroCount(length))
    ensures forall k: nat :: LeavesRoomForLength(8 * length, k) ==> k >= 7 + 8 * ZeroCount(length)
  {
    var z := 7 + 8 * ZeroCount(length);
    PaddedLength(length);
    var q := (length + ZeroCount(length) + 9) / BLOCK - 1;
    assert 8 * length + 1 + z == 512 * q + 448;
    hide ZeroCount;
    forall k: nat | k <= z
      ensures LeavesRoomForLength(8 * length, k) <==> k == z
    {
      var r := 448 - (z - k);
      assert 8 * length + 1 + k == 512 * q + r;
      if r >= 0 {
        ModUnique(8 * length + 1 + k, 512, q, r);
      } else {
        ModUnique(8 * length + 1 + k, 512, q - 1, r + 512);
      }
    }
  }

  /** Distinct messages have distinct padded streams, as long as their bit length fits in 64 bits. */
  lemma PadInjective(a: seq<byte>, b: seq<byte>)
    requires 8 * |a| < WORD64 && 8 * |b| < WORD64
    requires Pad(a) == Pad(b)
    ensures a == b
  {
    hide ToBigEndian;
    var p := Pad(a);
    assert p[|p| - 8..] == ToBigEndian(8 * |a|, 8);
    assert p[|p| - 8..] == ToBigEndian(8 * |b|, 8);
    assert Pow256(8) == WORD64;
    ToBigEndianInjective(8 * |a|, 8 * |b|, 8);
    assert p[..|a|] == a && p[..|b|] == b;
  }
}
