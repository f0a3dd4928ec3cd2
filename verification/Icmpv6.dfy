/**
 ICMPv6 checksums: the definition of RFC 4443 section 2.3 over the pseudo-header of RFC 8200
 section 8.1, and the two-part verification xbridge performs on a little-endian host.
 */
module Icmpv6 {
  import opened Bytes
  import opened Bits
  import opened InternetChecksum

  const NEXT_HEADER := 58
  const NEIGHBOR_SOLICIT := 135
  const NEIGHBOR_ADVERT := 136

  type Address = a: seq<byte> | |a| == 16 witness Zeros(16)

  /** fe80::1, `linkLocalDefaultGatewayIPv6`. */
  const GATEWAY: Address := [0xfe, 0x80, 0, 0, 0, 0, 0, 0, 0, 0, 0, 0, 0, 0, 0, 1]

  // The host's integers in memory.

  function StoreLe32(v: nat): (s: seq<byte>)
    ensures |s| == 4
  {
    [v % 0x100, v / 0x100 % 0x100, v / 0x1_0000 % 0x100, v / 0x100_0000 % 0x100]
  }

  function Htons(v: nat): (r: nat)
    ensures r < U16
  {
    Swap16(v % U16)
  }

  function Htonl(v: nat): nat
  {
    0x100_0000 * (v % 0x100) + 0x1_0000 * (v / 0x100 % 0x100) +
    0x100 * (v / 0x1_0000 % 0x100) + v / 0x100_0000 % 0x100
  }

  /**
   The octets of the `ph` structure of the code: `htons` of the length in a 32-bit field, `htonl`
   of the next header. Only 16 bits of the length are kept, and they come first.
   */
  function CodePseudoHeader(src: Address, dst: Address, length: nat): (s: seq<byte>)
    ensures |s| == 40
  {
    src + dst + [length / 0x100 % 0x100, length % 0x100, 0, 0, 0, 0, 0, NEXT_HEADER]
  }

  /** The structure as the code fills it, native integers stored natively. */
  function NativePseudoHeader(src: Address, dst: Address, length: nat): seq<byte>
  {
    src + dst + StoreLe32(Htons(length)) + StoreLe32(Htonl(NEXT_HEADER))
  }

  lemma NativeIsCode(src: Address, dst: Address, length: nat)
    ensures NativePseudoHeader(src, dst, length) == CodePseudoHeader(src, dst, length)
  {
    StoredHtons(length);
    StoredNextHeader();
  }

  lemma StoredHtons(length: nat)
    ensures StoreLe32(Htons(length)) == [length / 0x100 % 0x100, length % 0x100, 0, 0]
  {
    var w := length % U16;
    var hi, lo := w / 0x100, w % 0x100;
    assert Htons(length) == hi + 0x100 * lo;
    hide Htons;
    assert length == (length / U16) * U16 + w;
    assert length / 0x100 % 0x100 == hi && length % 0x100 == lo;
  }

  lemma StoredNextHeader()
    ensures StoreLe32(Htonl(NEXT_HEADER)) == [0, 0, 0, NEXT_HEADER]
  {
  }

  function RfcPseudoHeader(src: Address, dst: Address, length: nat): (s: seq<byte>)
    ensures |s| == 40
  {
    src + dst + ToBigEndian(length, 4) + [0, 0, 0, NEXT_HEADER]
  }

  /** The message with its checksum field set to f, in network order. */
  function WithChecksum(icmp: seq<byte>, f: nat): (r: seq<byte>)
    requires |icmp| >= 4 && f < U16
    ensures |r| == |icmp|
  {
    icmp[2 := f / 0x100][3 := f % 0x100]
  }

  function ChecksumField(icmp: seq<byte>): (f: nat)
    requires |icmp| >= 4
    ensures f < U16
  {
    Word(icmp[3], icmp[2])
  }

  /** RFC 4443 section 2.3. */
  function RfcChecksum(src: Address, dst: Address, icmp: seq<byte>): (c: nat)
    requires |icmp| >= 4
    ensures c < U16
  {
    var covered := RfcPseudoHeader(src, dst, |icmp|) + WithChecksum(icmp, 0);
    NetSumBound(covered);
    ONES - OnesComplementSum(NetWords(covered))
  }

  lemma NetSumBound(s: seq<byte>)
    ensures OnesComplementSum(NetWords(s)) < U16
  {
    NetSum(s);
    OnesComplementSumIsFold(NetWords(s));
  }

  /** The last check of `isNeighborSolicitation`: the checksum of the two partial checksums. */
  function VerificationSum(src: Address, dst: Address, icmp: seq<byte>): nat
  {
    Checksum16(StoreLe(Checksum16(CodePseudoHeader(src, dst, |icmp|))) + StoreLe(Checksum16(icmp)))
  }

  lemma FourWords(s: seq<byte>)
    requires |s| == 8
    ensures Words(s) == [Word(s[0], s[1]), Word(s[2], s[3]), Word(s[4], s[5]), Word(s[6], s[7])]
  {
    assert Words(s[6..]) == [Word(s[6], s[7])];
    assert s[4..][2..] == s[6..] && s[2..][2..] == s[4..];
    assert Words(s[4..]) == [Word(s[4], s[5])] + Words(s[6..]);
    assert Words(s[2..]) == [Word(s[2], s[3])] + Words(s[4..]);
  }

  lemma SwapFirst(x: nat, y: nat, rest: seq<nat>)
    ensures multiset([x, y] + rest) == multiset([y, x] + rest)
  {
    assert multiset([x, y]) == multiset([y, x]);
  }

  lemma MovedWords(x: byte, y: byte, z: byte)
    ensures multiset(Words([y, z, 0, 0, 0, 0, 0, x])) == multiset(Words([0, 0, y, z, 0, 0, 0, x]))
  {
    hide Words, Word;
    FourWords([y, z, 0, 0, 0, 0, 0, x]);
    FourWords([0, 0, y, z, 0, 0, 0, x]);
    var o, w, rest := Word(0, 0), Word(y, z), [Word(0, 0), Word(0, x)];
    assert [w, o, Word(0, 0), Word(0, x)] == [w, o] + rest;
    assert [o, w, Word(0, 0), Word(0, x)] == [o, w] + rest;
    SwapFirst(o, w, rest);
  }

  /** For every payload below 64 KiB the code's pseudo-header holds the words of the RFC's. */
  lemma PseudoHeaderLayouts(src: Address, dst: Address, length: nat)
    requires length < U16
    ensures multiset(Words(CodePseudoHeader(src, dst, length)))
         == multiset(Words(RfcPseudoHeader(src, dst, length)))
  {
    FourBytes(length);
    hide Words, Word, ToBigEndian;
    var a, x, y: byte, z: byte := src + dst, NEXT_HEADER, length / 0x100, length % 0x100;
    var c: seq<byte>, r: seq<byte> := [y, z, 0, 0, 0, 0, 0, x], [0, 0, y, z, 0, 0, 0, x];
    assert CodePseudoHeader(src, dst, length) == a + c;
    assert RfcPseudoHeader(src, dst, length) == a + r;
    WordsAppend(a, c);
    WordsAppend(a, r);
    MovedWords(x, y, z);
  }

  lemma VerificationIsFold(src: Address, dst: Address, icmp: seq<byte>)
    requires |icmp| <= LIMIT
    ensures VerificationSum(src, dst, icmp)
         == Fold(WordSum(CodePseudoHeader(src, dst, |icmp|)) + WordSum(icmp))
  {
    hide Fold, WordSum, StoreLe, Checksum16, CodePseudoHeader;
    var ph := CodePseudoHeader(src, dst, |icmp|);
    var x, y := Checksum16(ph), Checksum16(icmp);
    NoOverflow(ph);
    NoOverflow(icmp);
    StoreLeSum(x);
    StoreLeSum(y);
    WordSumAppend(StoreLe(x), StoreLe(y));
    NoOverflow(StoreLe(x) + StoreLe(y));
    FoldSum(WordSum(ph), WordSum(icmp));
  }

  lemma SumWithChecksum(icmp: seq<byte>, f: nat)
    requires |icmp| >= 4 && f < U16
    ensures WordSum(WithChecksum(icmp, f)) == WordSum(WithChecksum(icmp, 0)) + Swap16(f)
  {
    hide WordSum;
    var hi, lo := f / 0x100, f % 0x100;
    assert WithChecksum(icmp, f) == icmp[..2] + ([hi, lo] + icmp[4..]);
    assert WithChecksum(icmp, 0) == icmp[..2] + ([0, 0] + icmp[4..]);
    WordSumAppend(icmp[..2], [hi, lo] + icmp[4..]);
    WordSumAppend(icmp[..2], [0, 0] + icmp[4..]);
    WordSumAppend([hi, lo], icmp[4..]);
    WordSumAppend([0, 0], icmp[4..]);
    TwoBytes(hi, lo);
    TwoBytes(0, 0);
  }

  /** The native sum of everything the checksum covers, the field itself taken as zero. */
  function CoveredSum(src: Address, dst: Address, icmp: seq<byte>): nat
    requires |icmp| >= 4
  {
    WordSum(CodePseudoHeader(src, dst, |icmp|)) + WordSum(WithChecksum(icmp, 0))
  }

  lemma SwapComplement(w: nat)
    requires w < U16
    ensures ONES - Swap16(w) == Swap16(ONES - w)
  {
    var lo, hi := w % 0x100, w / 0x100;
    assert (ONES - w) % 0x100 == 0xff - lo && (ONES - w) / 0x100 == 0xff - hi;
  }

  /** The RFC's network-order checksum, from the native sum: what `sendNeighborAdvert` relies on. */
  lemma RfcChecksumIsNative(src: Address, dst: Address, icmp: seq<byte>)
    requires 4 <= |icmp| < U16
    ensures CoveredSum(src, dst, icmp) > 0
    ensures RfcChecksum(src, dst, icmp) == Swap16(ONES - Fold(CoveredSum(src, dst, icmp)))
  {
    hide Fold, WordSum, Checksum16, CodePseudoHeader, RfcPseudoHeader, NetWords, OnesComplementSum, Swap16, Words;
    var code, rfc := CodePseudoHeader(src, dst, |icmp|), RfcPseudoHeader(src, dst, |icmp|);
    var zeroed := WithChecksum(icmp, 0);
    PseudoHeaderLayouts(src, dst, |icmp|);
    SumPermutation(Words(code), Words(rfc));
    WordSumIsSum(code);
    WordSumIsSum(rfc);
    WordSumAppend(rfc, zeroed);
    NoOverflow(rfc + zeroed);
    ByteOrderIndependence(rfc + zeroed);
    SwapComplement(Fold(CoveredSum(src, dst, icmp)));
    PseudoHeaderNotZero(src, dst, |icmp|);
  }

  lemma WordSumIsSum(s: seq<byte>)
    ensures WordSum(s) == Sum(Words(s))
  {
  }

  lemma PseudoHeaderNotZero(src: Address, dst: Address, length: nat)
    ensures WordSum(CodePseudoHeader(src, dst, length)) > 0
  {
    hide WordSum;
    assert CodePseudoHeader(src, dst, length)[39] == NEXT_HEADER;
    WordSumZeroIff(CodePseudoHeader(src, dst, length));
  }

  /**
   What the verification accepts, exactly: the RFC's checksum, or 0xffff where the RFC computes 0
   (the two zeros of one's-complement arithmetic).
   */
  lemma VerifiedIff(src: Address, dst: Address, icmp: seq<byte>)
    requires 4 <= |icmp| < U16
    ensures VerificationSum(src, dst, icmp) == ONES <==>
            var c := RfcChecksum(src, dst, icmp);
            ChecksumField(icmp) == c || (ChecksumField(icmp) == ONES && c == 0)
  {
    hide Fold, WordSum, Swap16, RfcChecksum, VerificationSum, WithChecksum;
    var f, c := ChecksumField(icmp), RfcChecksum(src, dst, icmp);
    var covered := CoveredSum(src, dst, icmp);
    assert WithChecksum(icmp, f) == icmp by { FieldRoundTrip(icmp); }
    SumWithChecksum(icmp, f);
    VerificationIsFold(src, dst, icmp);
    assert VerificationSum(src, dst, icmp) == Fold(covered + Swap16(f));
    RfcChecksumIsNative(src, dst, icmp);
    FoldSum(covered, Swap16(f));
    FoldResidue(covered);
    var x, y := Fold(covered), Swap16(f);
    SwapResidue(f);
    SwapResidue(ONES - x);
    SumIsOnes(x, y);
    assert Swap16(c) == ONES - x;
    SwapResidue(0);
    SwapOnes();
  }

  lemma SwapOnes()
    ensures Swap16(ONES) == ONES && Swap16(0) == 0
  {
  }

  lemma SumIsOnes(x: nat, y: nat)
    requires 0 < x < U16 && y < U16
    ensures Fold(x + y) == ONES <==> y == ONES - x || (y == ONES && x == ONES)
  {
  }

  lemma FieldRoundTrip(icmp: seq<byte>)
    requires |icmp| >= 4
    ensures WithChecksum(icmp, ChecksumField(icmp)) == icmp
  {
  }
}
