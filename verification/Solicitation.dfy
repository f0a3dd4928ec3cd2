/**
 `isNeighborSolicitation`: which packets the bridge answers itself instead of forwarding.
 A packet starts at its IPv6 header and is as long as the capture says.
 */
module Solicitation {
  import opened Bits
  import opened Bytes
  import opened InternetChecksum
  import opened Icmpv6

  const IP6_HEADER := 40
  const NS_MESSAGE := 24

  function Source(packet: seq<byte>): Address
    requires |packet| >= IP6_HEADER
  {
    packet[8..24]
  }

  function Destination(packet: seq<byte>): Address
    requires |packet| >= IP6_HEADER
  {
    packet[24..40]
  }

  function Message(packet: seq<byte>): seq<byte>
    requires |packet| >= IP6_HEADER
  {
    packet[IP6_HEADER..]
  }

  /** The payload length field, read as the RFC means it. */
  function PayloadLength(packet: seq<byte>): nat
    requires |packet| >= IP6_HEADER
  {
    Word(packet[5], packet[4])
  }

  /** An ICMPv6 neighbor solicitation for the gateway, checksum and payload length aside. */
  predicate AsksForGateway(packet: seq<byte>)
  {
    |packet| >= IP6_HEADER + NS_MESSAGE &&
    packet[0] / 16 == 6 &&
    packet[6] == NEXT_HEADER &&
    packet[40] == NEIGHBOR_SOLICIT && packet[41] == 0 &&
    packet[48..64] == GATEWAY
  }

  /** What the code accepts. It compares the payload length in the wrong byte order. */
  predicate Accepted(packet: seq<byte>)
  {
    AsksForGateway(packet) &&
    Word(packet[4], packet[5]) >= NS_MESSAGE &&
    VerificationSum(Source(packet), Destination(packet), Message(packet)) == ONES
  }

  /** The first four octets as the host reads them. */
  function Flow(packet: seq<byte>): nat
    requires |packet| >= IP6_HEADER
  {
    var p: seq<nat> := packet[..4];
    p[0] + 0x100 * p[1] + 0x1_0000 * p[2] + 0x100_0000 * p[3]
  }

  lemma VersionMask(packet: seq<byte>)
    requires |packet| >= IP6_HEADER
    ensures And(Htonl(0xf000_0000), Flow(packet)) == Htonl(0x6000_0000) <==> packet[0] / 16 == 6
  {
    assert Htonl(0xf000_0000) == 0xf0 && Htonl(0x6000_0000) == 0x60;
    hide And, Htonl;
    AndHighNibble(Flow(packet));
    FlowStartsWithVersion(packet);
  }

  lemma FlowStartsWithVersion(packet: seq<byte>)
    requires |packet| >= IP6_HEADER
    ensures (Flow(packet) / 16) % 16 == packet[0] / 16
  {
    var p: seq<nat> := packet[..4];
    assert Flow(packet) / 16 == p[0] / 16 + 16 * (p[1] + 0x100 * p[2] + 0x1_0000 * p[3]);
  }

  method IsNeighborSolicitation(data: seq<byte>) returns (r: bool)
    ensures r == Accepted(data)
    ensures r ==>
              && |data| >= 64 && data[0] / 16 == 6 && data[6] == 58 && data[40] == 135 && data[41] == 0
              && data[48..64] == [0xfe, 0x80, 0, 0, 0, 0, 0, 0, 0, 0, 0, 0, 0, 0, 0, 1]
  {
    hide And, VerificationSum, Checksum16, StoreLe, StoreLe32, Htons, Htonl, Flow;
    if IP6_HEADER + NS_MESSAGE > |data| { return false; }
    if NS_MESSAGE > Word(data[4], data[5]) { return false; }
    if NEXT_HEADER != data[6] { return false; }
    if NEIGHBOR_SOLICIT != data[40] { return false; }
    if 0 != data[41] { return false; }
    VersionMask(data);
    if Htonl(0x6000_0000) != And(Htonl(0xf000_0000), Flow(data)) { return false; }
    if data[48..64] != GATEWAY { return false; }
    var src: Address, dst: Address := data[8..24], data[24..40];
    var phSum := Checksum(src + dst + StoreLe32(Htons(|data| - IP6_HEADER)) + StoreLe32(Htonl(NEXT_HEADER)));
    var icmpSum := Checksum(data[IP6_HEADER..]);
    var both := Checksum(StoreLe(phSum) + StoreLe(icmpSum));
    VerificationSteps(src, dst, data[IP6_HEADER..]);
    return ONES == both;
  }

  lemma VerificationSteps(src: Address, dst: Address, icmp: seq<byte>)
    ensures VerificationSum(src, dst, icmp) ==
      Checksum16(StoreLe(Checksum16(src + dst + StoreLe32(Htons(|icmp|)) + StoreLe32(Htonl(NEXT_HEADER)))) +
                 StoreLe(Checksum16(icmp)))
  {
    hide Checksum16, StoreLe, StoreLe32, Htons, Htonl, CodePseudoHeader;
    NativeIsCode(src, dst, |icmp|);
  }

  /** A solicitation for the gateway that is right in every field a host must set. */
  ghost predicate WellFormed(packet: seq<byte>)
  {
    AsksForGateway(packet) &&
    PayloadLength(packet) == |packet| - IP6_HEADER &&
    ChecksumField(Message(packet)) == RfcChecksum(Source(packet), Destination(packet), Message(packet))
  }

  /**
   Completeness, exactly: of the well-formed solicitations the code misses only those whose
   payload length has a zero low octet and a high octet below 24.
   */
  lemma WellFormedAcceptedIff(packet: seq<byte>)
    requires WellFormed(packet)
    ensures Accepted(packet) <==>
            PayloadLength(packet) % 0x100 != 0 || PayloadLength(packet) / 0x100 >= NS_MESSAGE
  {
    hide VerificationSum, RfcChecksum;
    VerifiedIff(Source(packet), Destination(packet), Message(packet));
  }

  /** In particular none is missed up to 255 octets, which covers what hosts send. */
  lemma ShortSolicitationsAccepted(packet: seq<byte>)
    requires WellFormed(packet) && PayloadLength(packet) <= 255
    ensures Accepted(packet)
  {
    hide VerificationSum, RfcChecksum;
    WellFormedAcceptedIff(packet);
  }

  /** The checksum field holds the RFC's checksum, or 0xffff where that is 0. */
  predicate CarriesChecksum(src: Address, dst: Address, icmp: seq<byte>)
    requires |icmp| >= 4
  {
    ChecksumField(icmp) == RfcChecksum(src, dst, icmp) ||
    (ChecksumField(icmp) == ONES && RfcChecksum(src, dst, icmp) == 0)
  }

  /** What is accepted, in the RFC's terms. */
  lemma AcceptedIff(packet: seq<byte>)
    requires |packet| < IP6_HEADER + U16
    ensures Accepted(packet) <==>
            && AsksForGateway(packet)
            && Word(packet[4], packet[5]) >= NS_MESSAGE
            && CarriesChecksum(Source(packet), Destination(packet), Message(packet))
  {
    hide VerificationSum, RfcChecksum;
    if AsksForGateway(packet) {
      VerifiedIff(Source(packet), Destination(packet), Message(packet));
    }
  }

  /** What is accepted, octet by octet. The sum is over addresses, message, length and protocol number. */
  lemma AcceptedInOctets(packet: seq<byte>)
    requires |packet| <= 40 + 131074
    ensures Accepted(packet) <==>
            && |packet| >= 64
            && packet[0] / 16 == 6 && packet[6] == 58
            && packet[40] == 135 && packet[41] == 0
            && packet[48..64] == [0xfe, 0x80, 0, 0, 0, 0, 0, 0, 0, 0, 0, 0, 0, 0, 0, 1]
            && packet[4] as nat + 0x100 * packet[5] as nat >= 24
            && (BigEndianSum(packet[8..]) + (|packet| - 40) % 0x1_0000 + 58) % 0xffff == 0
  {
    hide VerificationSum, BigEndianSum, PseudoTail;
    if AsksForGateway(packet) {
      VerifiedInOctets(packet);
    }
  }

  lemma VerifiedInOctets(packet: seq<byte>)
    requires IP6_HEADER <= |packet| <= IP6_HEADER + LIMIT
    ensures VerificationSum(Source(packet), Destination(packet), Message(packet)) == ONES <==>
            (BigEndianSum(packet[8..]) + (|packet| - IP6_HEADER) % U16 + NEXT_HEADER) % ONES == 0
  {
    hide Fold, WordSum, BigEndianSum, VerificationSum, PseudoTail;
    var length := |packet| - IP6_HEADER;
    VerificationIsPacketSum(packet);
    TailNotZero(length);
    FoldResidue(WordSum(packet[8..]) + WordSum(PseudoTail(length)));
    ResidueInEitherOrder(packet[8..], PseudoTail(length));
    TailInOctets(length);
  }

  lemma TailInOctets(length: nat)
    ensures BigEndianSum(PseudoTail(length)) == length % U16 + NEXT_HEADER
  {
    var t := PseudoTail(length);
    assert BigEndianSum(t[6..]) == NEXT_HEADER + BigEndianSum([]);
    assert t[2..][2..] == t[4..] && t[4..][2..] == t[6..];
    assert BigEndianSum(t[4..]) == BigEndianSum(t[6..]);
    assert BigEndianSum(t[2..]) == BigEndianSum(t[4..]);
  }

  /** A solicitation with the given addresses and options, its other fields as a host sets them. */
  function Solicit(src: Address, dst: Address, options: seq<byte>): seq<byte>
    requires NS_MESSAGE + |options| < U16
  {
    var message := [NEIGHBOR_SOLICIT, 0, 0, 0, 0, 0, 0, 0] + GATEWAY + options;
    [0x60, 0, 0, 0, |message| / 0x100, |message| % 0x100, NEXT_HEADER, 255] + src + dst +
    WithChecksum(message, RfcChecksum(src, dst, message))
  }

  lemma SolicitIsWellFormed(src: Address, dst: Address, options: seq<byte>)
    requires NS_MESSAGE + |options| < U16
    ensures WellFormed(Solicit(src, dst, options))
    ensures PayloadLength(Solicit(src, dst, options)) == NS_MESSAGE + |options|
  {
    hide OnesComplementSum, NetWords, RfcPseudoHeader;
    var message := [NEIGHBOR_SOLICIT, 0, 0, 0, 0, 0, 0, 0] + GATEWAY + options;
    var c := RfcChecksum(src, dst, message);
    var p := Solicit(src, dst, options);
    assert Message(p) == WithChecksum(message, c);
    assert Source(p) == src && Destination(p) == dst;
    assert WithChecksum(WithChecksum(message, c), 0) == WithChecksum(message, 0);
    assert p[48..64] == Message(p)[8..24] == message[8..24] == GATEWAY;
  }

  lemma OptionsOfSolicit(src: Address, dst: Address, options: seq<byte>)
    requires NS_MESSAGE + |options| < U16
    ensures Solicit(src, dst, options)[64..] == options
  {
    hide RfcChecksum;
  }

  /** A nonce option (RFC 3971 section 5.3.2). */
  function NonceOption(nonce: seq<byte>): seq<byte>
    requires (2 + |nonce|) % 8 == 0 && 0 < (2 + |nonce|) / 8 < 0x100
  {
    [14, (2 + |nonce|) / 8] + nonce
  }

  /** The length an option gives itself, in its second octet, in units of eight octets. */
  function OptionLength(s: seq<byte>): nat
    requires |s| >= 2
  {
    var units: nat := s[1];
    8 * units
  }

  /** RFC 4861 section 4.6: options of non-zero length that fill the rest of the message. */
  predicate ValidOptions(s: seq<byte>)
  {
    s == [] || (|s| >= 2 && 0 < OptionLength(s) <= |s| && ValidOptions(s[OptionLength(s)..]))
  }

  lemma OneOption(option: seq<byte>)
    requires |option| >= 2 && |option| == OptionLength(option) > 0
    ensures ValidOptions(option)
  {
    assert option[OptionLength(option)..] == [];
  }

  /** The failing family is not empty: with a nonce of 230 octets the payload has 256, and is missed. */
  lemma LongSolicitationMissed(src: Address, dst: Address, nonce: seq<byte>)
    requires |nonce| == 230
    ensures var p := Solicit(src, dst, NonceOption(nonce));
            WellFormed(p) && ValidOptions(p[64..]) && PayloadLength(p) == 256 && !Accepted(p)
  {
    hide Solicit, WellFormed, Accepted, ValidOptions;
    OptionsOfSolicit(src, dst, NonceOption(nonce));
    OneOption(NonceOption(nonce));
    SolicitIsWellFormed(src, dst, NonceOption(nonce));
    WellFormedAcceptedIff(Solicit(src, dst, NonceOption(nonce)));
  }

  // Corruption on the way.

  /** The words of the pseudo-header that do not come from the packet. */
  function PseudoTail(length: nat): (s: seq<byte>)
    ensures |s| == 8
  {
    [length / 0x100 % 0x100, length % 0x100, 0, 0, 0, 0, 0, NEXT_HEADER]
  }

  lemma VerificationIsPacketSum(packet: seq<byte>)
    requires IP6_HEADER <= |packet| <= IP6_HEADER + LIMIT
    ensures VerificationSum(Source(packet), Destination(packet), Message(packet))
         == Fold(WordSum(packet[8..]) + WordSum(PseudoTail(|packet| - IP6_HEADER)))
  {
    hide Fold, WordSum, VerificationSum;
    var tail := PseudoTail(|packet| - IP6_HEADER);
    VerificationIsFold(Source(packet), Destination(packet), Message(packet));
    assert CodePseudoHeader(Source(packet), Destination(packet), |packet| - IP6_HEADER) == packet[8..40] + tail;
    WordSumAppend(packet[8..40], tail);
    WordSumAppend(packet[8..40], packet[40..]);
    assert packet[8..] == packet[8..40] + packet[40..];
  }

  /** The packets agree except, perhaps, in the aligned 16-bit word at i. */
  ghost predicate SameExceptWord(p: seq<byte>, q: seq<byte>, i: nat)
  {
    |p| == |q| && i % 2 == 0 && 8 <= i < |p| &&
    p[..i] == q[..i] && p[WordEnd(p, i)..] == q[WordEnd(p, i)..]
  }

  function WordEnd(p: seq<byte>, i: nat): (j: nat)
    requires i < |p|
    ensures i < j <= |p|
  {
    if i + 1 < |p| then i + 2 else i + 1
  }

  lemma SumAround(p: seq<byte>, i: nat)
    requires i % 2 == 0 && 8 <= i < |p|
    ensures var j := WordEnd(p, i);
            WordSum(p[8..]) == WordSum(p[8..i]) + WordSum(p[i..j]) + WordSum(p[j..])
  {
    hide WordSum;
    var j := WordEnd(p, i);
    assert p[8..] == p[8..i] + p[i..];
    assert p[i..] == p[i..j] + p[j..];
    WordSumAppend(p[8..i], p[i..]);
    if j == i + 2 {
      WordSumAppend(p[i..j], p[j..]);
    } else {
      Empty();
      assert p[j..] == [] && p[i..] == p[i..j];
    }
  }

  /**
   A corrupted 16-bit word of the addresses or of the ICMPv6 message goes unnoticed exactly when
   0x0000 became 0xffff or the other way round, in a word that is checked by its sum alone.
   */
  lemma WordCorruption(p: seq<byte>, q: seq<byte>, i: nat)
    requires SameExceptWord(p, q, i) && |p| <= IP6_HEADER + LIMIT
    requires Accepted(p)
    ensures var u, v := WordSum(p[i..WordEnd(p, i)]), WordSum(q[i..WordEnd(p, i)]);
            Accepted(q) <==> AsksForGateway(q) && (u == v || (u == 0 && v == ONES) || (u == ONES && v == 0))
  {
    LongEnough(p, q, i);
    hide *;
    var j := WordEnd(p, i);
    var u, v := WordSum(p[i..j]), WordSum(q[i..j]);
    var rest := RestOfSum(p, q, i);
    AcceptedBySum(p, rest + u);
    AcceptedBySum(q, rest + v);
    ShortSum(p[i..j]);
    ShortSum(q[i..j]);
    SameResidue(rest, u, v);
  }

  lemma LongEnough(p: seq<byte>, q: seq<byte>, i: nat)
    requires SameExceptWord(p, q, i) && Accepted(p)
    ensures |p| == |q| && |p| >= IP6_HEADER && |p| >= 64 && i < |p| && i % 2 == 0
    ensures p[4] == q[4] && p[5] == q[5]
    ensures 1 <= |p[i..WordEnd(p, i)]| == |q[i..WordEnd(p, i)]| <= 2
  {
    hide VerificationSum;
    assert p[4] == p[..i][4] && p[5] == p[..i][5];
  }

  /** What decides once the verification sum is known. */
  lemma AcceptedBySum(p: seq<byte>, sum: nat)
    requires |p| >= IP6_HEADER && sum > 0
    requires VerificationSum(Source(p), Destination(p), Message(p)) == Fold(sum)
    ensures Accepted(p) <==> AsksForGateway(p) && Word(p[4], p[5]) >= NS_MESSAGE && sum % ONES == 0
  {
    hide AsksForGateway, VerificationSum, Word, Source, Destination, Message;
    FoldResidue(sum);
  }

  /** Both verification sums are that of the changed word and the same positive rest. */
  lemma RestOfSum(p: seq<byte>, q: seq<byte>, i: nat) returns (rest: nat)
    requires SameExceptWord(p, q, i) && IP6_HEADER <= |p| <= IP6_HEADER + LIMIT
    ensures rest > 0
    ensures VerificationSum(Source(p), Destination(p), Message(p)) == Fold(rest + WordSum(p[i..WordEnd(p, i)]))
    ensures VerificationSum(Source(q), Destination(q), Message(q)) == Fold(rest + WordSum(q[i..WordEnd(p, i)]))
  {
    hide Fold, WordSum, VerificationSum, PseudoTail;
    var j := WordEnd(p, i);
    VerificationIsPacketSum(p);
    VerificationIsPacketSum(q);
    SumAround(p, i);
    SumAround(q, i);
    assert p[8..i] == p[..i][8..] == q[8..i];
    TailNotZero(|p| - IP6_HEADER);
    rest := WordSum(p[8..i]) + WordSum(p[j..]) + WordSum(PseudoTail(|p| - IP6_HEADER));
  }

  lemma TailNotZero(length: nat)
    ensures WordSum(PseudoTail(length)) > 0
  {
    hide WordSum;
    WordSumZeroIff(PseudoTail(length));
    assert PseudoTail(length)[7] != 0;
  }

  lemma ShortSum(s: seq<byte>)
    requires 1 <= |s| <= 2
    ensures WordSum(s) < U16
    ensures WordSum(s) == if |s| == 1 then s[0] else Word(s[0], s[1])
  {
    if |s| == 1 {
      OneByte(s[0]);
      assert s == [s[0]];
    } else {
      TwoBytes(s[0], s[1]);
      assert s == [s[0], s[1]];
    }
  }

  lemma SameResidue(rest: nat, u: nat, v: nat)
    requires u < U16 && v < U16 && (rest + u) % ONES == 0
    ensures (rest + v) % ONES == 0 <==> u == v || (u == 0 && v == ONES) || (u == ONES && v == 0)
  {
    var a := (rest + u) / ONES;
    if (rest + v) % ONES == 0 {
      var b := (rest + v) / ONES;
      assert u - v == (a - b) * ONES;
    }
  }

  /** Changing any one octet of the addresses or of the ICMPv6 message makes the packet rejected. */
  lemma ByteCorruption(p: seq<byte>, i: nat, b: byte)
    requires Accepted(p) && |p| <= IP6_HEADER + LIMIT
    requires 8 <= i < |p| && b != p[i]
    ensures !Accepted(p[i := b])
  {
    hide Fold, WordSum, VerificationSum;
    var q := p[i := b];
    if Accepted(q) {
      var k := i - i % 2;
      var j := WordEnd(p, k);
      assert SameExceptWord(p, q, k);
      WordCorruption(p, q, k);
      ShortSum(p[k..j]);
      ShortSum(q[k..j]);
      assert false;
    }
  }

  /** So does flipping any one bit of them. */
  lemma SingleBitErrorsDetected(p: seq<byte>, i: nat, bit: nat)
    requires Accepted(p) && |p| <= IP6_HEADER + LIMIT
    requires 8 <= i < |p| && bit < 8
    ensures Xor(p[i], Pow2(bit)) < 0x100
    ensures !Accepted(p[i := Xor(p[i], Pow2(bit))])
  {
    hide Accepted, Bitwise;
    assert Pow2(8) == 0x100;
    Pow2Increases(bit, 8);
    Fits(XorGate, p[i], Pow2(bit), 8);
    XorChanges(p[i], Pow2(bit));
    ByteCorruption(p, i, Xor(p[i], Pow2(bit)));
  }

  lemma {:induction false} Pow2Increases(m: nat, n: nat)
    requires m < n
    ensures Pow2(m) < Pow2(n)
  {
    if m < n - 1 {
      Pow2Increases(m, n - 1);
    }
  }
}
