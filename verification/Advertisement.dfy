/**
 `sendNeighborAdvert`: the neighbor advertisement the bridge answers with, filled in place, its
 checksum field seeded with the pseudo-header sum before the ICMPv6 sum is taken.
 */
module Advertisement {
  import opened Bits
  import opened Bytes
  import opened InternetChecksum
  import opened Icmpv6
  import Solicitation

  const ROUTER_FLAG := 0x80
  const SOLICITED_FLAG := 0x40

  /** The advertisement as the RFCs define it (RFC 4861 section 4.4), checksum field zero. */
  function AdvertMessage(mac: seq<byte>, solicited: bool): (m: seq<byte>)
    requires |mac| == 6
    ensures |m| == 32
  {
    [NEIGHBOR_ADVERT, 0, 0, 0, if solicited then 0xc0 else 0x80, 0, 0, 0] + GATEWAY + [2, 1] + mac
  }

  /** The whole packet, with the RFC 4443 checksum. */
  function Advert(dst: Address, mac: seq<byte>, solicited: bool): (p: seq<byte>)
    requires |mac| == 6
    ensures |p| == 72
  {
    var m := AdvertMessage(mac, solicited);
    [0x60, 0, 0, 0, 0, 32, NEXT_HEADER, 255] + GATEWAY + dst + WithChecksum(m, RfcChecksum(GATEWAY, dst, m))
  }

  /** Assigning a field of the packed structure. */
  method Put(packet: array<byte>, offset: nat, field: seq<byte>)
    requires offset + |field| <= packet.Length
    modifies packet
    ensures forall i :: offset <= i < offset + |field| ==> packet[i] == field[i - offset]
    ensures forall i :: 0 <= i < packet.Length && !(offset <= i < offset + |field|) ==> packet[i] == old(packet[i])
  {
    forall i | 0 <= i < |field| {
      packet[offset + i] := field[i];
    }
  }

  /** The IPv6 header of the structure. */
  method FillHeader(packet: array<byte>, dst: Address)
    requires packet.Length == 72
    modifies packet
    ensures packet[..40] == [0x60, 0, 0, 0, 0, 32, NEXT_HEADER, 255] + GATEWAY + dst
    ensures packet[40..] == old(packet[40..])
  {
    hide StoreLe, StoreLe32, Htons, Htonl;
    HeaderConstants();
    Put(packet, 0, StoreLe32(Htonl(0x6000_0000)));
    Put(packet, 4, StoreLe(Htons(72 - 40)));
    packet[6] := NEXT_HEADER;
    packet[7] := 255;
    Put(packet, 8, GATEWAY);
    Put(packet, 24, dst);
    assert packet[..8] == [0x60, 0, 0, 0, 0, 32, NEXT_HEADER, 255];
    assert packet[8..24] == GATEWAY && packet[24..40] == dst;
    assert packet[..40] == packet[..8] + packet[8..24] + packet[24..40];
  }

  lemma HeaderConstants()
    ensures StoreLe32(Htonl(0x6000_0000)) == [0x60, 0, 0, 0]
    ensures StoreLe(Htons(32)) == [0, 32]
  {
    assert Htonl(0x6000_0000) == 0x60;
    assert Htons(32) == 0x2000;
    hide Htonl, Htons;
  }

  /** Its ICMPv6 part, checksum aside. */
  method FillMessage(packet: array<byte>, mac: seq<byte>, solicited: bool)
    requires packet.Length == 72 && |mac| == 6
    requires forall i :: 40 <= i < 72 ==> packet[i] == 0
    modifies packet
    ensures packet[40..] == AdvertMessage(mac, solicited)
    ensures packet[..40] == old(packet[..40])
  {
    FillType(packet, solicited);
    FillTarget(packet, mac);
    assert packet[40..] == packet[40..48] + packet[48..];
  }

  /** Type, code and flags; `nd_na_flags_reserved` is a native 32-bit integer. */
  method FillType(packet: array<byte>, solicited: bool)
    requires packet.Length == 72 && packet[42] == packet[43] == 0
    modifies packet
    ensures packet[40..48] == [NEIGHBOR_ADVERT, 0, 0, 0, if solicited then 0xc0 else 0x80, 0, 0, 0]
    ensures packet[..40] == old(packet[..40])
  {
    hide StoreLe32, Or;
    FlagConstants();
    StoredFlags();
    packet[40] := NEIGHBOR_ADVERT;
    packet[41] := 0;
    Put(packet, 44, StoreLe32(Or(if solicited then SOLICITED_FLAG else 0, ROUTER_FLAG)));
  }

  /** The target address and the link-layer option. */
  method FillTarget(packet: array<byte>, mac: seq<byte>)
    requires packet.Length == 72 && |mac| == 6
    modifies packet
    ensures packet[48..] == GATEWAY + [2, 1] + mac
    ensures packet[..48] == old(packet[..48])
  {
    Put(packet, 48, GATEWAY);
    packet[64] := 2;
    packet[65] := 1;
    Put(packet, 66, mac);
    assert packet[48..64] == GATEWAY && packet[64..66] == [2, 1] && packet[66..72] == mac;
    assert packet[48..] == packet[48..64] + packet[64..66] + packet[66..72];
  }

  lemma StoredFlags()
    ensures StoreLe32(0xc0) == [0xc0, 0, 0, 0] && StoreLe32(0x80) == [0x80, 0, 0, 0]
  {
  }

  lemma FlagConstants()
    ensures Or(SOLICITED_FLAG, ROUTER_FLAG) == 0xc0 && Or(0, ROUTER_FLAG) == 0x80
  {
    assert Pow2(7) == 0x80;
    hide Bitwise, Pow2;
    BitwiseCommutes(OrGate, SOLICITED_FLAG, ROUTER_FLAG);
    OrIsSum(1, SOLICITED_FLAG, 7);
    BitwiseCommutes(OrGate, 0, ROUTER_FLAG);
    OrZero(ROUTER_FLAG);
  }

  /**
   Seeding the field with the pseudo-header sum, summing the message over it and storing the
   complement natively gives the RFC's checksum in network order.
   */
  lemma SeedingTrick(dst: Address, m: seq<byte>)
    requires 4 <= |m| < U16 && m[2] == 0 && m[3] == 0
    ensures var seed := StoreLe(Checksum16(CodePseudoHeader(GATEWAY, dst, |m|)));
            var seeded := m[..2] + seed + m[4..];
            m[..2] + StoreLe(ONES - Checksum16(seeded)) + m[4..]
              == WithChecksum(m, RfcChecksum(GATEWAY, dst, m))
  {
    hide Fold, WordSum, Checksum16, CodePseudoHeader, RfcChecksum;
    var ph := CodePseudoHeader(GATEWAY, dst, |m|);
    var c := Checksum16(ph);
    var seeded := m[..2] + StoreLe(c) + m[4..];
    StoredField(m, c);
    assert seeded == WithChecksum(m, Swap16(c));
    SwapResidue(c);
    SumWithChecksum(m, Swap16(c));
    NoOverflow(ph);
    NoOverflow(seeded);
    FoldSum(WordSum(WithChecksum(m, 0)), WordSum(ph));
    assert Checksum16(seeded) == Fold(CoveredSum(GATEWAY, dst, m));
    RfcChecksumIsNative(GATEWAY, dst, m);
    StoredField(m, ONES - Checksum16(seeded));
  }

  /** A natively stored 16-bit number is its byte swap in network order. */
  lemma StoredField(m: seq<byte>, c: nat)
    requires |m| >= 4 && c < U16
    ensures m[..2] + StoreLe(c) + m[4..] == WithChecksum(m, Swap16(c))
  {
    assert Swap16(c) / 0x100 == c % 0x100 && Swap16(c) % 0x100 == c / 0x100;
  }

  /** The two checksum statements. */
  method StoreChecksum(packet: array<byte>, dst: Address, ghost m: seq<byte>)
    requires packet.Length == 72 && packet[40..] == m && m[2] == 0 && m[3] == 0
    modifies packet
    ensures packet[40..] == WithChecksum(m, RfcChecksum(GATEWAY, dst, m))
    ensures packet[..40] == old(packet[..40])
  {
    hide WithChecksum, RfcChecksum, Checksum16, StoreLe, StoreLe32, Htons, Htonl;
    NativeIsCode(GATEWAY, dst, 72 - 40);
    var phSum := Checksum(GATEWAY + dst + StoreLe32(Htons(72 - 40)) + StoreLe32(Htonl(NEXT_HEADER)));
    Put(packet, 42, StoreLe(phSum));
    assert packet[40..] == m[..2] + StoreLe(phSum) + m[4..];
    var sum := Checksum(packet[40..]);
    Put(packet, 42, StoreLe(ONES - sum));
    assert packet[40..] == m[..2] + StoreLe(ONES - sum) + m[4..];
    SeedingTrick(dst, m);
  }

  /** Building the packet. */
  method BuildAdvert(dst: Address, mac: seq<byte>, solicited: bool) returns (packet: array<byte>)
    requires |mac| == 6
    ensures fresh(packet) && packet[..] == Advert(dst, mac, solicited)
  {
    ZeroField(mac, solicited);
    hide AdvertMessage, WithChecksum, RfcChecksum;
    packet := new byte[72](_ => 0);
    FillHeader(packet, dst);
    FillMessage(packet, mac, solicited);
    StoreChecksum(packet, dst, AdvertMessage(mac, solicited));
    assert packet[..] == packet[..40] + packet[40..];
  }

  lemma ZeroField(mac: seq<byte>, solicited: bool)
    requires |mac| == 6
    ensures AdvertMessage(mac, solicited)[2] == 0 && AdvertMessage(mac, solicited)[3] == 0
  {
  }

  /** Every advertisement passes the verification the bridge itself applies to what it receives. */
  lemma AdvertVerifies(dst: Address, mac: seq<byte>, solicited: bool)
    requires |mac| == 6
    ensures VerificationSum(GATEWAY, dst, Advert(dst, mac, solicited)[40..]) == ONES
  {
    hide VerificationSum, RfcChecksum, AdvertMessage;
    var m := AdvertMessage(mac, solicited);
    var c := RfcChecksum(GATEWAY, dst, m);
    var sent := WithChecksum(m, c);
    assert Advert(dst, mac, solicited)[40..] == sent;
    assert ChecksumField(sent) == c;
    SameChecksum(GATEWAY, dst, m, c);
    VerifiedIff(GATEWAY, dst, sent);
  }

  lemma SameChecksum(src: Address, dst: Address, m: seq<byte>, c: nat)
    requires |m| >= 4 && c < U16
    ensures RfcChecksum(src, dst, WithChecksum(m, c)) == RfcChecksum(src, dst, m)
  {
    hide NetWords, OnesComplementSum, RfcPseudoHeader;
    assert WithChecksum(WithChecksum(m, c), 0) == WithChecksum(m, 0);
  }

  /** What is sent, octet by octet. The sum is over addresses, message, length and protocol number. */
  lemma AdvertInOctets(dst: Address, mac: seq<byte>, solicited: bool)
    requires |mac| == 6
    ensures var p := Advert(dst, mac, solicited);
            && p[..8] == [0x60, 0, 0, 0, 0, 32, 58, 255]
            && p[8..24] == [0xfe, 0x80, 0, 0, 0, 0, 0, 0, 0, 0, 0, 0, 0, 0, 0, 1] && p[24..40] == dst
            && p[40] == 136 && p[41] == 0
            && p[44] == (if solicited then 0x80 + 0x40 else 0x80) && p[45] == p[46] == p[47] == 0
            && p[48..64] == p[8..24] && p[64] == 2 && p[65] == 1 && p[66..72] == mac
            && (BigEndianSum(p[8..]) + 32 + 58) % 0xffff == 0
            && !(p[42] == 0xff && p[43] == 0xff)
  {
    hide VerificationSum, RfcChecksum, BigEndianSum;
    var p, m := Advert(dst, mac, solicited), AdvertMessage(mac, solicited);
    var c := RfcChecksum(GATEWAY, dst, m);
    AdvertVerifies(dst, mac, solicited);
    NotAllOnes(dst, m);
    MessageInOctets(mac, solicited, c);
    hide AdvertMessage, WithChecksum;
    var w := WithChecksum(m, c);
    assert p[40..] == w;
    assert forall i :: 40 <= i < 72 ==> p[i] == p[40..][i - 40];
    assert p[8..24] == GATEWAY && p[24..40] == dst;
    assert p[48..64] == w[8..24] && p[66..72] == w[26..32];
    assert Solicitation.Source(p) == GATEWAY && Solicitation.Destination(p) == dst;
    Solicitation.VerifiedInOctets(p);
  }

  lemma MessageInOctets(mac: seq<byte>, solicited: bool, c: nat)
    requires |mac| == 6 && c < U16
    ensures var w := WithChecksum(AdvertMessage(mac, solicited), c);
            && w[0] == 136 && w[1] == 0 && w[2] == c / 0x100 && w[3] == c % 0x100
            && w[4] == (if solicited then 0x80 + 0x40 else 0x80) && w[5] == w[6] == w[7] == 0
            && w[8..24] == GATEWAY && w[24] == 2 && w[25] == 1 && w[26..32] == mac
  {
    var m := AdvertMessage(mac, solicited);
    assert m[8..24] == GATEWAY && m[26..32] == mac;
  }

  /** The checksum sent is never the negative zero. */
  lemma NotAllOnes(dst: Address, m: seq<byte>)
    requires 4 <= |m| < U16
    ensures RfcChecksum(GATEWAY, dst, m) != ONES
  {
    hide RfcChecksum, CoveredSum, Fold;
    RfcChecksumIsNative(GATEWAY, dst, m);
    var n := Fold(CoveredSum(GATEWAY, dst, m));
    FoldResidue(CoveredSum(GATEWAY, dst, m));
    SwapResidue(ONES - n);
    SwapOnes();
  }
}
