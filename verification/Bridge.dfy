/**
 The bridge: `sendPacket` with its static buffer, `callback`, and what a whole run of them puts
 on the two interfaces. Frames handed to pcap are an output sequence per interface.
 */
module Bridge {
  import opened Bytes
  import opened InternetChecksum
  import opened Icmpv6
  import opened Solicitation
  import opened Advertisement
  import opened Options

  datatype L2Handling = DoneTouch | Strip | Prepend

  datatype Interface = HostIf | NetIf

  type Frame = seq<byte>

  const ETHER_HEADER := 14
  const ETHERTYPE_IPV6 := 0x86dd
  const BUFFER := 8192

  /** ff02::1, the destination of unsolicited advertisements. */
  const ALL_NODES: Address := [0xff, 0x02, 0, 0, 0, 0, 0, 0, 0, 0, 0, 0, 0, 0, 0, 1]

  /** What the options and `getMac` fix before the main loop: the mode and `eHeader`. */
  datatype Config = Config(secure: bool, eHeader: seq<byte>)

  predicate IsConfig(c: Config)
  {
    |c.eHeader| == ETHER_HEADER && (c.secure ==> c.eHeader[12] == 0x86 && c.eHeader[13] == 0xdd)
  }

  /** `ntohs` of the type field. */
  function EtherType(frame: seq<byte>): nat
    requires |frame| >= ETHER_HEADER
  {
    WordBound(frame[12], frame[13]);
    Swap16(Word(frame[12], frame[13]))
  }

  lemma EtherTypeInOctets(frame: seq<byte>)
    requires |frame| >= ETHER_HEADER
    ensures EtherType(frame) == ETHERTYPE_IPV6 <==> frame[12] == 0x86 && frame[13] == 0xdd
  {
  }

  lemma WordBound(lo: byte, hi: byte)
    ensures Word(lo, hi) < U16
  {
  }

  function Mac(c: Config): (m: seq<byte>)
    requires IsConfig(c)
    ensures |m| == 6
  {
    c.eHeader[6..12]
  }

  function Handling(c: Config, iface: Interface): L2Handling
  {
    if !c.secure then DoneTouch else if iface == NetIf then Strip else Prepend
  }

  /** What the events of the main loop are: a captured frame of original length `len`, or an unsolicited send. */
  datatype Event =
    | FromHost(frame: Frame, len: nat)
    | FromNet(frame: Frame, len: nat)
    | Unsolicited

  /**
   Fully captured frames from the host have an Ethernet header; those from enf0 leave room for one
   in the buffer. Frames captured in part are dropped before any of this matters.
   */
  predicate Admissible(c: Config, e: Event)
  {
    c.secure ==>
      match e
      case FromHost(frame, len) => |frame| == len ==> |frame| >= ETHER_HEADER
      case FromNet(frame, len) => |frame| == len ==> |frame| <= BUFFER - ETHER_HEADER
      case Unsolicited => true
  }

  /** The default of the option that bounds how much of a frame is captured. */
  const SNAPLEN := 8192

  /** With this capture length, whatever arrives on enf0 fits in the buffer. */
  ghost predicate CaptureFits(c: Config, snaplen: nat)
  {
    forall frame: Frame, len: nat :: |frame| <= snaplen ==> Admissible(c, FromNet(frame, len))
  }

  /** Exactly the capture lengths up to 8178 do; the default is 14 too large. */
  lemma CaptureFitsIff(c: Config, snaplen: nat)
    requires c.secure
    ensures CaptureFits(c, snaplen) <==> snaplen <= 8178
    ensures !CaptureFits(c, SNAPLEN)
  {
    var frame: Frame := Zeros(BUFFER - ETHER_HEADER + 1);
    assert !Admissible(c, FromNet(frame, |frame|));
    assert |frame| <= SNAPLEN;
  }

  // What each event must put on each interface.

  predicate Answered(c: Config, e: Event)
    requires Admissible(c, e)
  {
    c.secure && e.FromHost? && |e.frame| == e.len && Accepted(e.frame[ETHER_HEADER..])
  }

  predicate Forwarded(c: Config, e: Event)
    requires Admissible(c, e)
  {
    e.FromHost? && |e.frame| == e.len &&
    (c.secure ==> EtherType(e.frame) == ETHERTYPE_IPV6 && !Answered(c, e))
  }

  function NetOut(c: Config, e: Event): Option<Frame>
    requires IsConfig(c) && Admissible(c, e)
  {
    if Forwarded(c, e) then Some(if c.secure then e.frame[ETHER_HEADER..] else e.frame) else None
  }

  function HostOut(c: Config, e: Event): Option<Frame>
    requires IsConfig(c) && Admissible(c, e)
  {
    var header := if c.secure then c.eHeader else [];
    match e
    case FromNet(frame, len) => if |frame| == len then Some(header + frame) else None
    case Unsolicited => Some(header + Advert(ALL_NODES, Mac(c), false))
    case FromHost(frame, len) =>
      if Answered(c, e) then Some(header + Advert(Source(frame[ETHER_HEADER..]), Mac(c), true)) else None
  }

  function ToSeq<T>(o: Option<T>): seq<T> { if o.Some? then [o.value] else [] }

  /** The outputs of a run, in order. */
  function Collect<T>(outs: seq<Option<T>>): seq<T>
  {
    if outs == [] then [] else Collect(outs[..|outs| - 1]) + ToSeq(outs[|outs| - 1])
  }

  ghost predicate AllAdmissible(c: Config, events: seq<Event>)
  {
    forall i :: 0 <= i < |events| ==> Admissible(c, events[i])
  }

  function NetOuts(c: Config, events: seq<Event>): (outs: seq<Option<Frame>>)
    requires IsConfig(c) && AllAdmissible(c, events)
    ensures |outs| == |events| && forall i :: 0 <= i < |events| ==> outs[i] == NetOut(c, events[i])
  {
    seq(|events|, i requires 0 <= i < |events| && Admissible(c, events[i]) => NetOut(c, events[i]))
  }

  function HostOuts(c: Config, events: seq<Event>): (outs: seq<Option<Frame>>)
    requires IsConfig(c) && AllAdmissible(c, events)
    ensures |outs| == |events| && forall i :: 0 <= i < |events| ==> outs[i] == HostOut(c, events[i])
  {
    seq(|events|, i requires 0 <= i < |events| && Admissible(c, events[i]) => HostOut(c, events[i]))
  }

  class Process {
    const config: Config
    const buf: array<byte>
    var haveEheader: bool
    var toHost: seq<Frame>
    var toNet: seq<Frame>

    ghost predicate Valid()
      reads this, buf
    {
      IsConfig(config) && buf.Length == BUFFER &&
      (haveEheader ==> buf[..ETHER_HEADER] == config.eHeader)
    }

    constructor (c: Config)
      requires IsConfig(c)
      ensures Valid() && config == c && toHost == toNet == [] && fresh(buf)
    {
      config := c;
      buf := new byte[BUFFER](_ => 0);
      haveEheader := false;
      toHost := [];
      toNet := [];
    }

    /** `pcap_sendpacket`; the code goes on in the same way when it fails. */
    method Inject(iface: Interface, frame: Frame)
      modifies this`toHost, this`toNet
      ensures toHost == old(toHost) + if iface == HostIf then [frame] else []
      ensures toNet == old(toNet) + if iface == NetIf then [frame] else []
    {
      if iface == HostIf {
        toHost := toHost + [frame];
      } else {
        toNet := toNet + [frame];
      }
    }

    /**
     `sendPacket`. The static buffer keeps the header from the first call on and stale octets
     behind it; what is sent is always the header followed by this packet alone.
     */
    method SendPacket(iface: Interface, data: Frame)
      requires Valid()
      requires Handling(config, iface) == Strip ==> |data| >= ETHER_HEADER
      requires Handling(config, iface) == Prepend ==> |data| <= BUFFER - ETHER_HEADER
      modifies this, buf
      ensures Valid()
      ensures iface == HostIf ==> toNet == old(toNet)
      ensures iface == HostIf ==>
                toHost == old(toHost) + [if config.secure then config.eHeader + data else data]
      ensures iface == NetIf ==> toHost == old(toHost)
      ensures iface == NetIf ==>
                toNet == old(toNet) + (if !config.secure then [data]
                                       else if data[12] == 0x86 && data[13] == 0xdd then [data[14..]]
                                       else [])
    {
      match Handling(config, iface)
      case DoneTouch =>
        Inject(iface, data);
      case Strip =>
        EtherTypeInOctets(data);
        if EtherType(data) == ETHERTYPE_IPV6 {
          Inject(iface, data[ETHER_HEADER..]);
        }
      case Prepend =>
        if !haveEheader {
          forall i | 0 <= i < ETHER_HEADER {
            buf[i] := config.eHeader[i];
          }
          haveEheader := true;
        }
        assert buf[..ETHER_HEADER] == config.eHeader;
        forall i | 0 <= i < |data| {
          buf[ETHER_HEADER + i] := data[i];
        }
        assert buf[..ETHER_HEADER] == config.eHeader;
        assert buf[..ETHER_HEADER + |data|] == config.eHeader + data;
        Inject(iface, buf[..ETHER_HEADER + |data|]);
    }

    /** `sendNeighborAdvert` on the host interface. */
    method SendNeighborAdvert(dst: Address, solicited: bool)
      requires Valid()
      modifies this, buf
      ensures Valid() && toNet == old(toNet)
      ensures toHost == old(toHost) +
              [(if config.secure then config.eHeader else []) + Advert(dst, Mac(config), solicited)]
    {
      hide Advert;
      var packet := BuildAdvert(dst, Mac(config), solicited);
      SendPacket(HostIf, packet[..]);
      assert [] + packet[..] == packet[..];
    }

    /** `callback`: `iface` is where the frame goes, the other end from where it was received. */
    method Callback(iface: Interface, len: nat, data: Frame)
      requires Valid()
      requires Admissible(config, if iface == NetIf then FromHost(data, len) else FromNet(data, len))
      modifies this, buf
      ensures Valid()
      ensures var e := if iface == NetIf then FromHost(data, len) else FromNet(data, len);
              && toNet == old(toNet) + ToSeq(NetOut(config, e))
              && toHost == old(toHost) + ToSeq(HostOut(config, e))
    {
      hide Accepted, Advert;
      if |data| != len {
        return;
      }
      var solicitation := false;
      if Handling(config, iface) == Strip {
        solicitation := IsNeighborSolicitation(data[ETHER_HEADER..]);
      }
      if solicitation {
        AcceptedLength(data[ETHER_HEADER..]);
        SendNeighborAdvert(Source(data[ETHER_HEADER..]), true);
      } else {
        SendPacket(iface, data);
        assert [] + data == data;
      }
    }

    method Handle(e: Event)
      requires Valid() && Admissible(config, e)
      modifies this, buf
      ensures Valid()
      ensures toNet == old(toNet) + ToSeq(NetOut(config, e))
      ensures toHost == old(toHost) + ToSeq(HostOut(config, e))
    {
      match e
      case FromHost(frame, len) => Callback(NetIf, len, frame);
      case FromNet(frame, len) => Callback(HostIf, len, frame);
      case Unsolicited => SendNeighborAdvert(ALL_NODES, false);
    }
  
    /** The main loop over the events it meets. */
    method HandleAll(events: seq<Event>)
      requires Valid() && AllAdmissible(config, events)
      modifies this, buf
      ensures Valid()
      ensures toNet == old(toNet) + Collect(NetOuts(config, events))
      ensures toHost == old(toHost) + Collect(HostOuts(config, events))
    {
      hide NetOut, HostOut, Admissible;
      assert NetOuts(config, events[..0]) == [] && HostOuts(config, events[..0]) == [];
      for i := 0 to |events|
        invariant Valid()
        invariant toNet == old(toNet) + Collect(NetOuts(config, events[..i]))
        invariant toHost == old(toHost) + Collect(HostOuts(config, events[..i]))
      {
        OneMore(config, events, i);
        Handle(events[i]);
      }
      assert events[..|events|] == events;
    }
  }

  lemma OneMore(c: Config, events: seq<Event>, i: nat)
    requires IsConfig(c) && AllAdmissible(c, events) && i < |events|
    ensures AllAdmissible(c, events[..i]) && AllAdmissible(c, events[..i + 1])
    ensures Collect(NetOuts(c, events[..i + 1])) == Collect(NetOuts(c, events[..i])) + ToSeq(NetOut(c, events[i]))
    ensures Collect(HostOuts(c, events[..i + 1])) == Collect(HostOuts(c, events[..i])) + ToSeq(HostOut(c, events[i]))
  {
    hide NetOut, HostOut, Admissible;
    assert AllAdmissible(c, events[..i + 1]) && AllAdmissible(c, events[..i]);
    assert NetOuts(c, events[..i + 1])[..i] == NetOuts(c, events[..i]);
    assert HostOuts(c, events[..i + 1])[..i] == HostOuts(c, events[..i]);
  }

  lemma AcceptedLength(packet: seq<byte>)
    requires Accepted(packet)
    ensures |packet| >= IP6_HEADER
  {
  }

  // What a run sends.

  /** `sent` is exactly what the events produce: each once, in the order of the events, nothing else. */
  ghost predicate InOrder<T>(outs: seq<Option<T>>, sent: seq<T>, at: seq<nat>)
  {
    |at| == |sent| &&
    (forall k :: 0 <= k < |at| ==> at[k] < |outs| && outs[at[k]] == Some(sent[k])) &&
    (forall j, k :: 0 <= j < k < |at| ==> at[j] < at[k]) &&
    (forall i :: 0 <= i < |outs| && outs[i].Some? ==> i in at)
  }

  lemma {:induction false} CollectInOrder<T>(outs: seq<Option<T>>) returns (at: seq<nat>)
    ensures InOrder(outs, Collect(outs), at)
  {
    if outs == [] {
      at := [];
    } else {
      var n := |outs| - 1;
      var before := CollectInOrder(outs[..n]);
      assert outs == outs[..n] + [outs[n]];
      at := before + if outs[n].Some? then [n] else [];
      InOrderStep(outs[..n], Collect(outs[..n]), before, outs[n]);
    }
  }

  lemma InOrderStep<T>(outs: seq<Option<T>>, sent: seq<T>, at: seq<nat>, o: Option<T>)
    requires InOrder(outs, sent, at)
    ensures InOrder(outs + [o], sent + ToSeq(o), at + if o.Some? then [|outs|] else [])
  {
    var all, next := outs + [o], at + if o.Some? then [|outs|] else [];
    forall i | 0 <= i < |all| && all[i].Some?
      ensures i in next
    {
      if i < |outs| {
        assert i in at;
      } else {
        assert next[|at|] == i;
      }
    }
  }

  /** A host frame that must reach enf0: fully captured, of type 0x86dd, not an accepted solicitation. */
  predicate Deliverable(e: Event)
  {
    e.FromHost? && |e.frame| >= 14 && |e.frame| == e.len &&
    e.frame[12] == 0x86 && e.frame[13] == 0xdd && !Accepted(e.frame[14..])
  }

  lemma NetOutInOctets(c: Config, e: Event)
    requires IsConfig(c) && c.secure && Admissible(c, e)
    ensures NetOut(c, e) == if Deliverable(e) then Some(e.frame[14..]) else None
  {
    hide Accepted, EtherType;
    if e.FromHost? && |e.frame| == e.len {
      EtherTypeInOctets(e.frame);
    }
  }

  /**
   Secure mode, any interleaving: enf0 receives exactly the deliverable frames, in order and each
   once, without their first 14 octets. The result says which event each one came from.
   */
  lemma SecureNetOutput(c: Config, events: seq<Event>) returns (at: seq<nat>)
    requires IsConfig(c) && c.secure && AllAdmissible(c, events)
    ensures |at| == |Collect(NetOuts(c, events))|
    ensures forall j, k :: 0 <= j < k < |at| ==> at[j] < at[k]
    ensures forall k :: 0 <= k < |at| ==>
              && at[k] < |events| && Deliverable(events[at[k]])
              && Collect(NetOuts(c, events))[k] == events[at[k]].frame[14..]
    ensures forall i :: 0 <= i < |events| && Deliverable(events[i]) ==> i in at
  {
    hide Accepted, EtherType, Collect;
    at := CollectInOrder(NetOuts(c, events));
    forall i | 0 <= i < |events|
      ensures NetOut(c, events[i]).Some? <==> Deliverable(events[i])
      ensures Deliverable(events[i]) ==> NetOut(c, events[i]) == Some(events[i].frame[14..])
    {
      assert Admissible(c, events[i]);
      NetOutInOctets(c, events[i]);
    }
  }

  /** So no solicitation for the gateway ever leaves on enf0. */
  lemma NoSolicitationLeaks(c: Config, events: seq<Event>)
    requires IsConfig(c) && c.secure && AllAdmissible(c, events)
    ensures forall f :: f in Collect(NetOuts(c, events)) ==> !Accepted(f)
  {
    hide Accepted, Collect;
    var at := SecureNetOutput(c, events);
    forall f | f in Collect(NetOuts(c, events))
      ensures !Accepted(f)
    {
      var k :| 0 <= k < |at| && Collect(NetOuts(c, events))[k] == f;
      assert Deliverable(events[at[k]]);
    }
  }

  /**
   A fully captured host frame that is not an accepted solicitation produces nothing for the host,
   and reaches enf0, as the next frame there, if and only if its type is 0x86dd.
   */
  lemma UnansweredFrame(c: Config, events: seq<Event>, i: nat)
    requires IsConfig(c) && c.secure && AllAdmissible(c, events) && i < |events|
    requires events[i].FromHost? && |events[i].frame| == events[i].len && !Accepted(events[i].frame[14..])
    ensures AllAdmissible(c, events[..i]) && AllAdmissible(c, events[..i + 1])
    ensures Collect(HostOuts(c, events[..i + 1])) == Collect(HostOuts(c, events[..i]))
    ensures var f := events[i].frame;
            Collect(NetOuts(c, events[..i + 1])) ==
            Collect(NetOuts(c, events[..i])) + if f[12] == 0x86 && f[13] == 0xdd then [f[14..]] else []
  {
    OneMore(c, events, i);
    hide Accepted, Collect, EtherType;
    assert Admissible(c, events[i]);
    NetOutInOctets(c, events[i]);
  }

  /**
   So a fully captured IPv6 frame that misses one of the fields of a solicitation for fe80::1 is
   forwarded and not answered, whatever its checksum.
   */
  lemma OthersAreForwarded(c: Config, events: seq<Event>, i: nat)
    requires IsConfig(c) && c.secure && AllAdmissible(c, events) && i < |events|
    requires events[i].FromHost? && |events[i].frame| == events[i].len
    requires events[i].frame[12] == 0x86 && events[i].frame[13] == 0xdd
    requires var p := events[i].frame[14..];
             || |p| < 64 || p[0] / 16 != 6 || p[6] != 58 || p[40] != 135 || p[41] != 0
             || p[48..64] != [0xfe, 0x80, 0, 0, 0, 0, 0, 0, 0, 0, 0, 0, 0, 0, 0, 1]
    ensures AllAdmissible(c, events[..i]) && AllAdmissible(c, events[..i + 1])
    ensures Collect(HostOuts(c, events[..i + 1])) == Collect(HostOuts(c, events[..i]))
    ensures Collect(NetOuts(c, events[..i + 1])) == Collect(NetOuts(c, events[..i])) + [events[i].frame[14..]]
  {
    RefusedInOctets(events[i].frame[14..]);
    hide Accepted, Collect;
    UnansweredFrame(c, events, i);
  }

  lemma RefusedInOctets(p: seq<byte>)
    requires || |p| < 64 || p[0] / 16 != 6 || p[6] != 58 || p[40] != 135 || p[41] != 0
             || p[48..64] != [0xfe, 0x80, 0, 0, 0, 0, 0, 0, 0, 0, 0, 0, 0, 0, 0, 1]
    ensures !Accepted(p)
  {
  }

  /** What the host is owed for an event in secure mode, without the Ethernet header. */
  function HostPacket(c: Config, e: Event): Option<Frame>
    requires IsConfig(c)
  {
    match e
    case FromNet(frame, len) => if |frame| == len then Some(frame) else None
    case Unsolicited => Some(Advert(ALL_NODES, Mac(c), false))
    case FromHost(frame, len) =>
      if |frame| >= ETHER_HEADER && |frame| == len && Accepted(frame[ETHER_HEADER..]) then
        AcceptedLength(frame[ETHER_HEADER..]);
        Some(Advert(Source(frame[ETHER_HEADER..]), Mac(c), true))
      else None
  }

  /**
   And the host receives, in order: every fully captured enf0 packet, one solicited advertisement
   to its source for every accepted solicitation, and the unsolicited ones, each behind `eHeader`.
   */
  lemma SecureHostOutput(c: Config, events: seq<Event>) returns (at: seq<nat>)
    requires IsConfig(c) && c.secure && AllAdmissible(c, events)
    ensures |at| == |Collect(HostOuts(c, events))|
    ensures forall j, k :: 0 <= j < k < |at| ==> at[j] < at[k]
    ensures forall k :: 0 <= k < |at| ==>
              && at[k] < |events| && HostPacket(c, events[at[k]]).Some?
              && Collect(HostOuts(c, events))[k] == c.eHeader + HostPacket(c, events[at[k]]).value
    ensures forall i :: 0 <= i < |events| && HostPacket(c, events[i]).Some? ==> i in at
  {
    hide Accepted, Collect, Advert;
    at := CollectInOrder(HostOuts(c, events));
    forall i | 0 <= i < |events|
      ensures HostOut(c, events[i]).Some? <==> HostPacket(c, events[i]).Some?
      ensures HostPacket(c, events[i]).Some? ==>
                HostOut(c, events[i]) == Some(c.eHeader + HostPacket(c, events[i]).value)
    {
      assert Admissible(c, events[i]);
    }
  }

  /** Stripping undoes prepending: a packet sent to the host and reflected by it comes back unchanged. */
  lemma StripUndoesPrepend(c: Config, packet: Frame)
    requires IsConfig(c) && c.secure && |packet| <= BUFFER - ETHER_HEADER
    ensures HostOut(c, FromNet(packet, |packet|)) == Some(c.eHeader + packet)
    ensures var back := FromHost(c.eHeader + packet, ETHER_HEADER + |packet|);
            NetOut(c, back) == if Accepted(packet) then None else Some(packet)
  {
    hide Accepted;
    assert (c.eHeader + packet)[ETHER_HEADER..] == packet;
  }

  /**
   The answer to a solicitation, octet by octet in the frame: it goes to the source of the
   solicitation, with the S flag and the source address of `eHeader` as link-layer address.
   */
  lemma AnswerInOctets(c: Config, e: Event)
    requires IsConfig(c) && c.secure && Admissible(c, e)
    requires e.FromHost? && |e.frame| == e.len && Accepted(e.frame[14..])
    ensures |e.frame| >= 78 && HostOut(c, e).Some?
    ensures var f := HostOut(c, e).value;
            && |f| == 86 && f[..14] == c.eHeader
            && f[22..38] == [0xfe, 0x80, 0, 0, 0, 0, 0, 0, 0, 0, 0, 0, 0, 0, 0, 1]
            && f[38..54] == e.frame[22..38]
            && f[54] == 136 && f[58] == 0x80 + 0x40 && f[80..86] == c.eHeader[6..12]
  {
    AcceptedLength(e.frame[14..]);
    var src := Source(e.frame[14..]);
    hide Accepted, Advert;
    assert src == e.frame[22..38];
    AdvertInFrame(c, src, true);
  }

  /** The unsolicited one goes to ff02::1, without the S flag. */
  lemma UnsolicitedInOctets(c: Config)
    requires IsConfig(c) && c.secure
    ensures HostOut(c, Unsolicited).Some?
    ensures var f := HostOut(c, Unsolicited).value;
            && |f| == 86 && f[..14] == c.eHeader
            && f[22..38] == [0xfe, 0x80, 0, 0, 0, 0, 0, 0, 0, 0, 0, 0, 0, 0, 0, 1]
            && f[38..54] == [0xff, 2, 0, 0, 0, 0, 0, 0, 0, 0, 0, 0, 0, 0, 0, 1]
            && f[54] == 136 && f[58] == 0x80 && f[80..86] == c.eHeader[6..12]
  {
    hide Advert;
    AdvertInFrame(c, ALL_NODES, false);
  }

  lemma AdvertInFrame(c: Config, dst: Address, solicited: bool)
    requires IsConfig(c)
    ensures var f := c.eHeader + Advert(dst, Mac(c), solicited);
            && f[..14] == c.eHeader
            && f[22..38] == [0xfe, 0x80, 0, 0, 0, 0, 0, 0, 0, 0, 0, 0, 0, 0, 0, 1]
            && f[38..54] == dst && f[54] == 136
            && f[58] == (if solicited then 0x80 + 0x40 else 0x80) && f[80..86] == c.eHeader[6..12]
  {
    AdvertInOctets(dst, Mac(c), solicited);
    hide Advert;
    var p := Advert(dst, Mac(c), solicited);
    var f := c.eHeader + p;
    assert f[22..38] == p[8..24] && f[38..54] == p[24..40] && f[80..86] == p[66..72];
  }

  /** The bridge does not answer its own advertisements. */
  lemma AdvertIsNotAccepted(dst: Address, mac: seq<byte>, solicited: bool)
    requires |mac| == 6
    ensures !Accepted(Advert(dst, mac, solicited))
  {
    var m := AdvertMessage(mac, solicited);
    var p := Advert(dst, mac, solicited);
    assert p[40] == p[40..][0] == NEIGHBOR_ADVERT;
  }

  /**
   Pass-through mode: each side receives the fully captured frames of the other, untouched. The
   timer sends its advertisements all the same, without a header and with the address `eHeader` has.
   */
  lemma PassThrough(c: Config, e: Event)
    requires IsConfig(c) && !c.secure
    ensures e.FromHost? ==> NetOut(c, e) == if |e.frame| == e.len then Some(e.frame) else None
    ensures e.FromHost? ==> HostOut(c, e) == None
    ensures e.FromNet? ==> HostOut(c, e) == if |e.frame| == e.len then Some(e.frame) else None
    ensures e.FromNet? ==> NetOut(c, e) == None
    ensures e.Unsolicited? ==> HostOut(c, e) == Some(Advert(ALL_NODES, c.eHeader[6..12], false))
    ensures e.Unsolicited? ==> NetOut(c, e) == None
  {
    hide Accepted, EtherType;
    hide Advert;
    if e.FromNet? {
      assert [] + e.frame == e.frame;
    } else if e.Unsolicited? {
      var p := Advert(ALL_NODES, c.eHeader[6..12], false);
      assert [] + p == p;
    }
  }
}
