/**
 The main loop of the bridge, frames and timer together: a pass handles what `select` reports, the
 host first, and then decides about the unsolicited advertisement.
 */
module MainLoop {
  import opened AdvertTimer
  import opened Bridge
  import opened Options
  import opened Solicitation
  import opened Advertisement

  /** A frame as pcap delivers it, with its length on the wire. */
  datatype Captured = Captured(frame: Frame, len: nat)

  /** One pass: the frames dispatched from either side, and the clock. */
  datatype Round = Round(host: seq<Captured>, net: seq<Captured>, pass: Pass)

  /** One event for each frame, in order. */
  function HostEvents(frames: seq<Captured>): (e: seq<Event>)
    ensures |e| == |frames|
    ensures forall k :: 0 <= k < |e| ==> e[k] == FromHost(frames[k].frame, frames[k].len)
  {
    seq(|frames|, k requires 0 <= k < |frames| => FromHost(frames[k].frame, frames[k].len))
  }

  function NetEvents(frames: seq<Captured>): (e: seq<Event>)
    ensures |e| == |frames|
    ensures forall k :: 0 <= k < |e| ==> e[k] == FromNet(frames[k].frame, frames[k].len)
  {
    seq(|frames|, k requires 0 <= k < |frames| => FromNet(frames[k].frame, frames[k].len))
  }

  function Advertise(sends: bool): seq<Event> { if sends then [Unsolicited] else [] }

  function Passes(rounds: seq<Round>): (p: seq<Pass>)
    ensures |p| == |rounds| && forall i :: 0 <= i < |p| ==> p[i] == rounds[i].pass
  {
    seq(|rounds|, i requires 0 <= i < |rounds| => rounds[i].pass)
  }

  /** The events of one pass. */
  function RoundEvents(rounds: seq<Round>, i: nat): seq<Event>
    requires i < |rounds|
  {
    HostEvents(rounds[i].host) + NetEvents(rounds[i].net) + Advertise(SendsAt(Passes(rounds), i))
  }

  /** The events of the first n passes, in the order the bridge meets them. */
  function Events(rounds: seq<Round>, n: nat): seq<Event>
    requires n <= |rounds|
  {
    if n == 0 then [] else Events(rounds, n - 1) + RoundEvents(rounds, n - 1)
  }

  /** How often an unsolicited advertisement is among the events. */
  function Adverts(events: seq<Event>): nat { multiset(events)[Unsolicited] }

  lemma AdvertsAppend(a: seq<Event>, b: seq<Event>)
    ensures Adverts(a + b) == Adverts(a) + Adverts(b)
  {
  }

  lemma NoAdverts(events: seq<Event>)
    requires Unsolicited !in events
    ensures Adverts(events) == 0
  {
    assert Unsolicited !in multiset(events);
  }

  lemma AdvertsOfRound(rounds: seq<Round>, i: nat)
    requires i < |rounds|
    ensures Adverts(RoundEvents(rounds, i)) == if SendsAt(Passes(rounds), i) then 1 else 0
  {
    hide SendsAt, Adverts, Passes;
    var host, net := HostEvents(rounds[i].host), NetEvents(rounds[i].net);
    var advert := Advertise(SendsAt(Passes(rounds), i));
    AdvertsAppend(host + net, advert);
    AdvertsAppend(host, net);
    NoAdverts(host);
    NoAdverts(net);
    OneAdvert(SendsAt(Passes(rounds), i));
  }

  lemma NoRounds(rounds: seq<Round>)
    ensures Events(rounds, 0) == [] && Adverts([]) == |SendTimes(Passes(rounds), 0)|
  {
  }

  lemma OneAdvert(sends: bool)
    ensures Adverts(Advertise(sends)) == if sends then 1 else 0
  {
  }

  /** The unsolicited advertisements of the bridge are the sends of the timer. */
  lemma {:induction false} AdvertsAreSends(rounds: seq<Round>, n: nat)
    requires n <= |rounds|
    ensures Adverts(Events(rounds, n)) == |SendTimes(Passes(rounds), n)|
  {
    hide *;
    if n == 0 {
      NoRounds(rounds);
    } else {
      EventsStep(rounds, n - 1);
      SendTimesStep(Passes(rounds), n - 1);
      AdvertsAreSends(rounds, n - 1);
      AdvertsOfRound(rounds, n - 1);
      AdvertsAppend(Events(rounds, n - 1), RoundEvents(rounds, n - 1));
    }
  }

  /** And each lies at the end of the events of its pass. */
  lemma RoundEndsWithAdvert(rounds: seq<Round>, i: nat)
    requires i < |rounds|
    ensures Unsolicited in RoundEvents(rounds, i) <==> SendsAt(Passes(rounds), i)
    ensures SendsAt(Passes(rounds), i) ==>
              RoundEvents(rounds, i)[|RoundEvents(rounds, i)| - 1] == Unsolicited
  {
  }

  /** What two stretches of a run put on the interfaces, one after the other. */
  lemma OutputsAppend(c: Config, a: seq<Event>, b: seq<Event>)
    requires IsConfig(c) && AllAdmissible(c, a + b)
    ensures AllAdmissible(c, a) && AllAdmissible(c, b)
    ensures Collect(NetOuts(c, a + b)) == Collect(NetOuts(c, a)) + Collect(NetOuts(c, b))
    ensures Collect(HostOuts(c, a + b)) == Collect(HostOuts(c, a)) + Collect(HostOuts(c, b))
  {
    AdmissibleParts(c, a, b);
    hide NetOut, HostOut, Admissible, Collect;
    assert NetOuts(c, a + b) == NetOuts(c, a) + NetOuts(c, b);
    assert HostOuts(c, a + b) == HostOuts(c, a) + HostOuts(c, b);
    CollectAppend(NetOuts(c, a), NetOuts(c, b));
    CollectAppend(HostOuts(c, a), HostOuts(c, b));
  }

  lemma {:induction false} CollectAppend<T>(a: seq<Option<T>>, b: seq<Option<T>>)
    ensures Collect(a + b) == Collect(a) + Collect(b)
    decreases |b|
  {
    hide *;
    if b == [] {
      assert a + b == a;
      CollectNothing<T>();
    } else {
      var n := |b| - 1;
      CollectAppend(a, b[..n]);
      assert b == b[..n] + [b[n]];
      assert a + b == a + b[..n] + [b[n]];
      CollectStep(a + b[..n], b[n]);
      CollectStep(b[..n], b[n]);
    }
  }

  lemma CollectNothing<T>()
    ensures Collect<T>([]) == []
  {
  }

  lemma CollectStep<T>(a: seq<Option<T>>, o: Option<T>)
    ensures Collect(a + [o]) == Collect(a) + Bridge.ToSeq(o)
  {
    assert (a + [o])[..|a|] == a;
  }

  /** The first n passes are a prefix of the whole run. */
  lemma {:induction false} EventsPrefix(rounds: seq<Round>, c: Config, n: nat)
    requires n < |rounds| && AllAdmissible(c, Events(rounds, |rounds|))
    ensures AllAdmissible(c, Events(rounds, n + 1))
    decreases |rounds| - n
  {
    hide *;
    if n + 1 < |rounds| {
      EventsPrefix(rounds, c, n + 1);
      EventsStep(rounds, n + 1);
      AdmissibleParts(c, Events(rounds, n + 1), RoundEvents(rounds, n + 1));
    }
  }

  lemma SendTimesStep(passes: seq<Pass>, n: nat)
    requires n < |passes|
    ensures |SendTimes(passes, n + 1)| == |SendTimes(passes, n)| + if SendsAt(passes, n) then 1 else 0
  {
  }

  lemma EventsStep(rounds: seq<Round>, n: nat)
    requires n < |rounds|
    ensures Events(rounds, n + 1) == Events(rounds, n) + RoundEvents(rounds, n)
  {
  }

  lemma AdmissibleParts(c: Config, a: seq<Event>, b: seq<Event>)
    requires AllAdmissible(c, a + b)
    ensures AllAdmissible(c, a) && AllAdmissible(c, b)
  {
    hide Admissible;
    assert forall i :: 0 <= i < |a| ==> (a + b)[i] == a[i];
    assert forall i :: 0 <= i < |b| ==> (a + b)[|a| + i] == b[i];
  }

  /** `main` from the loop on: the frames go through the bridge, the clock through the timer. */
  method RunLoop(rounds: seq<Round>, bridge: Process, timer: Loop)
    requires bridge.Valid() && AllAdmissible(bridge.config, Events(rounds, |rounds|))
    requires timer.naTimeout == 0 && !timer.na && timer.sent == 0
    modifies bridge, bridge.buf, timer
    ensures bridge.Valid() && timer.naTimeout == Timeout(Passes(rounds), |rounds|)
    ensures timer.sent == Adverts(Events(rounds, |rounds|))
    ensures bridge.toNet == old(bridge.toNet) + Collect(NetOuts(bridge.config, Events(rounds, |rounds|)))
    ensures bridge.toHost == old(bridge.toHost) + Collect(HostOuts(bridge.config, Events(rounds, |rounds|)))
    ensures bridge.config.secure ==>
              && bridge.toNet == old(bridge.toNet) + RunToNet(rounds, |rounds|)
              && bridge.toHost == old(bridge.toHost) + RunToHost(bridge.config.eHeader, rounds, |rounds|)
  {
    hide NetOuts, HostOuts, AllAdmissible, RoundEvents, Collect, Passes;
    var c := bridge.config;
    NothingSent(c);
    NoRounds(rounds);
    for i := 0 to |rounds|
      invariant bridge.Valid() && AllAdmissible(c, Events(rounds, i))
      invariant timer.naTimeout == Timeout(Passes(rounds), i) && !timer.na
      invariant timer.sent == |SendTimes(Passes(rounds), i)|
      invariant bridge.toNet == old(bridge.toNet) + Collect(NetOuts(c, Events(rounds, i)))
      invariant bridge.toHost == old(bridge.toHost) + Collect(HostOuts(c, Events(rounds, i)))
    {
      EventsPrefix(rounds, c, i);
      OutputsAppend(c, Events(rounds, i), RoundEvents(rounds, i));
      RunRound(rounds, i, bridge, timer);
    }
    AdvertsAreSends(rounds, |rounds|);
    if c.secure {
      RunOutputs(c, rounds, |rounds|);
    }
  }

  lemma NothingSent(c: Config)
    requires IsConfig(c)
    ensures AllAdmissible(c, [])
    ensures Collect(NetOuts(c, [])) == [] && Collect(HostOuts(c, [])) == []
  {
  }

  /** One pass of the loop. */
  method RunRound(rounds: seq<Round>, i: nat, bridge: Process, timer: Loop)
    requires i < |rounds| && timer.naTimeout == Timeout(Passes(rounds), i) && !timer.na
    requires bridge.Valid() && AllAdmissible(bridge.config, RoundEvents(rounds, i))
    modifies bridge, bridge.buf, timer
    ensures bridge.Valid()
    ensures timer.naTimeout == Timeout(Passes(rounds), i + 1) && !timer.na
    ensures timer.sent == old(timer.sent) + if SendsAt(Passes(rounds), i) then 1 else 0
    ensures bridge.toNet == old(bridge.toNet) + Collect(NetOuts(bridge.config, RoundEvents(rounds, i)))
    ensures bridge.toHost == old(bridge.toHost) + Collect(HostOuts(bridge.config, RoundEvents(rounds, i)))
  {
    hide NetOuts, HostOuts, AllAdmissible, Collect, Passes, HostEvents, NetEvents;
    var c := bridge.config;
    var host, net := HostEvents(rounds[i].host), NetEvents(rounds[i].net);
    ghost var advert := Advertise(SendsAt(Passes(rounds), i));
    assert host + net + advert == RoundEvents(rounds, i);
    OutputsAppend(c, host + net, advert);
    OutputsAppend(c, host, net);
    bridge.HandleAll(host);
    bridge.HandleAll(net);
    var _, sends := timer.Turn(rounds[i].pass);
    if sends {
      bridge.HandleAll([Unsolicited]);
    } else {
      NothingSent(c);
    }
    assert rounds[i].pass.(usr2 := false || rounds[i].pass.usr2) == Passes(rounds)[i];
  }

  // In secure mode, what a pass sends, from its frames alone.

  /** A frame from the host goes to enf0 without its first 14 octets, unless it is not IPv6 or is answered. */
  function Delivered(x: Captured): seq<Frame>
  {
    var f := x.frame;
    if |f| == x.len >= 14 && f[12] == 0x86 && f[13] == 0xdd && !Accepted(f[14..]) then [f[14..]] else []
  }

  /** A solicitation is answered with an advertisement to its source. */
  function AnswerTo(header: Frame, x: Captured): seq<Frame>
    requires |header| == 14
  {
    var f := x.frame;
    if |f| == x.len >= 78 && Accepted(f[14..]) then [header + Advert(f[22..38], header[6..12], true)] else []
  }

  /** A packet from enf0 goes to the host behind the header. */
  function Received(header: Frame, x: Captured): seq<Frame>
  {
    if |x.frame| == x.len then [header + x.frame] else []
  }

  /** What the frames send one after the other. */
  function Each(send: Captured -> seq<Frame>, frames: seq<Captured>): seq<Frame>
  {
    if frames == [] then [] else Each(send, frames[..|frames| - 1]) + send(frames[|frames| - 1])
  }

  /** What one pass sends to enf0. */
  function RoundToNet(r: Round): seq<Frame> { Each(Delivered, r.host) }

  /** What one pass sends to the host: answers, then packets, then the advertisement if it is time. */
  function RoundToHost(header: Frame, r: Round, sends: bool): seq<Frame>
    requires |header| == 14
  {
    Each(x => AnswerTo(header, x), r.host) + Each(x => Received(header, x), r.net) +
    if sends then [header + Advert(ALL_NODES, header[6..12], false)] else []
  }

  lemma {:induction false} CollectIsEach(outs: seq<Option<Frame>>, send: Captured -> seq<Frame>, frames: seq<Captured>)
    requires |outs| == |frames|
    requires forall k :: 0 <= k < |frames| ==> Bridge.ToSeq(outs[k]) == send(frames[k])
    ensures Collect(outs) == Each(send, frames)
  {
    if frames != [] {
      CollectIsEach(outs[..|outs| - 1], send, frames[..|frames| - 1]);
    }
  }

  /** The outputs of the events of a pass are those. */
  lemma RoundOutputs(c: Config, rounds: seq<Round>, i: nat)
    requires IsConfig(c) && c.secure && i < |rounds| && AllAdmissible(c, RoundEvents(rounds, i))
    ensures Collect(NetOuts(c, RoundEvents(rounds, i))) == RoundToNet(rounds[i])
    ensures Collect(HostOuts(c, RoundEvents(rounds, i))) ==
            RoundToHost(c.eHeader, rounds[i], SendsAt(Passes(rounds), i))
  {
    hide NetOuts, HostOuts, AllAdmissible, Collect, Passes, HostEvents, NetEvents, Delivered, AnswerTo, Received;
    hide Advert, SendsAt, Each;
    var sends := SendsAt(Passes(rounds), i);
    var host, net := HostEvents(rounds[i].host), NetEvents(rounds[i].net);
    OutputsAppend(c, host + net, Advertise(sends));
    OutputsAppend(c, host, net);
    FramesFromHost(c, rounds[i].host);
    FramesFromNet(c, rounds[i].net);
    AdvertOutputs(c, sends);
  }

  /** What the first n passes send to enf0, from the frames alone. */
  function RunToNet(rounds: seq<Round>, n: nat): seq<Frame>
    requires n <= |rounds|
  {
    if n == 0 then [] else RunToNet(rounds, n - 1) + RoundToNet(rounds[n - 1])
  }

  /** And to the host, from the frames and the clock. */
  function RunToHost(header: Frame, rounds: seq<Round>, n: nat): seq<Frame>
    requires |header| == 14 && n <= |rounds|
  {
    if n == 0 then []
    else RunToHost(header, rounds, n - 1) + RoundToHost(header, rounds[n - 1], SendsAt(Passes(rounds), n - 1))
  }

  /** Secure mode: the outputs of all the events of a run are what its passes send, one after the other. */
  lemma {:induction false} RunOutputs(c: Config, rounds: seq<Round>, n: nat)
    requires IsConfig(c) && c.secure && n <= |rounds| && AllAdmissible(c, Events(rounds, n))
    ensures Collect(NetOuts(c, Events(rounds, n))) == RunToNet(rounds, n)
    ensures Collect(HostOuts(c, Events(rounds, n))) == RunToHost(c.eHeader, rounds, n)
  {
    hide Collect, NetOuts, HostOuts, AllAdmissible, RoundEvents, RoundToNet, RoundToHost, SendsAt, Passes;
    NothingSent(c);
    if n > 0 {
      AdmissibleParts(c, Events(rounds, n - 1), RoundEvents(rounds, n - 1));
      RunOutputs(c, rounds, n - 1);
      OutputsAppend(c, Events(rounds, n - 1), RoundEvents(rounds, n - 1));
      RoundOutputs(c, rounds, n - 1);
    }
  }

  lemma FramesFromHost(c: Config, frames: seq<Captured>)
    requires IsConfig(c) && c.secure && AllAdmissible(c, HostEvents(frames))
    ensures Collect(NetOuts(c, HostEvents(frames))) == Each(Delivered, frames)
    ensures Collect(HostOuts(c, HostEvents(frames))) == Each(x => AnswerTo(c.eHeader, x), frames)
  {
    hide Collect, Each, Advert, Accepted, NetOut, HostOut;
    var e := HostEvents(frames);
    forall k | 0 <= k < |frames|
      ensures Bridge.ToSeq(NetOut(c, e[k])) == Delivered(frames[k])
      ensures Bridge.ToSeq(HostOut(c, e[k])) == AnswerTo(c.eHeader, frames[k])
    {
      assert Admissible(c, e[k]);
      FromHostOutputs(c, frames[k]);
    }
    CollectIsEach(NetOuts(c, e), Delivered, frames);
    CollectIsEach(HostOuts(c, e), x => AnswerTo(c.eHeader, x), frames);
  }

  lemma FromHostOutputs(c: Config, x: Captured)
    requires IsConfig(c) && c.secure && Admissible(c, FromHost(x.frame, x.len))
    ensures Bridge.ToSeq(NetOut(c, FromHost(x.frame, x.len))) == Delivered(x)
    ensures Bridge.ToSeq(HostOut(c, FromHost(x.frame, x.len))) == AnswerTo(c.eHeader, x)
  {
    var e := FromHost(x.frame, x.len);
    NetOutInOctets(c, e);
    if |x.frame| == x.len && Accepted(x.frame[14..]) {
      AcceptedLength(x.frame[14..]);
      assert x.frame[14..][8..24] == x.frame[22..38];
    }
    hide Advert, Accepted;
  }

  lemma FramesFromNet(c: Config, frames: seq<Captured>)
    requires IsConfig(c) && c.secure && AllAdmissible(c, NetEvents(frames))
    ensures Collect(NetOuts(c, NetEvents(frames))) == []
    ensures Collect(HostOuts(c, NetEvents(frames))) == Each(x => Received(c.eHeader, x), frames)
  {
    hide Collect, Each, Advert, Accepted;
    var e := NetEvents(frames);
    CollectIsEach(NetOuts(c, e), x => [], frames);
    NothingEach(frames);
    CollectIsEach(HostOuts(c, e), x => Received(c.eHeader, x), frames);
  }

  lemma {:induction false} NothingEach(frames: seq<Captured>)
    ensures Each(x => [], frames) == []
  {
    if frames != [] {
      NothingEach(frames[..|frames| - 1]);
    }
  }

  lemma AdvertOutputs(c: Config, sends: bool)
    requires IsConfig(c) && c.secure
    ensures AllAdmissible(c, Advertise(sends)) && Collect(NetOuts(c, Advertise(sends))) == []
    ensures Collect(HostOuts(c, Advertise(sends))) ==
            if sends then [c.eHeader + Advert(ALL_NODES, c.eHeader[6..12], false)] else []
  {
    hide Advert;
    if sends {
      var h := HostOut(c, Unsolicited);
      assert NetOuts(c, [Unsolicited]) == [] + [None] && HostOuts(c, [Unsolicited]) == [] + [h];
      CollectStep<Frame>([], None);
      CollectStep([], h);
    }
    CollectNothing<Frame>();
  }

  /** So the host gets unsolicited advertisements at a bounded rate, and never stops getting them. */
  lemma {:induction false} AdvertRate(rounds: seq<Round>, d: nat)
    requires |rounds| > 0 && Monotonic(Passes(rounds)) && Prompt(Passes(rounds), d)
    requires rounds[0].pass.check > 0 && forall i :: 0 <= i < |rounds| ==> !rounds[i].pass.usr2
    ensures var first, last := rounds[0].pass, rounds[|rounds| - 1].pass;
            var sent := Adverts(Events(rounds, |rounds|));
            && sent <= 1 + (last.after - first.before) / (PERIOD + 1)
            && last.check - first.after <= PERIOD + (sent - 1) * (PERIOD + 1 + 3 * d)
  {
    hide Monotonic, Prompt, Adverts, Events, SendTimes;
    AdvertsAreSends(rounds, |rounds|);
    SendRate(Passes(rounds), d);
  }
}
