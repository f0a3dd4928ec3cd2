/**
 The main loop's advertisement timer. Every pass reads the clock a few times; an unsolicited
 advertisement goes out when SIGUSR2 asked for one or when the clock has passed `na_timeout`.
 Clock readings are whole seconds.
 */
module AdvertTimer {

  const PERIOD := 600

  /** One pass: the readings before `select`, at the check and after the send, and the signal flag at the check. */
  datatype Pass = Pass(before: int, check: int, after: int, usr2: bool)

  function Max(a: int, b: int): int { if a > b then a else b }

  function WaitSeconds(timeout: int, now: int): int { Max(1, timeout - now) }

  predicate Sends(timeout: int, p: Pass) { p.usr2 || p.check > timeout }

  /** A send that SIGUSR2 did not ask for. */
  predicate TimerSends(timeout: int, p: Pass) { !p.usr2 && p.check > timeout }

  /** `na_timeout` after a pass. */
  function NextTimeout(timeout: int, p: Pass): int
  {
    if Sends(timeout, p) then PERIOD + p.after else timeout
  }

  /** `na_timeout` after the first i passes; it starts at 0. */
  function Timeout(passes: seq<Pass>, i: nat): int
    requires i <= |passes|
  {
    if i == 0 then 0 else NextTimeout(Timeout(passes, i - 1), passes[i - 1])
  }

  /** The clock never goes back: within a pass, and from one pass to the next. */
  ghost predicate Monotonic(passes: seq<Pass>)
  {
    (forall i :: 0 <= i < |passes| ==> passes[i].before <= passes[i].check <= passes[i].after) &&
    (forall i, j :: 0 <= i < j < |passes| ==> passes[i].after <= passes[j].before)
  }

  predicate SendsAt(passes: seq<Pass>, i: nat)
    requires i < |passes|
  {
    Sends(Timeout(passes, i), passes[i])
  }

  predicate TimerSendsAt(passes: seq<Pass>, i: nat)
    requires i < |passes|
  {
    TimerSends(Timeout(passes, i), passes[i])
  }

  /** The loop state that survives a pass. */
  class Loop {
    var naTimeout: int
    var na: bool
    var sent: nat

    constructor ()
      ensures naTimeout == 0 && !na && sent == 0
    {
      naTimeout := 0;
      na := false;
      sent := 0;
    }

    /** One turn of `while (!quit)`, frames aside. The wait is what `select` is given. */
    method Turn(p: Pass) returns (wait: int, sends: bool)
      modifies this
      ensures wait == WaitSeconds(old(naTimeout), p.before)
      ensures wait >= 1 && p.before + wait == Max(p.before + 1, old(naTimeout))
      ensures sends <==> old(na) || p.usr2 || p.check > old(naTimeout)
      ensures naTimeout == if sends then 600 + p.after else old(naTimeout)
      ensures sends == Sends(old(naTimeout), p.(usr2 := old(na) || p.usr2))
      ensures naTimeout == NextTimeout(old(naTimeout), p.(usr2 := old(na) || p.usr2)) && !na
      ensures sent == old(sent) + if sends then 1 else 0
    {
      wait := Max(1, naTimeout - p.before);
      na := na || p.usr2;
      sends := na || p.check > naTimeout;
      if sends {
        sent := sent + 1;
        na := false;
        naTimeout := PERIOD + p.after;
      }
    }

    method Run(passes: seq<Pass>)
      requires naTimeout == 0 && !na && sent == 0
      modifies this
      ensures naTimeout == Timeout(passes, |passes|)
      ensures sent == |SendTimes(passes, |passes|)|
    {
      for i := 0 to |passes|
        invariant naTimeout == Timeout(passes, i) && !na
        invariant sent == |SendTimes(passes, i)|
      {
        var _, _ := Turn(passes[i]);
      }
    }
  }

  /** The passes among the first n that send, in order. */
  function SendTimes(passes: seq<Pass>, n: nat): seq<nat>
    requires n <= |passes|
  {
    if n == 0 then []
    else SendTimes(passes, n - 1) + if SendsAt(passes, n - 1) then [n - 1] else []
  }

  /** `select` waits until the later of one second from now and the timeout, no less and no more. */
  lemma WaitIsExact(timeout: int, now: int)
    ensures now + WaitSeconds(timeout, now) == if timeout > now + 1 then timeout else now + 1
  {
  }

  /** A pass sends exactly when SIGUSR2 asked for it or more than a period has passed since the last send. */
  lemma {:induction false} SendsExactly(passes: seq<Pass>, i: nat, j: nat)
    requires i < j < |passes| && SendsAt(passes, i)
    requires forall k :: i < k < j ==> !SendsAt(passes, k)
    ensures SendsAt(passes, j) <==> passes[j].usr2 || passes[j].check > passes[i].after + 600
  {
    TimeoutStays(passes, i, j);
  }

  lemma {:induction false} TimeoutStays(passes: seq<Pass>, i: nat, j: nat)
    requires i < j <= |passes| && SendsAt(passes, i)
    requires forall k :: i < k < j ==> !SendsAt(passes, k)
    ensures Timeout(passes, j) == passes[i].after + 600
  {
    if j > i + 1 {
      TimeoutStays(passes, i, j - 1);
      assert !SendsAt(passes, j - 1);
    }
  }

  /** Once something was sent at pass i, the timeout stays at or above that send plus the period. */
  lemma {:induction false} TimeoutAfterSend(passes: seq<Pass>, i: nat, j: nat)
    requires Monotonic(passes) && i < j <= |passes| && SendsAt(passes, i)
    ensures Timeout(passes, j) >= PERIOD + passes[i].after
  {
    if j > i + 1 {
      TimeoutAfterSend(passes, i, j - 1);
    }
  }

  /** A timer send comes at least 601 whole seconds after any earlier send, timer or signal. */
  lemma TimerSendsAreSpaced(passes: seq<Pass>, i: nat, j: nat)
    requires Monotonic(passes) && i < j < |passes|
    requires SendsAt(passes, i) && TimerSendsAt(passes, j)
    ensures passes[j].check >= passes[i].after + PERIOD + 1
  {
    TimeoutAfterSend(passes, i, j);
  }

  /** Timer sends at the given passes of a run. */
  ghost predicate TimerSendsAtAll(passes: seq<Pass>, at: seq<nat>)
  {
    (forall k :: 0 <= k < |at| ==> at[k] < |passes| && TimerSendsAt(passes, at[k])) &&
    (forall j, k :: 0 <= j < k < |at| ==> at[j] < at[k])
  }

  /** n timer sends take at least 601 (n - 1) seconds: a run of T seconds has at most 1 + T / 601. */
  lemma {:induction false} TimerSendsAreFew(passes: seq<Pass>, at: seq<nat>)
    requires Monotonic(passes) && TimerSendsAtAll(passes, at) && |at| > 0
    ensures passes[at[|at| - 1]].check - passes[at[0]].check >= (PERIOD + 1) * (|at| - 1)
    ensures |at| <= 1 + (passes[|passes| - 1].after - passes[0].before) / (PERIOD + 1)
  {
    var n := |at| - 1;
    TimerSendsSpread(passes, at);
    var first, last := passes[at[0]], passes[at[n]];
    assert passes[0].before <= first.check;
    assert last.check <= passes[|passes| - 1].after;
  }

  lemma {:induction false} TimerSendsSpread(passes: seq<Pass>, at: seq<nat>)
    requires Monotonic(passes) && TimerSendsAtAll(passes, at) && |at| > 0
    ensures passes[at[|at| - 1]].check - passes[at[0]].check >= (PERIOD + 1) * (|at| - 1)
  {
    var n := |at| - 1;
    if n > 0 {
      TimerSendsSpread(passes, at[..n]);
      assert SendsAt(passes, at[n - 1]);
      TimerSendsAreSpaced(passes, at[n - 1], at[n]);
    }
  }

  // Advertisements keep coming.

  /**
   No part of a pass is held up by more than d seconds: the return of `select` after its timeout,
   the send, and the start of the next pass.
   */
  ghost predicate Prompt(passes: seq<Pass>, d: nat)
  {
    forall i :: 0 <= i < |passes| ==> PromptAt(passes, d, i)
  }

  predicate PromptAt(passes: seq<Pass>, d: nat, i: nat)
    requires i < |passes|
  {
    passes[i].check <= passes[i].before + WaitSeconds(Timeout(passes, i), passes[i].before) + d &&
    passes[i].after <= passes[i].check + d &&
    (i > 0 ==> passes[i].before <= LastReading(passes, i - 1) + d)
  }

  /** A pass that sends nothing does not read the clock after the check. */
  function LastReading(passes: seq<Pass>, i: nat): int
    requires i < |passes|
  {
    if SendsAt(passes, i) then passes[i].after else passes[i].check
  }

  /** The very first pass sends, unless the clock stands at the epoch and nobody asks. */
  lemma FirstPassSends(passes: seq<Pass>)
    requires |passes| > 0
    ensures SendsAt(passes, 0) <==> passes[0].usr2 || passes[0].check > 0
  {
  }

  /** A prompt pass reads the clock soon after the timeout at the latest. */
  lemma CheckIsSoon(passes: seq<Pass>, d: nat, k: nat)
    requires Prompt(passes, d) && 0 < k < |passes|
    ensures passes[k].check <= Timeout(passes, k) + 1 + 2 * d
    ensures passes[k].after <= Timeout(passes, k) + 1 + 3 * d
  {
    assert PromptAt(passes, d, k);
  }

  /** Once the clock is more than a period past a send, the next one has come, at most 2d + 1 seconds late. */
  lemma {:induction false} NextSend(passes: seq<Pass>, d: nat, i: nat, j: nat) returns (k: nat)
    requires Prompt(passes, d) && i < j < |passes|
    requires SendsAt(passes, i) && passes[j].check > passes[i].after + PERIOD
    ensures i < k <= j && SendsAt(passes, k)
    ensures passes[k].check <= passes[i].after + PERIOD + 1 + 2 * d
  {
    k := i + 1;
    while !SendsAt(passes, k)
      invariant i < k <= j
      invariant Timeout(passes, k) == PERIOD + passes[i].after
      decreases j - k
    {
      k := k + 1;
    }
    CheckIsSoon(passes, d, k);
  }

  /** In a prompt run the timeout moves on by at most 601 + 3d seconds a send. */
  lemma {:induction false} TimeoutGrowth(passes: seq<Pass>, d: nat, n: nat)
    requires Prompt(passes, d) && 0 < n <= |passes| && SendsAt(passes, 0)
    ensures |SendTimes(passes, n)| >= 1
    ensures Timeout(passes, n) <=
            passes[0].after + PERIOD + (|SendTimes(passes, n)| - 1) * (PERIOD + 1 + 3 * d)
  {
    if n > 1 {
      TimeoutGrowth(passes, d, n - 1);
      CheckIsSoon(passes, d, n - 1);
      var step, sent := PERIOD + 1 + 3 * d, |SendTimes(passes, n - 1)|;
      if SendsAt(passes, n - 1) {
        assert sent * step == (sent - 1) * step + step;
      }
    }
  }

  /** So the sends of a prompt run come, on average, at most 601 + 3d seconds apart. */
  lemma SendsAreMany(passes: seq<Pass>, d: nat, n: nat)
    requires Monotonic(passes) && Prompt(passes, d) && n < |passes| && SendsAt(passes, 0)
    ensures passes[n].check - passes[0].after
         <= PERIOD + (|SendTimes(passes, n + 1)| - 1) * (PERIOD + 1 + 3 * d)
  {
    TimeoutGrowth(passes, d, n + 1);
    assert passes[n].check <= Timeout(passes, n + 1);
  }

  lemma {:induction false} SendTimesAreSends(passes: seq<Pass>, n: nat)
    requires n <= |passes|
    ensures forall k :: 0 <= k < |SendTimes(passes, n)| ==>
              SendTimes(passes, n)[k] < n && SendsAt(passes, SendTimes(passes, n)[k])
    ensures forall j, k :: 0 <= j < k < |SendTimes(passes, n)| ==>
              SendTimes(passes, n)[j] < SendTimes(passes, n)[k]
  {
    hide SendsAt;
    if n > 0 {
      SendTimesAreSends(passes, n - 1);
    }
  }

  /** Without SIGUSR2, the number of sends in a prompt run is bounded on both sides. */
  lemma SendRate(passes: seq<Pass>, d: nat)
    requires Monotonic(passes) && Prompt(passes, d) && |passes| > 0 && passes[0].check > 0
    requires forall i :: 0 <= i < |passes| ==> !passes[i].usr2
    ensures var sent, last := |SendTimes(passes, |passes|)|, passes[|passes| - 1];
            && sent <= 1 + (last.after - passes[0].before) / (PERIOD + 1)
            && last.check - passes[0].after <= PERIOD + (sent - 1) * (PERIOD + 1 + 3 * d)
  {
    hide Prompt;
    FirstPassSends(passes);
    TimeoutGrowth(passes, d, |passes|);
    SendTimesAreSends(passes, |passes|);
    TimerSendsAreFew(passes, SendTimes(passes, |passes|));
    SendsAreMany(passes, d, |passes| - 1);
  }
}
