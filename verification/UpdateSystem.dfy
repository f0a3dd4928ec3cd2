/**
 The daemon together with its environment: the forked mender processes, the boot variables,
 SIGCHLD and reboot. Handlers and the SIGCHLD callback run one at a time on the event loop; the
 steps of a child come in between, and mender may also set the boot variables between the two
 commands of one reading. Mender sets both variables together, before it exits.
 */
module UpdateSystem {
  import opened Options
  import opened FirmwareManager

  /** An install child that has not been reaped. */
  datatype Child = Running | Done | Ended

  datatype System = System(m: Manager, children: map<int, Child>, boot: Boot)

  /**
   How `firmware_state` finds the two variables: one is unreadable, or both are as they stand, or
   mender, as process `pid`, sets them after `bootcount` was read and before `upgrade_available` is.
   */
  datatype Reading = Unreadable | Snapshot | Torn(pid: int)

  /** The steps of the system, with what the environment decides. */
  datatype Step =
    | Get(reading: Reading)
    | PutStep(reading: Reading, body: Body, fork: int, added: bool)
    | CommitStep(reading: Reading, result: int)
    | Sigchld
    | MenderInstalls(pid: int)
    | MenderExits(pid: int)
    | Reboot(next: Boot)

  /** What the reading returns. */
  function Env(s: System, reading: Reading): Option<Boot>
  {
    match reading
    case Unreadable => None
    case Snapshot => Some(s.boot)
    case Torn(_) => Some(Boot(s.boot.bootcount, Installed(s, reading.pid).boot.upgradeAvailable))
  }

  /** Mender has written the image and makes it the one to boot next. */
  function Installed(s: System, pid: int): System
  {
    s.(children := s.children[pid := Done], boot := Boot(0, true))
  }

  /** The system when a reading is over. */
  function AfterReading(s: System, reading: Reading): System
  {
    if reading.Torn? then Installed(s, reading.pid) else s
  }

  predicate CanInstall(s: System, pid: int) { pid in s.children && s.children[pid] == Running }

  function ReadingOf(step: Step): Reading
  {
    if step.Get? || step.PutStep? || step.CommitStep? then step.reading else Unreadable
  }

  /** What `waitid(P_PID, child_pid_, WNOHANG | WEXITED)` answers. */
  function WaitFor(s: System): Wait
  {
    if s.m.childPid !in s.children then WaitError
    else if s.children[s.m.childPid] == Ended then Reaped(ExitedWith(0))
    else NoChange
  }

  /** A fork does not reuse the pid of a process that still exists; the callback needs a pending event. */
  predicate Enabled(s: System, step: Step)
  {
    (ReadingOf(step).Torn? ==> CanInstall(s, ReadingOf(step).pid)) &&
    match step
    case PutStep(_, _, fork, _) => fork < 0 || (fork > 0 && fork !in s.children)
    case Sigchld => s.m.event == Added
    case MenderInstalls(pid) => CanInstall(s, pid)
    case MenderExits(pid) => pid in s.children && s.children[pid] != Ended
    case _ => true
  }

  /** A put that gets as far as a successful fork. */
  predicate Forks(s: System, step: Step)
  {
    step.PutStep? && step.fork > 0 && PutCheck(s.m, Env(s, step.reading), step.body).1 == Ok
  }

  /** A commit whose command ran and succeeded clears `upgrade_available`. */
  predicate Commits(s: System, step: Step)
  {
    step.CommitStep? && step.result == 0 && CommitCheck(s.m, Env(s, step.reading)).1
  }

  /** The closing `get` of put and commit is a step of its own, so that children can move before it. */
  function Apply(s: System, step: Step): System
    requires Enabled(s, step)
  {
    match step
    case Get(reading) =>
      AfterReading(s, reading).(m := FirmwareState(s.m, Env(s, reading)).0)
    case PutStep(reading, body, fork, added) =>
      var m1 := PutCheck(s.m, Env(s, reading), body).0;
      var t := AfterReading(s, reading);
      if !Forks(s, step) then t.(m := m1)
      else t.(m := Download(m1, Answers(fork, added, 0)).0, children := t.children[fork := Running])
    case CommitStep(reading, result) =>
      var m1 := CommitCheck(s.m, Env(s, reading)).0;
      var t := AfterReading(s, reading);
      t.(m := m1, boot := if Commits(s, step) then t.boot.(upgradeAvailable := false) else t.boot)
    case Sigchld =>
      s.(m := OnSigchld(s.m, WaitFor(s)),
         children := if WaitFor(s).Reaped? then s.children - {s.m.childPid} else s.children)
    case MenderInstalls(pid) =>
      Installed(s, pid)
    case MenderExits(pid) =>
      s.(children := s.children[pid := Ended])
    case Reboot(next) =>
      System(STARTED, map[], next)
  }

  predicate Initial(s: System) { s.m == STARTED && s.children == map[] }

  /** The states of a run: `states[0]` is initial and step i leads from state i to state i + 1. */
  ghost predicate IsRun(states: seq<System>, steps: seq<Step>)
  {
    |states| == |steps| + 1 && Initial(states[0]) &&
    forall i :: 0 <= i < |steps| ==> Leads(states[i], steps[i], states[i + 1])
  }

  ghost predicate Leads(s: System, step: Step, t: System)
  {
    Enabled(s, step) && t == Apply(s, step)
  }

  // The invariant.

  ghost predicate Inv(s: System)
  {
    // at most one child, and it is the one the manager waits for
    (forall pid :: pid in s.children ==> pid == s.m.childPid) &&
    // an unreaped child is visible: a download, or a finished one waiting for the reboot
    (s.children != map[] ==> s.m.downloading || Report(false, s.boot) == Downloaded) &&
    (s.children != map[] && s.boot.upgradeAvailable ==> s.boot.bootcount == 0) &&
    // only the child itself makes the upgrade available
    (s.boot.upgradeAvailable ==> forall pid :: pid in s.children ==> s.children[pid] != Running) &&
    // a download has a child, and so has an event
    (s.m.downloading ==> s.m.childPid in s.children) &&
    (s.m.event != NoEvent <==> s.m.childPid in s.children)
  }

  lemma InitialHasInv(s: System)
    requires Initial(s)
    ensures Inv(s)
  {
  }

  lemma NoChildren(s: System)
    requires Inv(s) && s.m.childPid !in s.children
    ensures s.children == map[]
  {
    assert forall pid :: pid !in s.children;
  }

  /**
   The one dangerous step: mender sets the variables within the reading of a commit, the value of
   `bootcount` already read was not 0, and the commit command succeeds.
   */
  predicate Harmful(s: System, step: Step)
  {
    step.CommitStep? && step.reading.Torn? && step.result == 0 && s.boot.bootcount != 0
  }

  lemma StepKeepsInv(s: System, step: Step)
    requires Inv(s) && Enabled(s, step) && !Harmful(s, step)
    ensures Inv(Apply(s, step))
  {
    var t := Apply(s, step);
    match step
    case PutStep(_, _, _, _) =>
      if Forks(s, step) {
        NoChildren(s);
      }
    case Sigchld =>
      if WaitFor(s).Reaped? {
        assert forall pid :: pid !in t.children;
      }
    case _ =>
  }

  /** No harmful step among the first n. */
  ghost predicate Harmless(states: seq<System>, steps: seq<Step>, n: nat)
    requires |states| == |steps| + 1 && n <= |steps|
  {
    forall i :: 0 <= i < n ==> !Harmful(states[i], steps[i])
  }

  lemma {:induction false} RunKeepsInv(states: seq<System>, steps: seq<Step>, i: nat)
    requires IsRun(states, steps) && i < |states| && Harmless(states, steps, i)
    ensures Inv(states[i])
  {
    if i == 0 {
      InitialHasInv(states[0]);
    } else {
      RunKeepsInv(states, steps, i - 1);
      assert Leads(states[i - 1], steps[i - 1], states[i]);
      assert !Harmful(states[i - 1], steps[i - 1]);
      StepKeepsInv(states[i - 1], steps[i - 1]);
    }
  }

  // Safety over whole runs.

  /**
   As long as no step was harmful, at most one install child exists, and a fork happens only when
   every earlier one was reaped. `ExclusionExactly` shows that nothing weaker is enough.
   */
  lemma OneInstallAtATime(states: seq<System>, steps: seq<Step>, i: nat)
    requires IsRun(states, steps) && i < |steps| && Harmless(states, steps, i)
    ensures |states[i].children| <= 1
    ensures Forks(states[i], steps[i]) ==>
              states[i].children == map[] && states[i + 1].children == map[steps[i].fork := Running]
  {
    var s := states[i];
    RunKeepsInv(states, steps, i);
    AtMostOne(s);
    assert Leads(s, steps[i], states[i + 1]);
    if Forks(s, steps[i]) {
      NoChildren(s);
    }
  }

  lemma AtMostOne(s: System)
    requires Inv(s)
    ensures |s.children| <= 1
  {
    if s.m.childPid in s.children {
      forall pid | pid in s.children.Keys
        ensures pid == s.m.childPid
      {
        assert pid in s.children;
      }
      assert s.children.Keys == {s.m.childPid};
    } else {
      NoChildren(s);
    }
  }

  /** A pending event belongs to a child that exists; this needs no condition on the steps. */
  lemma {:induction false} EventHasChild(states: seq<System>, steps: seq<Step>, i: nat)
    requires IsRun(states, steps) && i < |states|
    ensures states[i].m.event != NoEvent ==> states[i].m.childPid in states[i].children
  {
    if i > 0 {
      EventHasChild(states, steps, i - 1);
      assert Leads(states[i - 1], steps[i - 1], states[i]);
    }
  }

  /** Whenever the callback runs, in any run, its child exists: the branch for an error of waitid is never taken. */
  lemma WaitNeverFails(states: seq<System>, steps: seq<Step>, i: nat)
    requires IsRun(states, steps) && i < |steps| && steps[i] == Sigchld
    ensures WaitFor(states[i]) != WaitError
  {
    EventHasChild(states, steps, i);
    assert Leads(states[i], steps[i], states[i + 1]);
  }

  /** A SIGCHLD that is not mender's exit changes nothing; one after it, whoever raised it, ends the download. */
  lemma SigchldIsExact(states: seq<System>, steps: seq<Step>, i: nat)
    requires IsRun(states, steps) && i < |steps| && steps[i] == Sigchld
    ensures var s, t := states[i], states[i + 1];
            && s.m.childPid in s.children
            && (s.children[s.m.childPid] != Ended ==> t == s)
            && (s.children[s.m.childPid] == Ended ==>
                t == System(Manager(false, s.m.childPid, NoEvent), s.children - {s.m.childPid}, s.boot))
            && (s.children[s.m.childPid] == Ended && Harmless(states, steps, i) ==> t.children == map[])
  {
    var s, t := states[i], states[i + 1];
    EventHasChild(states, steps, i);
    assert Leads(s, steps[i], t);
    if s.children[s.m.childPid] == Ended && Harmless(states, steps, i) {
      RunKeepsInv(states, steps, i);
      StepKeepsInv(s, steps[i]);
      NoChildren(t);
    }
  }

  // The life cycle a client sees.

  function Shown(s: System): Label { Report(s.m.downloading, s.boot) }

  /** Which steps take the reported state from one value to another; all others leave it alone. */
  predicate Edge(s: System, step: Step, before: Label, after: Label)
  {
    if Harmful(s, step) then before == Downloading && after == Normal
    else if ReadingOf(step).Torn? then before == Downloading && after == Downloaded
    else
    match step
    case Reboot(_) => true
    case PutStep(_, _, _, _) =>
      if Forks(s, step) then before == Normal && after == Downloading else after == before
    case CommitStep(_, _) =>
      if Commits(s, step) then before in {Normal, Uncommitted} && after == Normal else after == before
    case Sigchld =>
      after == if before == Downloading && WaitFor(s).Reaped? then Normal else before
    case MenderInstalls(_) => before == Downloading && after == Downloaded
    case _ => after == before
  }

  /** Every step of every run follows an edge of the update cycle. */
  lemma LifeCycle(states: seq<System>, steps: seq<Step>, i: nat)
    requires IsRun(states, steps) && i < |steps| && Harmless(states, steps, i)
    ensures Edge(states[i], steps[i], Shown(states[i]), Shown(states[i + 1]))
  {
    var s := states[i];
    RunKeepsInv(states, steps, i);
    assert Leads(s, steps[i], states[i + 1]);
    if s.m.childPid !in s.children {
      NoChildren(s);
    }
  }

  ghost predicate NoReboot(steps: seq<Step>, i: nat, j: nat)
    requires i <= j <= |steps|
  {
    forall k :: i <= k < j ==> !steps[k].Reboot?
  }

  /** A downloaded image stays downloaded until the reboot: no put, commit or signal can lose it. */
  lemma {:induction false} DownloadedUntilReboot(states: seq<System>, steps: seq<Step>, i: nat, j: nat)
    requires IsRun(states, steps) && i <= j <= |steps| && NoReboot(steps, i, j)
    requires Harmless(states, steps, j)
    requires Shown(states[i]) == Downloaded
    ensures Shown(states[j]) == Downloaded
  {
    if i < j {
      DownloadedUntilReboot(states, steps, i, j - 1);
      LifeCycle(states, steps, j - 1);
    }
  }

  /**
   A lost event is fatal until the reboot: once `event_add` has failed, no install can start any
   more, although put answered with an error only once.
   */
  lemma {:induction false} LostEventBlocks(states: seq<System>, steps: seq<Step>, i: nat, j: nat)
    requires IsRun(states, steps) && i <= j <= |steps| && NoReboot(steps, i, j)
    requires Harmless(states, steps, j)
    requires states[i].m.event == NotAdded
    ensures states[j].m.event == NotAdded && Shown(states[j]) in {Downloading, Downloaded}
    ensures j < |steps| ==> !Forks(states[j], steps[j])
  {
    RunKeepsInv(states, steps, j);
    if i < j {
      LostEventBlocks(states, steps, i, j - 1);
      assert Leads(states[j - 1], steps[j - 1], states[j]);
      assert !steps[j - 1].Reboot?;
    }
    assert Shown(states[j]) in {Downloading, Downloaded};
  }

  /** When a put forks and a commit takes effect, from the state and the choices of the environment alone. */
  lemma EffectsInInputs(s: System, step: Step)
    requires Enabled(s, step)
    ensures Forks(s, step) <==>
              step.PutStep? && step.fork > 0 && step.body.Uri? && step.reading == Snapshot &&
              !s.boot.upgradeAvailable && !s.m.downloading
    ensures Commits(s, step) <==>
              step.CommitStep? && step.result == 0 && step.reading != Unreadable &&
              (if s.boot.upgradeAvailable || step.reading.Torn? then s.boot.bootcount != 0 else !s.m.downloading)
    ensures Shown(s) == Normal <==> !s.boot.upgradeAvailable && !s.m.downloading
    ensures Shown(s) == Downloading <==> !s.boot.upgradeAvailable && s.m.downloading
    ensures Shown(s) == Downloaded <==> s.boot.upgradeAvailable && s.boot.bootcount == 0
    ensures Shown(s) == Uncommitted <==> s.boot.upgradeAvailable && s.boot.bootcount != 0
  {
  }

  // The handlers of the daemon are these steps.

  /** `firmware::put` is the put step followed, on success, by a reading; children may move in between. */
  lemma PutIsPutThenGet(s: System, reading: Reading, body: Body, fork: int, added: bool,
                        mender: int, after: Option<Boot>)
    requires Enabled(s, PutStep(reading, body, fork, added))
    ensures var t := Apply(s, PutStep(reading, body, fork, added));
            var (m, status) := Put(s.m, Env(s, reading), body, Answers(fork, added, mender), after);
            && m == (if status == Ok then FirmwareState(t.m, after).0 else t.m)
            && (status == Ok <==> Forks(s, PutStep(reading, body, fork, added)) && added)
  {
  }

  lemma CommitIsCommitThenGet(s: System, reading: Reading, result: int, after: Option<Boot>)
    requires Enabled(s, CommitStep(reading, result))
    ensures var t := Apply(s, CommitStep(reading, result));
            var (m, status) := Commit(s.m, Env(s, reading), result, after);
            && m == (if status == Ok then FirmwareState(t.m, after).0 else t.m)
            && (status == Ok <==> Commits(s, CommitStep(reading, result)))
  {
  }

  // Exactly when two installs can overlap.

  /** A fork while another install child is still unreaped. */
  predicate ForksBeside(s: System, step: Step)
  {
    Enabled(s, step) && Forks(s, step) && s.children != map[]
  }

  ghost predicate CanForkBeside(s: System) { exists step :: ForksBeside(s, step) }

  /** The next put, whatever its URI. */
  function NextPut(uri: string, fork: int): Step { PutStep(Snapshot, Uri(uri), fork, true) }

  /** A harmful commit makes the state look normal while mender is still there. */
  lemma HarmfulLetsFork(s: System, step: Step, uri: string, fork: int)
    requires Inv(s) && Enabled(s, step) && Harmful(s, step)
    requires fork > 0 && fork !in s.children
    ensures var t := Apply(s, step);
            && ForksBeside(t, NextPut(uri, fork))
            && {step.reading.pid, fork} <= Apply(t, NextPut(uri, fork)).children.Keys
  {
    assert step.reading.pid in Apply(s, step).children;
  }

  /** From a sound state a step breaks exclusion if and only if it is harmful. */
  lemma HarmfulIff(s: System, step: Step)
    requires Inv(s) && Enabled(s, step)
    ensures Harmful(s, step) <==> !Inv(Apply(s, step))
    ensures Harmful(s, step) <==> CanForkBeside(Apply(s, step))
  {
    var t := Apply(s, step);
    if Harmful(s, step) {
      var other := if s.m.childPid > 0 then s.m.childPid + 1 else 1;
      HarmfulLetsFork(s, step, "", other);
      assert ForksBeside(t, NextPut("", other));
    } else {
      StepKeepsInv(s, step);
      forall next | Enabled(t, next) && Forks(t, next)
        ensures t.children == map[]
      {
        NoChildren(t);
      }
    }
  }

  /**
   In every run, after steps none of which was harmful, the next step makes an overlapping fork
   possible if and only if it is harmful itself: `Harmless` is the exact condition of
   `OneInstallAtATime`.
   */
  lemma ExclusionExactly(states: seq<System>, steps: seq<Step>, i: nat)
    requires IsRun(states, steps) && i < |steps| && Harmless(states, steps, i)
    ensures Harmful(states[i], steps[i]) <==> CanForkBeside(states[i + 1])
  {
    RunKeepsInv(states, steps, i);
    assert Leads(states[i], steps[i], states[i + 1]);
    HarmfulIff(states[i], steps[i]);
  }

  /** If mender only ever runs while `bootcount` is 0, no reading does harm. */
  lemma ZeroBootcountIsHarmless(states: seq<System>, steps: seq<Step>)
    requires IsRun(states, steps)
    requires forall i :: 0 <= i < |states| && states[i].children != map[] ==> states[i].boot.bootcount == 0
    ensures Harmless(states, steps, |steps|)
  {
    forall i | 0 <= i < |steps|
      ensures !Harmful(states[i], steps[i])
    {
      assert Leads(states[i], steps[i], states[i + 1]);
    }
  }

  /** The steps of the shortest failing run: install, a commit whose reading is torn, install again. */
  function OverlapSteps(first: int, second: int): seq<Step>
  {
    [NextPut("a", first), CommitStep(Torn(first), 0), NextPut("b", second)]
  }

  /** Such a run exists: it starts with `bootcount` 1 and ends with two install children. */
  lemma OverlapIsReachable(first: int, second: int) returns (states: seq<System>)
    requires first > 0 && second > 0 && first != second
    ensures IsRun(states, OverlapSteps(first, second))
    ensures states[0].boot == Boot(1, false)
    ensures states[3].children == map[first := Done, second := Running]
    ensures states[3].m == Manager(true, second, Added)
  {
    var steps := OverlapSteps(first, second);
    var s0 := System(STARTED, map[], Boot(1, false));
    var s1 := Apply(s0, steps[0]);
    var s2 := Apply(s1, steps[1]);
    var s3 := Apply(s2, steps[2]);
    states := [s0, s1, s2, s3];
    assert s2.children == map[first := Done];
    assert Leads(s0, steps[0], s1) && Leads(s1, steps[1], s2) && Leads(s2, steps[2], s3);
  }
}
