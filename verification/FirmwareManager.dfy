/**
 The daemon's side of a firmware update: `firmware_manager`, `firmware::put` and
 `firmware_commit::put`. What the operating system answers (the boot variables, fork, event_add,
 waitid, exit codes) comes in as parameters. Every method is tied to a function on the three
 fields that matter, and the functions are what the run-level results are about.
 */
module FirmwareManager {
  import opened Options

  datatype Label = Normal | Downloading | Downloaded | Uncommitted

  /** `bootcount` and `upgrade_available` as one reading returns them. */
  datatype Boot = Boot(bootcount: int, upgradeAvailable: bool)

  /** `child_event_`: none, made but refused by `event_add`, or pending. */
  datatype ChildEvent = NoEvent | NotAdded | Added

  /** How a child ended, from `si_code` and `si_status`. */
  datatype End = Killed | ExitedWith(code: int) | Unexpected

  /** `waitid` on the child: an error, nothing to report, or the child reaped. */
  datatype Wait = WaitError | NoChange | Reaped(end: End)

  datatype Body = NotAnObject | NoUri | UriNotAString | Uri(uri: string)

  /** The answer to a request; the forked child, which returns from no handler, gives none. */
  datatype Status = Ok | BadRequest | InternalError | NoReply

  /** How `download` ends: it returns to put, or the process is the child and exits with mender's code. */
  datatype Outcome = Returned(id: int) | Exited(code: int)

  const MENDER_INSTALL := "/bin/mender -install"

  /**
   What the system calls of one `download` return: fork (0 in the child), whether `event_add`
   succeeded, and in the child the exit code of the command.
   */
  datatype Answers = Answers(fork: int, added: bool, mender: int)

  datatype Manager = Manager(downloading: bool, childPid: int, event: ChildEvent)

  const STARTED: Manager := Manager(false, -1, NoEvent)

  /** The state a reading reports. */
  function Report(downloading: bool, b: Boot): Label
  {
    if b.upgradeAvailable then (if b.bootcount == 0 then Downloaded else Uncommitted)
    else if downloading then Downloading
    else Normal
  }

  /** `firmware_state`: an unreadable variable gives no answer; an available upgrade ends the download. */
  function FirmwareState(m: Manager, env: Option<Boot>): (r: (Manager, Option<Label>))
  {
    match env
    case None => (m, None)
    case Some(b) =>
      (m.(downloading := m.downloading && !b.upgradeAvailable), Some(Report(m.downloading, b)))
  }

  /** `download`. */
  function Download(m: Manager, os: Answers): (Manager, Outcome)
  {
    if os.fork < 0 then (m, Returned(os.fork))
    else if os.fork == 0 then (m, Exited(os.mender))
    else (Manager(true, os.fork, if os.added then Added else NotAdded), Returned(if os.added then os.fork else -1))
  }

  /** The SIGCHLD callback. */
  function OnSigchld(m: Manager, wait: Wait): Manager
  {
    if wait.Reaped? then m.(downloading := false, event := NoEvent) else m
  }

  /** `firmware::put` up to the fork: whether the request is accepted, and the refusal. */
  function PutCheck(m: Manager, env: Option<Boot>, body: Body): (r: (Manager, Status))
  {
    var (m', state) := FirmwareState(m, env);
    if state == None then (m', InternalError)
    else if state.value != Normal then (m', BadRequest)
    else if !body.Uri? then (m', BadRequest)
    else (m', Ok)
  }

  /** All of `firmware::put`; `after` is what the closing `get` reads. */
  function Put(m: Manager, env: Option<Boot>, body: Body, os: Answers, after: Option<Boot>): (Manager, Status)
  {
    var (m1, status) := PutCheck(m, env, body);
    if status != Ok then (m1, status)
    else
      var (m2, outcome) := Download(m1, os);
      if outcome.Exited? then (m2, NoReply)
      else if outcome.id <= 0 then (m2, InternalError)
      else (FirmwareState(m2, after).0, Ok)
  }

  /** Whether `firmware_commit::put` gets as far as running the commit command. */
  function CommitCheck(m: Manager, env: Option<Boot>): (Manager, bool)
  {
    var (m', state) := FirmwareState(m, env);
    (m', state == Some(Normal) || state == Some(Uncommitted))
  }

  function Commit(m: Manager, env: Option<Boot>, result: int, after: Option<Boot>): (Manager, Status)
  {
    var (m1, run) := CommitCheck(m, env);
    if !run then (m1, BadRequest)
    else if result == 0 then (FirmwareState(m1, after).0, Ok)
    else (m1, InternalError)
  }

  class FirmwareManager {
    var downloading: bool
    var childPid: int
    var childEvent: ChildEvent
    var debugMsg: Option<End>
    var executed: seq<string>

    ghost function State(): Manager
      reads this
    {
      Manager(downloading, childPid, childEvent)
    }

    constructor ()
      ensures State() == STARTED && executed == []
    {
      downloading := false;
      childEvent := NoEvent;
      childPid := -1;
      debugMsg := None;
      executed := [];
    }

    method ReadFirmwareState(bootcount: Option<int>, upgradeAvailable: Option<bool>) returns (r: Option<Label>)
      modifies this`downloading
      ensures var env := if bootcount.Some? && upgradeAvailable.Some?
                         then Some(Boot(bootcount.value, upgradeAvailable.value)) else None;
              (State(), r) == FirmwareState(old(State()), env)
      ensures r == None <==> bootcount == None || upgradeAvailable == None
      ensures r == Some(Downloaded) <==> bootcount == Some(0) && upgradeAvailable == Some(true)
      ensures r == Some(Uncommitted) <==>
                bootcount.Some? && bootcount.value != 0 && upgradeAvailable == Some(true)
      ensures r == Some(Downloading) <==> bootcount.Some? && upgradeAvailable == Some(false) && old(downloading)
      ensures r == Some(Normal) <==> bootcount.Some? && upgradeAvailable == Some(false) && !old(downloading)
      // the flag is cleared when an upgrade is found, and never set
      ensures downloading <==> old(downloading) && !(bootcount.Some? && upgradeAvailable == Some(true))
    {
      if bootcount.None? || upgradeAvailable.None? {
        return None;
      }
      if upgradeAvailable.value {
        downloading := false;
        if bootcount.value == 0 {
          return Some(Downloaded);
        } else {
          return Some(Uncommitted);
        }
      }
      if downloading {
        return Some(Downloading);
      }
      return Some(Normal);
    }

    method StartDownload(uri: string, os: Answers) returns (outcome: Outcome)
      modifies this`downloading, this`childPid, this`childEvent, this`executed
      ensures (State(), outcome) == Download(old(State()), os)
      // a positive id: there is a child, and it is waited for
      ensures outcome.Returned? && outcome.id > 0 ==>
                downloading && childPid == outcome.id == os.fork && childEvent == Added
      // any other: there is none, or nobody will wait for it
      ensures outcome.Returned? && outcome.id <= 0 ==>
                (os.fork < 0 && State() == old(State())) || (os.fork > 0 && childEvent == NotAdded)
      // only the child runs mender
      ensures executed == old(executed) + if outcome.Exited? then [MENDER_INSTALL + " " + uri] else []
    {
      if os.fork < 0 {
        return Returned(os.fork);
      }
      if os.fork == 0 {
        executed := executed + [MENDER_INSTALL + " " + uri];
        return Exited(os.mender);
      }
      downloading := true;
      childPid := os.fork;
      childEvent := NotAdded;
      if !os.added {
        return Returned(-1);
      }
      childEvent := Added;
      return Returned(os.fork);
    }

    method Sigchld(wait: Wait)
      modifies this
      ensures State() == OnSigchld(old(State()), wait)
      ensures executed == old(executed)
      ensures if wait.Reaped? then !downloading && childEvent == NoEvent && debugMsg == Some(wait.end)
              else State() == old(State())
    {
      if wait.WaitError? {
        return;
      }
      if wait.NoChange? {
        return;
      }
      downloading := false;
      childEvent := NoEvent;
      debugMsg := Some(wait.end);
    }
  }

  /** The two resources that drive the manager. */
  class FirmwareResource {
    const manager: FirmwareManager
    var uri: string

    constructor (m: FirmwareManager)
      ensures manager == m && uri == ""
    {
      manager := m;
      uri := "";
    }

    method PutFirmware(env: Option<Boot>, body: Body, os: Answers, after: Option<Boot>)
      returns (status: Status)
      modifies this, manager
      ensures (manager.State(), status) == Put(old(manager.State()), env, body, os, after)
      ensures uri == if PutCheck(old(manager.State()), env, body).1 == Ok then body.uri else old(uri)
      ensures manager.executed == old(manager.executed) +
                if status == NoReply then [MENDER_INSTALL + " " + uri] else []
      // the answer, from the inputs and the flag alone
      ensures var idle := env.Some? && !env.value.upgradeAvailable && !old(manager.downloading);
              && (status == Ok <==> idle && body.Uri? && os.fork > 0 && os.added)
              && (status == NoReply <==> idle && body.Uri? && os.fork == 0)
              && (status == InternalError <==>
                  env.None? || (idle && body.Uri? && (os.fork < 0 || (os.fork > 0 && !os.added))))
              && (status == BadRequest <==> env.Some? && !(idle && body.Uri?))
              && (uri == if idle && body.Uri? then body.uri else old(uri))
              // a child is forked and waited for in the first case, forked and not waited for if only the event failed
              && (if idle && body.Uri? && os.fork > 0
                  then manager.childPid == os.fork && manager.childEvent == if os.added then Added else NotAdded
                  else manager.childPid == old(manager.childPid) && manager.childEvent == old(manager.childEvent))
      ensures status == Ok ==>
                (manager.downloading <==> !(after.Some? && after.value.upgradeAvailable))
      ensures status == BadRequest ==>
                (manager.downloading <==> old(manager.downloading) && !env.value.upgradeAvailable)
    {
      var state := Read(env);
      if state.None? {
        return InternalError;
      }
      if state.value != Normal {
        return BadRequest;
      }
      if !body.Uri? {
        return BadRequest;
      }
      uri := body.uri;
      var outcome := manager.StartDownload(uri, os);
      if outcome.Exited? {
        return NoReply;
      }
      if outcome.id <= 0 {
        return InternalError;
      }
      var _ := Read(after);
      return Ok;
    }

    method PutCommit(env: Option<Boot>, result: int, after: Option<Boot>) returns (status: Status)
      modifies manager
      ensures (manager.State(), status) == Commit(old(manager.State()), env, result, after)
      // the answer, from the inputs and the flag alone: commit is allowed when normal or uncommitted
      ensures var may := env.Some? &&
                         (if env.value.upgradeAvailable then env.value.bootcount != 0 else !old(manager.downloading));
              && (status == Ok <==> may && result == 0)
              && (status == InternalError <==> may && result != 0)
              && (status == BadRequest <==> !may)
      ensures manager.childPid == old(manager.childPid) && manager.childEvent == old(manager.childEvent)
    {
      var state := Read(env);
      if state.None? {
        return BadRequest;
      }
      if state.value != Normal && state.value != Uncommitted {
        return BadRequest;
      }
      if result == 0 {
        var _ := Read(after);
        return Ok;
      }
      return InternalError;
    }

    method Read(env: Option<Boot>) returns (state: Option<Label>)
      modifies manager`downloading
      ensures (manager.State(), state) == FirmwareState(old(manager.State()), env)
    {
      match env
      case None => state := manager.ReadFirmwareState(None, None);
      case Some(b) => state := manager.ReadFirmwareState(Some(b.bootcount), Some(b.upgradeAvailable));
    }
  }

  /** A `get` is idempotent: a second one reads the same state and changes nothing more. */
  lemma ReadingTwice(m: Manager, b: Boot)
    ensures FirmwareState(FirmwareState(m, Some(b)).0, Some(b)) == FirmwareState(m, Some(b))
  {
  }

  /**
   A put that was accepted for processing but failed leaves the state as it was, unless the fork
   had succeeded and only `event_add` failed: then the manager goes on reporting a download.
   */
  lemma FailedPut(m: Manager, b: Boot, uri: string, os: Answers, after: Option<Boot>)
    requires Report(m.downloading, b) == Normal
    requires Put(m, Some(b), Uri(uri), os, after).1 == InternalError
    ensures var after := Report(Put(m, Some(b), Uri(uri), os, after).0.downloading, b);
            && (after == Normal <==> os.fork < 0)
            && (os.fork >= 0 ==> os.fork > 0 && !os.added && after == Downloading)
  {
  }
}
