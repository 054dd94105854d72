/** The virtual machine's lifecycle: the manager (crates/vm-manager/src/lib.rs and process.rs)
    and the session start that drives it (apps/desktop/src-tauri/src/commands.rs). */
module VmLifecycle {
  import opened Prelude

  datatype MachineType = Microvm | Q35

  datatype AccelMode = Whpx | Tcg

  datatype VmState = Stopped | Starting | BootingGuest | Ready | Paused | Stopping | Unbootable | Failed

  datatype SessionKind = FreePractice | LessonSession(lesson: string)

  datatype VmConfig = VmConfig(kind: SessionKind, machine: MachineType, accel: AccelMode, agentPort: nat, token: nat)

  function PreferredMachine(accel: AccelMode): MachineType {
    match accel
    case Tcg => Q35
    case Whpx => Microvm
  }

  // ---------------------------------------------------------------- the host

  /** A writable disk layer: as created on the base image, or written to by a guest. */
  datatype Overlay = Clean | Used

  type Overlays = map<SessionKind, Overlay>

  /** A lesson is launched on a clean layer. */
  predicate FromCheckpoint(overlays: Overlays, kind: SessionKind) {
    kind.LessonSession? ==> kind in overlays && overlays[kind] == Clean
  }

  /** The learner's sandbox, once there, stays; and what was written to it is not thrown away. */
  ghost predicate KeepsSandbox(before: Overlays, after: Overlays) {
    FreePractice in before ==> FreePractice in after && (before[FreePractice] == Used ==> after[FreePractice] == Used)
  }

  lemma SandboxIsKept(overlays: Overlays)
    ensures KeepsSandbox(overlays, overlays)
  {
  }

  lemma LaunchKeepsSandbox(before: Overlays, after: Overlays, kind: SessionKind)
    requires KeepsSandbox(before, after)
    ensures KeepsSandbox(before, after[kind := Used])
  {
  }

  lemma SandboxStillKept(a: Overlays, b: Overlays, c: Overlays)
    requires KeepsSandbox(a, b) && KeepsSandbox(b, c)
    ensures KeepsSandbox(a, c)
  {
  }

  /** The processes of the host that run our QEMU, the pid file and the disk layers.  `launches` lists
      every configuration ever launched, `peak` is the most processes that ever ran at once, `stale`
      counts the lessons launched on a layer that was used before, `failures` the operations of the
      host that failed, `exits` the processes that ended on their own, and `unrecorded` the launched
      processes whose pid could not be written to the pid file. */
  class Host {
    const windows: bool
    var live: set<nat>
    var pidFile: Option<nat>
    var overlays: Overlays
    ghost var launches: seq<VmConfig>
    ghost var peak: nat
    ghost var stale: nat
    ghost var failures: nat
    ghost var exits: nat
    ghost var unrecorded: nat

    constructor (windows: bool, pidFile: Option<nat>, overlays: Overlays)
      ensures live == {} && this.windows == windows && this.pidFile == pidFile && this.overlays == overlays
      ensures launches == [] && peak == 0 && stale == 0 && failures == 0 && exits == 0 && unrecorded == 0
    {
      live, this.windows, this.pidFile, this.overlays := {}, windows, pidFile, overlays;
      launches, peak, stale, failures, exits, unrecorded := [], 0, 0, 0, 0, 0;
    }

    /** An operation of the host is tried. */
    method Try() returns (ok: bool)
      modifies this`failures
      ensures failures == old(failures) + if ok then 0 else 1
    {
      ok := *;
      failures := failures + if ok then 0 else 1;
    }

    /** Time passes: any process may exit on its own.  Preparing, polling and stopping begin with it, and
        a launch ends with it, so exits may come between any two steps that could notice them. */
    method Tick()
      modifies this`live, this`exits
      ensures live <= old(live) && exits == old(exits) + |old(live) - live|
      ensures exits == old(exits) ==> live == old(live)
    {
      var gone: set<nat> := *;
      exits := exits + |live - (live - gone)|;
      live := live - gone;
    }

    /** The pid file is written, which may fail. */
    method Record(pid: nat)
      modifies this`pidFile, this`unrecorded
      ensures old(unrecorded) <= unrecorded <= old(unrecorded) + 1
      ensures pidFile == if unrecorded == old(unrecorded) then Some(pid) else old(pidFile)
    {
      var ok: bool := *;
      if ok {
        pidFile := Some(pid);
      } else {
        unrecorded := unrecorded + 1;
      }
    }

    method Kill(pid: nat)
      modifies this`live
      ensures live == old(live) - {pid}
    {
      live := live - {pid};
    }

    method Spawn(config: VmConfig) returns (pid: Option<nat>)
      modifies this`live, this`launches, this`peak, this`failures, this`overlays, this`stale
      ensures overlays == if pid.Some? then old(overlays)[config.kind := Used] else old(overlays)
      ensures stale == old(stale) + if pid.Some? && !FromCheckpoint(old(overlays), config.kind) then 1 else 0
      ensures failures == old(failures) + if pid.Some? then 0 else 1
      ensures pid.Some? ==>
                pid.value !in old(live) && live == old(live) + {pid.value} && launches == old(launches) + [config]
      ensures pid.None? ==> live == old(live) && launches == old(launches)
      ensures peak >= old(peak) && peak >= |live| && (peak == old(peak) || peak == |live|)
      ensures old(live) == {} && old(peak) <= 1 ==> peak <= 1 && live == if pid.Some? then {pid.value} else {}
    {
      var ok := Try();
      if ok {
        var next := FreshPid(live);
        live := live + {next};
        launches := launches + [config];
        stale := stale + if FromCheckpoint(overlays, config.kind) then 0 else 1;
        overlays := overlays[config.kind := Used];
        pid := Some(next);
      } else {
        pid := None;
      }
      if |live| > peak {
        peak := |live|;
      }
    }
  }

  method FreshPid(taken: set<nat>) returns (pid: nat)
    ensures pid !in taken
  {
    pid := 1;
    var rest := taken;
    while pid in rest
      invariant rest <= taken && forall p :: p in taken && p !in rest ==> p < pid
      decreases rest
    {
      rest := rest - {pid};
      pid := pid + 1;
    }
  }

  // ---------------------------------------------------------------- the manager

  datatype ExitPoll = CannotTell | StillRunning | NotSupervised | Exited

  datatype StartError = AlreadyRunning | PollFailed | SpawnFailed

  class VmManager {
    const host: Host
    var accel: AccelMode
    var machine: MachineType
    var supervised: Option<nat>
    var config: Option<VmConfig>
    var state: VmState

    /** Every process of ours that is alive is the supervised one, and there was never more than
        one at a time. */
    ghost predicate Valid()
      reads this, host
    {
      && (accel == Tcg ==> machine == Q35)
      && host.live <= (if supervised.Some? then {supervised.value} else {})
      && host.peak <= 1
    }

    constructor (host: Host, accel: AccelMode)
      requires host.live == {} && host.peak <= 1
      ensures Valid() && this.host == host && this.accel == accel
      ensures machine == if accel == Tcg then Q35 else Microvm
      ensures supervised == None && config == None && state == Stopped
    {
      this.host, this.accel, machine := host, accel, PreferredMachine(accel);
      supervised, config, state := None, None, Stopped;
    }

    method UseSoftwareAcceleration()
      requires Valid()
      modifies this`accel, this`machine
      ensures Valid() && accel == Tcg && machine == Q35
    {
      accel := Tcg;
      machine := PreferredMachine(accel);
    }

    /** The pid file names the supervised process, where that gets a process killed. */
    ghost predicate Doomed()
      reads this, host
    {
      host.windows && supervised.Some? && host.pidFile == supervised
    }

    /** `reap_stale_process`: on Windows the process whose pid was recorded is killed if it looks like
        our QEMU; looking or killing can fail, and then the record stays.  Elsewhere the record is
        cleared and nothing is killed.  No other process is touched. */
    method ReapStaleProcess() returns (ok: bool)
      requires Valid()
      modifies host`live, host`pidFile, host`failures
      ensures Valid() && host.failures == old(host.failures) + if ok then 0 else 1
      ensures host.live == old(host.live)
                           - (if ok && host.windows && old(host.pidFile).Some? then {old(host.pidFile).value} else {})
      ensures host.pidFile == if ok then None else old(host.pidFile)
      ensures host.windows || ok
      ensures ok ==> (host.live == {} <==> old(host.live) == {} || old(Doomed()))
    {
      ok := true;
      if host.pidFile.None? {
        return;
      }
      if host.windows {
        ok := host.Try();
        if ok {
          host.Kill(host.pidFile.value);
        }
      }
      if ok {
        host.pidFile := None;
      }
    }

    /** `OverlayManager::ensure`: an existing layer is kept, a missing one created. */
    method EnsureOverlay(kind: SessionKind) returns (ok: bool)
      modifies host`overlays, host`failures
      ensures host.failures == old(host.failures) + if ok then 0 else 1
      ensures host.overlays
           == if ok && kind !in old(host.overlays) then old(host.overlays)[kind := Clean] else old(host.overlays)
    {
      ok := host.Try();
      if ok && kind !in host.overlays {
        host.overlays := host.overlays[kind := Clean];
      }
    }

    /** `OverlayManager::recreate`: an existing layer is removed first, and may be gone when creating
        the new one fails. */
    method RecreateOverlay(kind: SessionKind) returns (ok: bool)
      modifies host`overlays, host`failures
      ensures host.failures == old(host.failures) + if ok then 0 else 1
      ensures ok ==> host.overlays == old(host.overlays)[kind := Clean]
      ensures forall other :: other != kind ==>
                (other in host.overlays <==> other in old(host.overlays))
                && (other in host.overlays ==> host.overlays[other] == old(host.overlays)[other])
    {
      if kind in host.overlays {
        ok := host.Try();
        if !ok {
          return;
        }
        host.overlays := host.overlays - {kind};
      }
      ok := host.Try();
      if ok {
        host.overlays := host.overlays[kind := Clean];
      }
    }

    /** `prepare`: the disk layer, ports and a token for one launch, recorded as the configuration.
        A lesson gets a clean layer, and the sandbox is kept. */
    method Prepare(kind: SessionKind) returns (r: Option<VmConfig>)
      requires Valid()
      modifies this`config, host`live, host`exits, host`overlays, host`failures
      ensures host.exits >= old(host.exits) && (host.exits == old(host.exits) ==> host.live == old(host.live))
      ensures host.failures == old(host.failures) + if r.Some? then 0 else 1
      ensures Valid() && config == if r.Some? then r else old(config)
      ensures host.live <= old(host.live)
      ensures r.Some? ==> r.value.kind == kind && r.value.machine == machine && r.value.accel == accel
      ensures r.Some? && accel == Tcg ==> r.value.machine == Q35
      ensures r.Some? ==> kind in host.overlays && FromCheckpoint(host.overlays, kind)
      ensures KeepsSandbox(old(host.overlays), host.overlays)
    {
      host.Tick();
      var ok;
      match kind {
        case FreePractice => ok := EnsureOverlay(kind);
        case LessonSession(_) => ok := RecreateOverlay(kind);
      }
      if !ok {
        return None;
      }
      ok := host.Try();
      if !ok {
        return None;
      }
      var port: nat, token: nat := *, *;
      r := Some(VmConfig(kind, machine, accel, port, token));
      config := r;
    }

    /** `mark_exited`. */
    method MarkExited(guestHadBooted: bool)
      requires Valid() && host.live == {}
      modifies this`supervised, this`state, host`pidFile
      ensures Valid() && supervised == None && host.pidFile == None
      ensures state == if guestHadBooted then Unbootable else Failed
    {
      supervised := None;
      host.pidFile := None;
      state := if guestHadBooted then Unbootable else Failed;
    }

    /** `poll_exited`: asking about the child can fail. */
    method PollExited() returns (r: ExitPoll)
      requires Valid()
      modifies this`supervised, this`state, host`live, host`exits, host`pidFile, host`failures
      ensures host.exits >= old(host.exits) && (host.exits == old(host.exits) ==> host.live == old(host.live))
      ensures Valid() && host.failures == old(host.failures) + if r == CannotTell then 1 else 0
      ensures host.live <= old(host.live)
      ensures r == NotSupervised <==> old(supervised).None?
      ensures r == Exited ==> host.live == {} && supervised == None && host.pidFile == None && state == Failed
      ensures r != Exited ==> supervised == old(supervised) && state == old(state) && host.pidFile == old(host.pidFile)
      ensures old(supervised).Some? && r != CannotTell ==> (r == StillRunning <==> old(supervised).value in host.live)
      ensures r == StillRunning ==> supervised.Some? && host.live == {supervised.value}
    {
      host.Tick();
      if supervised.None? {
        return NotSupervised;
      }
      var asked := host.Try();
      if !asked {
        return CannotTell;
      }
      if supervised.value in host.live {
        return StillRunning;
      }
      MarkExited(false);
      r := Exited;
    }

    /** The first lines of `start`: what stands in the way of a launch. */
    method Busy() returns (r: Option<StartError>)
      requires Valid()
      modifies this`supervised, this`state, host`live, host`exits, host`pidFile, host`failures
      ensures host.exits >= old(host.exits) && (host.exits == old(host.exits) ==> host.live == old(host.live))
      ensures Valid() && host.failures == old(host.failures) + if r == Some(PollFailed) then 1 else 0
      ensures host.live <= old(host.live)
      ensures r.None? ==>
                supervised == None && host.live == {} && (host.pidFile == None || host.pidFile == old(host.pidFile))
      ensures r.Some? ==>
                r.value != SpawnFailed && old(supervised).Some? && supervised == old(supervised) && state == old(state)
      ensures r == Some(AlreadyRunning) ==> host.live == {supervised.value}
    {
      r := None;
      if supervised.Some? {
        var polled := PollExited();
        if polled == CannotTell {
          r := Some(PollFailed);
        } else if polled == StillRunning {
          r := Some(AlreadyRunning);
        }
      }
    }

    /** `start`.  The pid file may fail to be written, and the process may exit at once. */
    method Start(launch: VmConfig) returns (r: Result<nat, StartError>)
      requires Valid()
      modifies this`supervised, this`state, host
      ensures Valid()
      ensures r.Ok? ==> supervised == Some(r.value) && host.live <= {r.value} && state == BootingGuest
      ensures r.Ok? ==> host.launches == old(host.launches) + [launch]
      ensures r.Ok? ==> host.pidFile == Some(r.value) || host.pidFile == None || host.pidFile == old(host.pidFile)
      ensures host.unrecorded >= old(host.unrecorded)
      ensures r.Ok? && host.unrecorded == old(host.unrecorded) ==> host.pidFile == Some(r.value)
      ensures r.Ok? && host.exits == old(host.exits) ==> host.live == {r.value}
      ensures r.Err? ==> host.launches == old(host.launches) && host.live <= old(host.live)
      ensures host.exits >= old(host.exits)
      ensures host.exits == old(host.exits) && (r.Ok? || r == Err(SpawnFailed)) ==> old(host.live) == {}
      ensures r == Err(AlreadyRunning) ==>
                supervised.Some? && host.live == {supervised.value} && supervised == old(supervised)
      ensures r == Err(SpawnFailed) ==> supervised == None && host.live == {} && state == Starting
      ensures r == Err(SpawnFailed) ==> host.pidFile == None || host.pidFile == old(host.pidFile)
      ensures r.Err? && old(supervised).None? ==> r == Err(SpawnFailed)
      ensures r == Err(PollFailed) ==> supervised == old(supervised) && supervised.Some? && state == old(state)
      ensures host.failures == old(host.failures) + if r.Ok? || r == Err(AlreadyRunning) then 0 else 1
      ensures host.overlays == if r.Ok? then old(host.overlays)[launch.kind := Used] else old(host.overlays)
      ensures host.stale == old(host.stale) + if r.Ok? && !FromCheckpoint(old(host.overlays), launch.kind) then 1 else 0
    {
      hide FromCheckpoint;
      var busy := Busy();
      if busy.Some? {
        return Err(busy.value);
      }
      r := Launch(launch);
    }

    /** The rest of `start`, with nothing in the way. */
    method Launch(launch: VmConfig) returns (r: Result<nat, StartError>)
      requires Valid() && supervised == None && host.live == {}
      modifies this`supervised, this`state, host
      ensures Valid() && host.exits >= old(host.exits)
      ensures r.Ok? ==> supervised == Some(r.value) && host.live <= {r.value} && state == BootingGuest
      ensures r.Ok? ==> host.launches == old(host.launches) + [launch]
      ensures r.Ok? ==> host.pidFile == Some(r.value) || host.pidFile == old(host.pidFile)
      ensures host.unrecorded >= old(host.unrecorded)
      ensures r.Ok? && host.unrecorded == old(host.unrecorded) ==> host.pidFile == Some(r.value)
      ensures r.Ok? && host.exits == old(host.exits) ==> host.live == {r.value}
      ensures r.Err? ==>
                r == Err(SpawnFailed) && host.launches == old(host.launches) && host.pidFile == old(host.pidFile)
      ensures r.Err? ==> supervised == None && host.live == {} && state == Starting
      ensures host.failures == old(host.failures) + if r.Ok? then 0 else 1
      ensures host.overlays == if r.Ok? then old(host.overlays)[launch.kind := Used] else old(host.overlays)
      ensures host.stale == old(host.stale) + if r.Ok? && !FromCheckpoint(old(host.overlays), launch.kind) then 1 else 0
    {
      hide FromCheckpoint;
      state := Starting;
      var pid := host.Spawn(launch);
      if pid.None? {
        return Err(SpawnFailed);
      }
      host.Record(pid.value);
      supervised := pid;
      state := BootingGuest;
      host.Tick();
      r := Ok(pid.value);
    }

    method MarkReady()
      requires Valid()
      modifies this`state
      ensures Valid() && state == Ready
    {
      state := Ready;
    }

    method MarkFailed()
      requires Valid()
      modifies this`state
      ensures Valid() && state == Failed
    {
      state := Failed;
    }

    /** `stop`: nothing to do without a configuration or a process; otherwise the process is gone
        afterwards, whether it answered the power-down request or not. */
    method Stop()
      requires Valid()
      modifies this`supervised, this`state, host`live, host`exits, host`pidFile
      ensures Valid() && host.live <= old(host.live) && host.exits >= old(host.exits)
      ensures old(config).None? || old(supervised).None? ==>
                supervised == old(supervised) && state == old(state) && host.pidFile == old(host.pidFile)
      ensures old(config).Some? && old(supervised).Some? ==>
                supervised == None && state == Stopped && host.pidFile == None && host.live == {}
      ensures supervised.None? ==> host.live == {}
    {
      host.Tick();
      if config.None? || supervised.None? {
        return;
      }
      var guestWasReady := state == Ready || state == Paused;
      state := Stopping;
      if guestWasReady {
        host.Tick();
      }
      host.Kill(supervised.value);
      supervised := None;
      host.pidFile := None;
      state := Stopped;
    }
  }

  // ---------------------------------------------------------------- the application

  /** What the agent client was made with. */
  datatype AgentAddress = AgentAddress(port: nat, token: nat)

  datatype GuestReply = Pong | OtherReply | NotReady

  datatype SessionError = InstallFailed | UnknownLesson | PrepareFailed | LaunchFailed(cause: StartError)
    | FallbackFailed | NeverReady

  function AddressOf(config: VmConfig): AgentAddress {
    AgentAddress(config.agentPort, config.token)
  }

  function KindOf(lesson: Option<string>): SessionKind {
    if lesson.Some? then LessonSession(lesson.value) else FreePractice
  }

  lemma AddressAndKind(config: VmConfig, lesson: Option<string>)
    ensures AddressOf(config) == AgentAddress(config.agentPort, config.token)
    ensures KindOf(lesson) == if lesson.Some? then LessonSession(lesson.value) else FreePractice
  {
  }

  predicate BeforeLaunch(error: SessionError) {
    error.InstallFailed? || error.UnknownLesson? || error.PrepareFailed? || error.LaunchFailed?
  }

  /** What one session start may add to the launches: nothing; one launch on the acceleration in
      force; or one on hardware followed by one in software on q35. */
  ghost predicate Launched(before: seq<VmConfig>, after: seq<VmConfig>, kind: SessionKind, accel: AccelMode) {
    var n := |before|;
    && before <= after
    && |after| <= n + 2
    && (forall k :: n <= k < |after| ==> after[k].kind == kind)
    && (|after| > n ==> after[n].accel == accel && (accel == Tcg ==> after[n].machine == Q35))
    && (|after| == n + 2 ==> accel == Whpx && after[n + 1].accel == Tcg && after[n + 1].machine == Q35)
  }

  ghost function LastLaunch(before: seq<VmConfig>, after: seq<VmConfig>): Option<VmConfig> {
    if |after| > |before| then Some(after[|after| - 1]) else None
  }

  /** Once in software, always in software, from the launches so far into the next. */
  ghost predicate Degrades(launches: seq<VmConfig>, next: AccelMode) {
    && (forall i, j :: 0 <= i < j < |launches| && launches[i].accel == Tcg ==> launches[j].accel == Tcg)
    && (forall i :: 0 <= i < |launches| && launches[i].accel == Tcg ==> next == Tcg)
  }

  /** A session start either leaves the acceleration alone or takes it from hardware to software;
      only then can there have been a second launch. */
  ghost predicate FellBack(accel: AccelMode, next: AccelMode, after: seq<VmConfig>, before: seq<VmConfig>, times: int) {
    if times == 0 then next == accel && |after| <= |before| + 1
    else times == 1 && accel == Whpx && next == Tcg && |after| > |before|
  }

  lemma NotFallenBack(accel: AccelMode, before: seq<VmConfig>, after: seq<VmConfig>)
    requires |after| <= |before| + 1
    ensures FellBack(accel, accel, after, before, 0)
  {
  }

  lemma ThenFellBack(before: seq<VmConfig>, after: seq<VmConfig>)
    requires |after| > |before|
    ensures FellBack(Whpx, Tcg, after, before, 1)
  {
  }

  lemma SessionDegrades(before: seq<VmConfig>, after: seq<VmConfig>, kind: SessionKind,
                        accel: AccelMode, next: AccelMode, times: int)
    requires Degrades(before, accel) && Launched(before, after, kind, accel)
    requires FellBack(accel, next, after, before, times)
    ensures Degrades(after, next) && |after| <= |before| + 1 + times
  {
    assert forall i :: 0 <= i < |before| ==> after[i] == before[i];
  }

  /** How a session start must end after the guest's answers, one per launch. */
  ghost predicate Decides(before: seq<GuestReply>, after: seq<GuestReply>, accel: AccelMode,
                          r: Result<VmConfig, SessionError>) {
    match r
    case Ok(_) => after == before + [Pong] || (accel == Whpx && after == before + [NotReady] + [Pong])
    case Err(NeverReady) =>
      || (accel == Tcg && after == before + [NotReady])
      || (accel == Whpx && after == before + [NotReady] + [NotReady])
    case Err(FallbackFailed) => accel == Whpx && after == before + [NotReady]
    case Err(_) => after == before
  }

  /** What comes of a boot, once the guest has had its last word. */
  function Verdict(r: Result<VmConfig, SessionError>, ready: GuestReply): Result<VmConfig, SessionError> {
    if r.Err? || ready == Pong then r else Err(NeverReady)
  }

  lemma VerdictOf(r: Result<VmConfig, SessionError>, ready: GuestReply)
    ensures Verdict(r, ready) == if r.Err? || ready == Pong then r else Err(NeverReady)
  {
  }

  lemma DecidesBefore(before: seq<GuestReply>, accel: AccelMode, r: Result<VmConfig, SessionError>)
    requires r.Err? && BeforeLaunch(r.error)
    ensures Decides(before, before, accel, r)
  {
  }

  lemma DecidesOnce(before: seq<GuestReply>, reply: GuestReply, accel: AccelMode, config: VmConfig)
    requires reply == Pong || (reply == NotReady && accel == Tcg)
    ensures Decides(before, before + [reply], accel, if reply == Pong then Ok(config) else Err(NeverReady))
  {
  }

  lemma DecidesTwice(before: seq<GuestReply>, reply: GuestReply, config: VmConfig)
    requires reply != OtherReply
    ensures Decides(before, before + [NotReady] + [reply], Whpx, if reply == Pong then Ok(config) else Err(NeverReady))
    ensures Decides(before, before + [NotReady], Whpx, Err(FallbackFailed))
  {
  }

  lemma LateFailure()
    ensures !BeforeLaunch(FallbackFailed)
  {
  }

  lemma Unlaunched(before: seq<VmConfig>, kind: SessionKind, accel: AccelMode)
    ensures Launched(before, before, kind, accel)
  {
  }

  lemma LaunchedOnce(before: seq<VmConfig>, launch: VmConfig, accel: AccelMode)
    requires launch.accel == accel && (accel == Tcg ==> launch.machine == Q35)
    ensures Launched(before, before + [launch], launch.kind, accel)
    ensures LastLaunch(before, before + [launch]) == Some(launch)
  {
  }

  lemma LaunchedTwice(before: seq<VmConfig>, first: VmConfig, second: VmConfig)
    requires first.kind == second.kind && first.accel == Whpx && second.accel == Tcg && second.machine == Q35
    ensures Launched(before, before + [first] + [second], first.kind, Whpx)
    ensures LastLaunch(before, before + [first] + [second]) == Some(second)
  {
  }

  class App {
    const vm: VmManager
    const lessons: set<string>
    var agent: Option<AgentAddress>
    var session: Option<SessionKind>
    ghost var starts: nat
    ghost var fallbacks: nat
    ghost var heard: seq<GuestReply>
    ghost var overdue: nat

    /** How often so far the host failed, a process exited on its own or a wait ran out of time. */
    ghost function Trouble(): nat
      reads this, vm, vm.host
    {
      vm.host.failures + vm.host.exits + overdue
    }

    ghost predicate Steady()
      reads this, vm, vm.host
    {
      vm.Valid() && fallbacks <= 1 && (fallbacks == 1 ==> vm.accel == Tcg) && vm.host.stale == 0
    }

    /** Over the whole run of the application: never two processes at once, at most one launch more
        than sessions were started, no launch on hardware after one in software, and no lesson on a
        disk layer that was used before. */
    ghost predicate Valid()
      reads this, vm, vm.host
    {
      Steady() && |vm.host.launches| <= starts + fallbacks && Degrades(vm.host.launches, vm.accel)
    }

    constructor (vm: VmManager, lessons: set<string>)
      requires vm.Valid() && vm.host.launches == [] && vm.host.stale == 0
      ensures Valid() && this.vm == vm && agent == None && session == None && starts == 0 && fallbacks == 0
                && heard == [] && overdue == 0
    {
      this.vm, this.lessons := vm, lessons;
      agent, session, starts, fallbacks, heard, overdue := None, None, 0, 0, [], 0;
    }

    /** `wait_for_guest_or_qemu_exit`: pings and exit polls race; whichever comes first decides.
        `heard` records what came of every wait, and `overdue` counts those that ran out of time. */
    method WaitForGuest() returns (r: GuestReply)
      requires Steady() && vm.supervised.Some?
      modifies this`heard, this`overdue, vm`supervised, vm`state
      modifies vm.host`live, vm.host`exits, vm.host`pidFile, vm.host`failures
      ensures heard == old(heard) + [r] && vm.host.failures >= old(vm.host.failures)
      ensures vm.host.exits >= old(vm.host.exits) && r != OtherReply
      ensures old(vm.host.pidFile) == old(vm.supervised) ==> vm.host.pidFile == vm.supervised
      ensures Steady() && vm.host.live <= old(vm.host.live)
      ensures r != NotReady ==> vm.supervised == old(vm.supervised)
      ensures Trouble() >= old(Trouble())
      ensures r == NotReady ==> Trouble() > old(Trouble()) || old(vm.host.live) == {}
      ensures vm.supervised == old(vm.supervised)
              || (vm.supervised == None && vm.host.pidFile == None && vm.host.live == {})
    {
      var polls: nat := *;
      r := NotReady;
      while polls > 0
        invariant vm.Valid() && vm.host.live <= old(vm.host.live) && vm.supervised == old(vm.supervised)
        invariant r == NotReady && heard == old(heard) && overdue == old(overdue)
        invariant vm.host.failures >= old(vm.host.failures)
        invariant vm.host.exits >= old(vm.host.exits) && vm.host.pidFile == old(vm.host.pidFile)
        invariant vm.host.exits == old(vm.host.exits) ==> vm.host.live == old(vm.host.live)
        decreases polls
      {
        var answered: bool := *;
        if answered {
          r := Pong;
          break;
        }
        var polled := vm.PollExited();
        if polled == Exited || polled == CannotTell {
          break;
        }
        polls := polls - 1;
      }
      if polls == 0 {
        overdue := overdue + 1;
      }
      heard := heard + [r];
    }

    /** The end of `start_session_inner`: a pong makes the session ready, anything else ends it with
        no process, no pid file and no agent client. */
    method Conclude(ready: GuestReply, config: VmConfig) returns (r: Result<VmConfig, SessionError>)
      requires Steady() && vm.config == Some(config)
      requires vm.supervised.None? ==> vm.host.pidFile == None
      modifies this`agent, vm`supervised, vm`state, vm.host`live, vm.host`exits, vm.host`pidFile
      ensures Steady() && vm.host.exits >= old(vm.host.exits) && Trouble() >= old(Trouble())
      ensures r == if ready == Pong then Ok(config) else Err(NeverReady)
      ensures r.Ok? ==> vm.state == Ready && vm.supervised == old(vm.supervised) && agent == old(agent)
      ensures r.Ok? ==> vm.host.pidFile == old(vm.host.pidFile)
      ensures r.Err? ==> vm.state == Failed && vm.supervised == None && vm.host.live == {}
                         && vm.host.pidFile == None && agent == None
    {
      match ready {
        case Pong =>
          vm.MarkReady();
          return Ok(config);
        case OtherReply =>
          agent := None;
          vm.Stop();
          vm.MarkFailed();
        case NotReady =>
          agent := None;
          vm.Stop();
          vm.MarkFailed();
      }
      r := Err(NeverReady);
    }

    /** What both launches of `start_session_inner` do: prepare, start, and make an agent client.  If
        nothing fails and no process exits on its own, it is refused exactly beside a live process. */
    method PrepareAndStart(kind: SessionKind) returns (r: Result<VmConfig, SessionError>)
      requires Steady()
      modifies this`agent, vm`config, vm`supervised, vm`state, vm.host
      ensures Steady() && KeepsSandbox(old(vm.host.overlays), vm.host.overlays)
      ensures vm.host.failures
           == old(vm.host.failures) + if r.Ok? || r == Err(LaunchFailed(AlreadyRunning)) then 0 else 1
      ensures vm.host.exits >= old(vm.host.exits)
      ensures r.Ok? ==> vm.host.launches == old(vm.host.launches) + [r.value] && vm.config == Some(r.value)
      ensures r.Ok? ==>
                r.value.kind == kind && r.value.accel == vm.accel && (vm.accel == Tcg ==> r.value.machine == Q35)
      ensures r.Ok? ==> r.value.machine == vm.machine
      ensures r.Ok? ==> agent == Some(AddressOf(r.value)) && vm.supervised.Some?
      ensures vm.host.unrecorded >= old(vm.host.unrecorded)
      ensures r.Ok? && vm.host.unrecorded == old(vm.host.unrecorded) ==> vm.host.pidFile == vm.supervised
      ensures r.Ok? && vm.host.exits == old(vm.host.exits) ==> vm.host.live != {}
      ensures r.Err? ==> agent == old(agent) && vm.host.launches == old(vm.host.launches)
      ensures r.Err? ==> r.error.PrepareFailed? || r.error.LaunchFailed?
      ensures r.Err? && old(vm.supervised).None? ==>
                vm.supervised == None && vm.host.live == {} && r != Err(LaunchFailed(AlreadyRunning))
      ensures r.Err? && old(vm.supervised).None? ==> vm.host.pidFile == None || vm.host.pidFile == old(vm.host.pidFile)
      ensures r == Err(LaunchFailed(SpawnFailed)) ==> vm.host.live == {} && vm.state == Starting
      ensures r == Err(LaunchFailed(AlreadyRunning)) ==> old(vm.host.live) != {}
      ensures vm.host.failures == old(vm.host.failures) && vm.host.exits == old(vm.host.exits) ==>
                (r == Err(LaunchFailed(AlreadyRunning)) <==> old(vm.host.live) != {})
    {
      hide PreferredMachine, FromCheckpoint, KeepsSandbox, AddressOf;
      ghost var overlays := vm.host.overlays;
      var prepared := vm.Prepare(kind);
      if prepared.None? {
        return Err(PrepareFailed);
      }
      LaunchKeepsSandbox(overlays, vm.host.overlays, kind);
      var started := vm.Start(prepared.value);
      if started.Err? {
        return Err(LaunchFailed(started.error));
      }
      agent := Some(AddressOf(prepared.value));
      r := Ok(prepared.value);
    }

    /** The retry of `start_session_inner`: the hardware-accelerated machine is stopped, and one
        launch is made with software translation. */
    method FallBack(kind: SessionKind) returns (r: Result<VmConfig, SessionError>, ready: GuestReply)
      requires Steady() && vm.accel == Whpx && vm.config.Some?
      requires vm.supervised.None? ==> vm.host.pidFile == None
      modifies this`agent, this`fallbacks, this`heard, this`overdue, vm, vm.host
      ensures if r.Ok? then heard == old(heard) + [ready] else heard == old(heard)
      ensures KeepsSandbox(old(vm.host.overlays), vm.host.overlays)
      ensures if r.Ok? then vm.host.failures >= old(vm.host.failures) else vm.host.failures > old(vm.host.failures)
      ensures Steady() && vm.accel == Tcg && fallbacks == old(fallbacks) + 1
      ensures r.Ok? ==> vm.host.launches == old(vm.host.launches) + [r.value] && vm.config == Some(r.value)
      ensures r.Ok? ==> r.value.kind == kind && r.value.accel == Tcg && r.value.machine == Q35
      ensures r.Ok? ==> agent == Some(AddressOf(r.value)) && (ready == NotReady || vm.supervised.Some?)
      ensures ready != OtherReply && vm.host.exits >= old(vm.host.exits)
      ensures vm.host.unrecorded >= old(vm.host.unrecorded)
      ensures r.Ok? && vm.host.unrecorded == old(vm.host.unrecorded) ==> vm.host.pidFile == vm.supervised
      ensures Trouble() >= old(Trouble()) && (r.Ok? && ready == NotReady ==> Trouble() > old(Trouble()))
      ensures vm.supervised.None? ==> vm.host.pidFile == None
      ensures r.Err? ==> r.error == FallbackFailed && vm.host.launches == old(vm.host.launches)
      ensures r.Err? ==> agent == None && vm.supervised == None && vm.host.live == {}
    {
      hide VmManager.Valid, PreferredMachine, FromCheckpoint, KeepsSandbox, AddressOf;
      agent := None;
      vm.Stop();
      vm.UseSoftwareAcceleration();
      fallbacks := fallbacks + 1;
      ready := NotReady;
      r := PrepareAndStart(kind);
      if r.Err? {
        return Err(FallbackFailed), ready;
      }
      ready := WaitForGuest();
    }

    /** The start is counted, and the bundled runtime installed. */
    method Install() returns (ok: bool)
      requires Steady()
      modifies this`starts, vm.host`failures
      ensures Steady() && starts == old(starts) + 1
      ensures vm.host.failures == old(vm.host.failures) + if ok then 0 else 1
    {
      starts := starts + 1;
      ok := vm.host.Try();
    }

    /** The first part of `start_session_inner`, up to the first launch: the runtime is installed,
        a stale process reaped, a configuration prepared and launched. */
    method FirstLaunch(lesson: Option<string>) returns (r: Result<VmConfig, SessionError>)
      requires Steady()
      modifies this`agent, this`session, this`starts, vm`config, vm`supervised, vm`state, vm.host
      ensures vm.host.failures >= old(vm.host.failures) && vm.host.exits >= old(vm.host.exits)
      ensures r == Err(LaunchFailed(AlreadyRunning)) ==> !old(vm.Doomed()) || vm.host.failures > old(vm.host.failures)
      ensures vm.host.failures == old(vm.host.failures) && vm.host.exits == old(vm.host.exits) ==>
                || r == Err(UnknownLesson)
                || (r == Err(LaunchFailed(AlreadyRunning)) <==> old(vm.host.live) != {} && !old(vm.Doomed()))
      ensures r.Err? && vm.host.failures == old(vm.host.failures) ==>
                r == Err(UnknownLesson) || (r == Err(LaunchFailed(AlreadyRunning)) && old(vm.supervised).Some?)
      ensures KeepsSandbox(old(vm.host.overlays), vm.host.overlays)
      ensures Steady() && starts == old(starts) + 1
      ensures r.Ok? ==> vm.host.launches == old(vm.host.launches) + [r.value] && vm.config == Some(r.value)
      ensures r.Ok? ==>
                r.value.kind == KindOf(lesson) && r.value.accel == vm.accel
                    && (vm.accel == Tcg ==> r.value.machine == Q35)
      ensures r.Ok? ==> agent == Some(AddressOf(r.value)) && session == Some(KindOf(lesson)) && vm.supervised.Some?
      ensures r.Ok? ==> r.value.machine == old(vm.machine) == vm.machine && vm.accel == old(vm.accel)
      ensures Trouble() >= old(Trouble()) && (r.Ok? && vm.host.live == {} ==> Trouble() > old(Trouble()))
      ensures vm.host.unrecorded >= old(vm.host.unrecorded)
      ensures r.Ok? && vm.host.unrecorded == old(vm.host.unrecorded) ==> vm.host.pidFile == vm.supervised
      ensures r.Err? ==> BeforeLaunch(r.error) && vm.host.launches == old(vm.host.launches)
      ensures r.Err? ==> agent == old(agent) && session == old(session)
      ensures r == Err(LaunchFailed(SpawnFailed)) ==> vm.host.live == {} && vm.state == Starting
      ensures r == Err(UnknownLesson) ==> lesson.Some? && lesson.value !in lessons
      ensures r == Err(InstallFailed) ==> vm.host.pidFile == old(vm.host.pidFile) && vm.host.live == old(vm.host.live)
      ensures r == Err(UnknownLesson) && vm.host.failures == old(vm.host.failures) ==>
                vm.host.pidFile == None && (vm.host.live == {} <==> old(vm.host.live) == {} || old(vm.Doomed()))
      ensures lesson.Some? && lesson.value !in lessons ==> r == Err(InstallFailed) || r == Err(UnknownLesson)
    {
      hide VmManager.Doomed, VmManager.Valid, PreferredMachine, FromCheckpoint, KeepsSandbox, AddressOf, KindOf;
      SandboxIsKept(vm.host.overlays);
      var installed := Install();
      if !installed {
        return Err(InstallFailed);
      }
      var _ := vm.ReapStaleProcess();
      if lesson.Some? && lesson.value !in lessons {
        return Err(UnknownLesson);
      }
      r := PrepareAndStart(KindOf(lesson));
      if r.Ok? {
        session := Some(KindOf(lesson));
      }
    }

    /** The wait for the first machine, and the retry if it ran on hardware and did not become ready. */
    method AwaitGuest(config: VmConfig) returns (r: Result<VmConfig, SessionError>, ready: GuestReply)
      requires Steady() && vm.supervised.Some? && vm.config == Some(config) && config.accel == vm.accel
      requires agent == Some(AddressOf(config))
      modifies this`agent, this`fallbacks, this`heard, this`overdue, vm, vm.host
      ensures Steady() && vm.host.failures >= old(vm.host.failures)
      ensures ready != OtherReply && vm.host.exits >= old(vm.host.exits)
      ensures vm.host.unrecorded >= old(vm.host.unrecorded)
      ensures r.Ok? && vm.host.unrecorded == old(vm.host.unrecorded) && old(vm.host.pidFile) == old(vm.supervised) ==>
                vm.host.pidFile == vm.supervised
      ensures Trouble() >= old(Trouble())
      ensures fallbacks != old(fallbacks) || (r.Ok? && ready == NotReady) ==>
                Trouble() > old(Trouble()) || old(vm.host.live) == {}
      ensures KeepsSandbox(old(vm.host.overlays), vm.host.overlays)
      ensures r.Ok? ==> vm.config == Some(r.value) && agent == Some(AddressOf(r.value))
      ensures r.Ok? ==> (ready == NotReady || vm.supervised.Some?) && (vm.supervised.None? ==> vm.host.pidFile == None)
      ensures r.Err? ==> r.error == FallbackFailed && agent == None && vm.host.live == {} && vm.supervised == None
      ensures r.Err? ==> fallbacks != old(fallbacks) && vm.host.failures > old(vm.host.failures)
      ensures fallbacks == old(fallbacks) ==>
                && r == Ok(config) && vm.accel == old(vm.accel) && (ready != NotReady || vm.accel == Tcg)
                && vm.host.launches == old(vm.host.launches) && heard == old(heard) + [ready]
      ensures fallbacks != old(fallbacks) ==>
                && fallbacks == old(fallbacks) + 1 && old(vm.accel) == Whpx && vm.accel == Tcg
                && vm.host.launches == old(vm.host.launches) + (if r.Ok? then [r.value] else [])
                && heard == old(heard) + [NotReady] + (if r.Ok? then [ready] else [])
      ensures fallbacks != old(fallbacks) && r.Ok? ==>
                r.value.kind == config.kind && r.value.accel == Tcg && r.value.machine == Q35
    {
      hide *;
      ghost var overlays := vm.host.overlays;
      SandboxIsKept(overlays);
      ready := WaitForGuest();
      r := Ok(config);
      if ready == NotReady && config.accel == Whpx {
        r, ready := FallBack(config.kind);
      }
    }

    /** `start_session_inner` up to the guest's last word: the first launch, the wait and, if a
        machine on hardware acceleration does not become ready, the retry. */
    method Boot(lesson: Option<string>) returns (r: Result<VmConfig, SessionError>, ready: GuestReply)
      requires Steady()
      modifies this, vm, vm.host
      ensures Steady() && starts == old(starts) + 1
      ensures vm.host.failures >= old(vm.host.failures) && vm.host.exits >= old(vm.host.exits)
      ensures vm.host.unrecorded >= old(vm.host.unrecorded)
      ensures r.Ok? && vm.host.unrecorded == old(vm.host.unrecorded) ==> vm.host.pidFile == vm.supervised
      ensures |vm.host.launches| > |old(vm.host.launches)| ==>
                vm.host.launches[|old(vm.host.launches)|].machine == old(vm.machine)
      ensures Launched(old(vm.host.launches), vm.host.launches, KindOf(lesson), old(vm.accel))
      ensures FellBack(old(vm.accel), vm.accel, vm.host.launches, old(vm.host.launches), fallbacks - old(fallbacks))
      ensures |heard| - |old(heard)| == |vm.host.launches| - |old(vm.host.launches)|
      ensures KeepsSandbox(old(vm.host.overlays), vm.host.overlays)
      ensures Decides(old(heard), heard, old(vm.accel), Verdict(r, ready))
      ensures fallbacks != old(fallbacks) || (r.Ok? && ready == NotReady) ==> Trouble() > old(Trouble())
      ensures Trouble() >= old(Trouble()) && (r.Ok? ==> ready != OtherReply)
      ensures r.Ok? ==>
                vm.config == Some(r.value) && agent == Some(AddressOf(r.value)) && session == Some(KindOf(lesson))
      ensures r.Ok? ==> r.value.kind == KindOf(lesson)
      ensures r.Ok? ==> LastLaunch(old(vm.host.launches), vm.host.launches) == Some(r.value)
      ensures r.Ok? ==> (ready == NotReady || vm.supervised.Some?) && (vm.supervised.None? ==> vm.host.pidFile == None)
      ensures r.Err? ==> BeforeLaunch(r.error) || r.error == FallbackFailed
      ensures r.Err? && vm.host.failures == old(vm.host.failures) ==>
                r == Err(UnknownLesson) || (r == Err(LaunchFailed(AlreadyRunning)) && old(vm.supervised).Some?)
      ensures r == Err(LaunchFailed(AlreadyRunning)) ==> !old(vm.Doomed()) || vm.host.failures > old(vm.host.failures)
      ensures vm.host.failures == old(vm.host.failures) && vm.host.exits == old(vm.host.exits) ==>
                || r == Err(UnknownLesson)
                || (r == Err(LaunchFailed(AlreadyRunning)) <==> old(vm.host.live) != {} && !old(vm.Doomed()))
      ensures r == Err(FallbackFailed) ==> agent == None && vm.host.live == {} && vm.supervised == None
      ensures r.Err? && !BeforeLaunch(r.error) ==> session == Some(KindOf(lesson))
      ensures r.Err? && BeforeLaunch(r.error) ==>
                agent == old(agent) && session == old(session) && vm.host.launches == old(vm.host.launches)
      ensures r == Err(LaunchFailed(SpawnFailed)) ==> vm.host.live == {} && vm.state == Starting
      ensures r == Err(UnknownLesson) ==> lesson.Some? && lesson.value !in lessons
      ensures lesson.Some? && lesson.value !in lessons ==> r == Err(InstallFailed) || r == Err(UnknownLesson)
    {
      hide *;
      ghost var before, accel, heardBefore, software := vm.host.launches, vm.accel, heard, fallbacks;
      ghost var overlays := vm.host.overlays;
      ready := NotReady;
      r := FirstLaunch(lesson);
      ghost var kept := vm.host.overlays;
      if r.Err? {
        Unlaunched(before, KindOf(lesson), accel);
        DecidesBefore(heardBefore, accel, r);
        VerdictOf(r, ready);
        NotFallenBack(accel, before, before);
        return;
      }
      var config := r.value;
      LaunchedOnce(before, config, accel);
      r, ready := AwaitGuest(config);
      SandboxStillKept(overlays, kept, vm.host.overlays);
      VerdictOf(r, ready);
      if fallbacks == software {
        DecidesOnce(heardBefore, ready, accel, config);
        NotFallenBack(accel, before, vm.host.launches);
      } else {
        DecidesTwice(heardBefore, ready, if r.Ok? then r.value else config);
        ThenFellBack(before, vm.host.launches);
        if r.Ok? {
          LaunchedTwice(before, config, r.value);
        } else {
          assert vm.host.launches == before + [config] && heard == heardBefore + [NotReady];
        }
        LateFailure();
      }
    }

    /** `start_session_inner`, with processes exiting at any moment.  What the guest answers decides
        how it ends, unless the host fails, the lesson is unknown or a machine was running already.

        At most two launches; never two processes at once; a second launch follows only a first
        one on hardware acceleration, uses software translation on q35 and never happens again; no
        lesson starts on a used layer, and the sandbox is kept.  Success ends ready, with one
        supervised process, the one launched last, and an agent client for exactly its port and
        token.  A guest that never becomes ready ends failed, with no process, no pid file and no
        agent client. */
    method StartSession(lesson: Option<string>) returns (r: Result<VmConfig, SessionError>)
      requires Valid()
      modifies this, vm, vm.host
      ensures Valid() && starts == old(starts) + 1
      ensures vm.host.failures >= old(vm.host.failures) && vm.host.exits >= old(vm.host.exits)
      ensures vm.host.unrecorded >= old(vm.host.unrecorded)
      ensures r.Ok? && vm.host.unrecorded == old(vm.host.unrecorded) ==> vm.host.pidFile == vm.supervised
      ensures |vm.host.launches| > |old(vm.host.launches)| ==>
                vm.host.launches[|old(vm.host.launches)|].machine == old(vm.machine)
      ensures Launched(old(vm.host.launches), vm.host.launches, KindOf(lesson), old(vm.accel))
      ensures FellBack(old(vm.accel), vm.accel, vm.host.launches, old(vm.host.launches), fallbacks - old(fallbacks))
      ensures |heard| - |old(heard)| == |vm.host.launches| - |old(vm.host.launches)|
      ensures KeepsSandbox(old(vm.host.overlays), vm.host.overlays)
      ensures Decides(old(heard), heard, old(vm.accel), r)
      ensures fallbacks != old(fallbacks) || r == Err(NeverReady) ==> Trouble() > old(Trouble())
      ensures r.Ok? ==> vm.state == Ready && vm.supervised.Some? && vm.config == Some(r.value)
                        && LastLaunch(old(vm.host.launches), vm.host.launches) == Some(r.value)
                        && agent == Some(AgentAddress(r.value.agentPort, r.value.token))
                        && session == Some(r.value.kind)
                        && r.value.kind == if lesson.Some? then LessonSession(lesson.value) else FreePractice
      ensures r.Err? && vm.host.failures == old(vm.host.failures) ==>
                || r == Err(NeverReady) || r == Err(UnknownLesson)
                || (r == Err(LaunchFailed(AlreadyRunning)) && old(vm.supervised).Some?)
      ensures r == Err(NeverReady) ==> vm.state == Failed && vm.supervised == None && vm.host.live == {}
                                       && vm.host.pidFile == None && agent == None
      ensures r == Err(LaunchFailed(AlreadyRunning)) ==> !old(vm.Doomed()) || vm.host.failures > old(vm.host.failures)
      ensures vm.host.failures == old(vm.host.failures) && vm.host.exits == old(vm.host.exits) ==>
                || r == Err(UnknownLesson)
                || (r == Err(LaunchFailed(AlreadyRunning)) <==> old(vm.host.live) != {} && !old(vm.Doomed()))
      ensures r == Err(FallbackFailed) ==> agent == None && vm.host.live == {} && vm.supervised == None
      ensures r.Err? && !BeforeLaunch(r.error) ==> session == Some(KindOf(lesson))
      ensures r.Err? && BeforeLaunch(r.error) ==>
                agent == old(agent) && session == old(session) && vm.host.launches == old(vm.host.launches)
      ensures r == Err(LaunchFailed(SpawnFailed)) ==> vm.host.live == {} && vm.state == Starting
      ensures r == Err(UnknownLesson) ==> lesson.Some? && lesson.value !in lessons
      ensures lesson.Some? && lesson.value !in lessons ==> r == Err(InstallFailed) || r == Err(UnknownLesson)
    {
      hide Launched, LastLaunch, Degrades, Decides, FellBack, Steady, Trouble, VmManager.Valid, VmManager.Doomed,
           KindOf, AddressOf, KeepsSandbox;
      ghost var before, accel, launched, software := vm.host.launches, vm.accel, starts, fallbacks;
      var ready;
      r, ready := Boot(lesson);
      SessionDegrades(before, vm.host.launches, KindOf(lesson), accel, vm.accel, fallbacks - software);
      if r.Ok? {
        AddressAndKind(r.value, lesson);
        r := Conclude(ready, r.value);
      }
    }
  }
}
