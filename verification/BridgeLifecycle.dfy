/** Boot, service and shutdown of the diagnostic bridge, after `app_main`, `stop_web_with_retry`,
 *  `web_poll_status` and `restart_after_cleanup_failure` in firmware/diagnostic-bridge/main/app_main.c and
 *  `canview_bridge_bootstrap` in bridge_bootstrap.c. Every call into a library or driver is answered by an
 *  arbitrary world, which may take the whole history into account. */
module BridgeLifecycle {
  import opened Prelude

  datatype Status = Fine | Timeout | NotImplemented | InvalidArgument | OtherStatus(code: int)

  datatype EspErr = EspOk | EspTimeout | EspOther(code: int)

  /** The calls that matter, with their answers, and the marks of this program. */
  datatype Event =
    | Preflight(status: Status)
    | SafeState(status: Status)
    | Runtime(status: Status)
    | CoreBoot(status: Status)
    | PoolInit(status: Status)
    | Credentials(esp: EspErr)
    | WebStart(esp: EspErr)
    | ArmWatchdog(status: Status)
    | WebStop(esp: EspErr)
    | Zeroed
    | Report(status: Status)
    | Wait(status: Status)
    | WebPoll(esp: EspErr)
    | CoreStep(status: Status)
    | Restart
    | Idle

  type History = seq<Event>

  /** The answers of the outside, the contents it leaves in the credential buffers, and the callbacks
      that the board and the runtime port offer. */
  datatype World = World(
    status: History -> Status,
    esp: History -> EspErr,
    digest: (History, nat) -> byte,
    password: (History, nat) -> byte,
    safeStateOffered: bool,
    idleOffered: bool,
    waitOffered: bool,
    reportOffered: bool)

  datatype Outcome = Restarted | Idling | Returned | Serving

  // ---------------------------------------------------------------- statuses

  function FromEsp(esp: EspErr): Status {
    if esp.EspOk? then Fine else if esp.EspTimeout? then Timeout else NotImplemented
  }

  /** The status that the program makes of an answer. */
  function StatusOf(e: Event): Status {
    match e
    case Credentials(esp) => if esp.EspOk? then Fine else NotImplemented
    case WebStart(esp) => FromEsp(esp)
    case WebStop(esp) => FromEsp(esp)
    case WebPoll(esp) => FromEsp(esp)
    case ArmWatchdog(status) => if status.Fine? then Fine else NotImplemented
    case Zeroed => Fine
    case Restart => Fine
    case Idle => Fine
    case _ => e.status
  }

  // ---------------------------------------------------------------- what a history may look like

  /** How far a history has come: boot stages passed, the place in the service cycle, whether the
      buffers are wiped, whether something failed, whether a web resource may be held, how many stops in a
      row failed, whether the run is over, how many steps, reports and naps there were, and the status of
      the last stage or turn. */
  datatype Progress = Progress(stage: nat, cycle: nat, wiped: bool, failed: bool, held: bool, stopFailures: nat, over: bool,
                               steps: nat, reports: nat, naps: nat, told: Status)

  const START := Progress(0, 0, false, false, false, 0, false, 0, 0, 0, Fine)
  const STAGES: nat := 8

  /** The boot stage of an event. */
  function StageOf(e: Event): Option<nat> {
    match e
    case Preflight(_) => Some(0)
    case SafeState(_) => Some(1)
    case Runtime(_) => Some(2)
    case CoreBoot(_) => Some(3)
    case PoolInit(_) => Some(4)
    case Credentials(_) => Some(5)
    case WebStart(_) => Some(6)
    case ArmWatchdog(_) => Some(7)
    case _ => None
  }

  /** The place of an event in the cycle of waiting, polling and stepping. */
  function CycleOf(e: Event): Option<nat> {
    match e
    case Wait(_) => Some(0)
    case WebPoll(_) => Some(1)
    case CoreStep(_) => Some(2)
    case _ => None
  }

  predicate Succeeded(e: Event) {
    match e
    case Credentials(esp) => esp.EspOk?
    case WebStart(esp) => esp.EspOk?
    case WebStop(esp) => esp.EspOk?
    case WebPoll(esp) => esp.EspOk?
    case Zeroed => true
    case Restart => true
    case Idle => true
    case _ => e.status.Fine?
  }

  /** The status of the last stage or turn; or an invalid argument, when the service cannot wait. */
  predicate Tellable(p: Progress, status: Status) {
    status == p.told || (status.InvalidArgument? && p.stage == STAGES && !p.failed)
  }

  predicate Allowed(p: Progress, e: Event) {
    && !p.over
    && (StageOf(e).Some? ==> p.stage == StageOf(e).value && !p.failed && !p.wiped)
    && (CycleOf(e).Some? ==> p.stage == STAGES && p.wiped && !p.failed && p.cycle == CycleOf(e).value)
    && (e.WebStop? ==> p.held && p.stopFailures < 2)
    && (e.Zeroed? ==> !p.wiped)
    && (e.Report? ==> p.wiped && p.stage >= 2 && Tellable(p, e.status))
    && (e.Restart? ==> p.held && p.stopFailures == 2)
    && (e.Idle? ==> p.wiped && !p.held)
  }

  function After(p: Progress, e: Event): Progress {
    Progress(
      if StageOf(e).Some? && Succeeded(e) then p.stage + 1 else p.stage,
      if CycleOf(e).Some? && Succeeded(e) then (p.cycle + 1) % 3 else p.cycle,
      p.wiped || e.Zeroed?,
      p.failed || ((StageOf(e).Some? || CycleOf(e).Some?) && !Succeeded(e)),
      if e.WebStart? then true else if e.WebStop? && Succeeded(e) then false else p.held,
      if e.WebStop? then if Succeeded(e) then 0 else p.stopFailures + 1 else p.stopFailures,
      p.over || e.Restart?,
      if e.CoreStep? && Succeeded(e) then p.steps + 1 else p.steps,
      if e.Report? then p.reports + 1 else p.reports,
      if e.Idle? then p.naps + 1 else p.naps,
      if StageOf(e).Some? || CycleOf(e).Some? then StatusOf(e) else p.told)
  }

  function ProgressOf(h: History): Progress {
    if h == [] then START else After(ProgressOf(h[..|h| - 1]), h[|h| - 1])
  }

  /** Every event was allowed when it happened. */
  predicate Lawful(h: History) {
    h != [] ==> Lawful(h[..|h| - 1]) && Allowed(ProgressOf(h[..|h| - 1]), h[|h| - 1])
  }

  lemma Extend(h: History, e: Event)
    ensures ProgressOf(h + [e]) == After(ProgressOf(h), e)
    ensures Lawful(h + [e]) <==> Lawful(h) && Allowed(ProgressOf(h), e)
  {
    assert (h + [e])[..|h|] == h;
  }

  // ---------------------------------------------------------------- the run, as a function of the world

  /** How far a run has come: its history, its status, whether the runtime port is filled in, and whether
      the web shell runs or the run is over. */
  datatype Reached = Reached(history: History, status: Status, filled: bool, webStarted: bool, restarted: bool)

  /** The next stage of the bootstrap, unless something failed before. */
  function Next(w: World, r: Reached, stage: Status -> Event): Reached {
    if !r.status.Fine? then r
    else r.(history := r.history + [stage(w.status(r.history))], status := w.status(r.history))
  }

  /** The preflight and the safe state of the board. */
  function SafeRun(w: World): Reached {
    var checked := Next(w, Reached([], Fine, false, false, false), s => Preflight(s));
    if checked.status.Fine? && !(w.safeStateOffered && w.idleOffered) then checked.(status := InvalidArgument)
    else Next(w, checked, s => SafeState(s))
  }

  /** The bootstrap, on arguments that are all given or not. */
  function BootstrapRun(w: World, given: bool): Reached {
    if !given then Reached([], InvalidArgument, false, false, false)
    else
      var safe := SafeRun(w);
      var ready := Next(w, safe.(filled := safe.status.Fine?), s => Runtime(s));
      Next(w, Next(w, ready, s => CoreBoot(s)), s => PoolInit(s))
  }

  function StopRun(w: World, h: History): (History, EspErr) {
    var first := h + [WebStop(w.esp(h))];
    if w.esp(h).EspOk? then (first, EspOk) else (first + [WebStop(w.esp(first))], w.esp(first))
  }

  /** Stop the web shell; restart when that fails. */
  function CleanupRun(w: World, h: History): (History, bool) {
    var (stopped, esp) := StopRun(w, h);
    if esp.EspOk? then (stopped, false) else (stopped + [Restart], true)
  }

  function Cleaned(w: World, r: Reached, status: Status): Reached {
    var (cleaned, restarted) := CleanupRun(w, r.history);
    r.(history := cleaned, status := status, restarted := restarted)
  }

  function ServicesRun(w: World, r: Reached): Reached {
    var esp := w.esp(r.history);
    var started := r.(history := r.history + [WebStart(esp)]);
    if !esp.EspOk? then Cleaned(w, started, FromEsp(esp))
    else
      var status := w.status(started.history);
      var armed := started.(history := started.history + [ArmWatchdog(status)]);
      if !status.Fine? then Cleaned(w, armed, NotImplemented) else armed.(status := Fine, webStarted := true)
  }

  function CredentialsRun(w: World, r: Reached): Reached {
    if !r.status.Fine? then r
    else
      var esp := w.esp(r.history);
      var loaded := r.(history := r.history + [Credentials(esp)]);
      if esp.EspOk? then ServicesRun(w, loaded) else loaded.(status := NotImplemented)
  }

  /** What is told to the board: the status, when it offers to listen and the port is filled in. */
  function Reports(w: World, filled: bool, status: Status): History {
    if filled && w.reportOffered then [Report(status)] else []
  }

  /** Everything before the service loop. A restart comes before the wiping. */
  function StartupRun(w: World): Reached {
    var r := CredentialsRun(w, BootstrapRun(w, true));
    if r.restarted then r else r.(history := r.history + [Zeroed] + Reports(w, r.filled, r.status))
  }

  function TurnRun(w: World, h: History): (History, Status) {
    var waited := h + [Wait(w.status(h))];
    if !w.status(h).Fine? then (waited, w.status(h))
    else
      var polled := waited + [WebPoll(w.esp(waited))];
      if !w.esp(waited).EspOk? then (polled, FromEsp(w.esp(waited)))
      else (polled + [CoreStep(w.status(polled))], w.status(polled))
  }

  function ServiceRun(w: World, h: History, status: Status, rounds: nat): (History, Status)
    decreases rounds
  {
    if !status.Fine? || rounds == 0 then (h, status)
    else if !w.waitOffered then (h, InvalidArgument)
    else
      var (next, outcome) := TurnRun(w, h);
      ServiceRun(w, next, outcome, rounds - 1)
  }

  function Naps(n: nat): History {
    seq(n, _ => Idle)
  }

  /** After the service loop: cleanup, the last report, and idling. */
  function ShutdownRun(w: World, r: Reached, naps: nat): (History, Outcome) {
    var (cleaned, restarted) := if r.webStarted then CleanupRun(w, r.history) else (r.history, false);
    if restarted then (cleaned, Restarted)
    else
      var reported := cleaned + Reports(w, r.filled, r.status);
      if w.idleOffered then (reported + Naps(naps), Idling) else (reported, Returned)
  }

  /** The whole of `app_main`. */
  function Run(w: World, rounds: nat, naps: nat): (History, Outcome) {
    var r := StartupRun(w);
    if r.restarted then (r.history, Restarted)
    else
      var (served, status) := ServiceRun(w, r.history, r.status, rounds);
      if status.Fine? then (served, Serving)
      else ShutdownRun(w, r.(history := served, status := status), naps)
  }

  // ---------------------------------------------------------------- the program

  class Bridge {
    const world: World
    const pinDigest: array<byte>
    const apPassword: array<byte>
    var history: History

    constructor (world: World, pinBytes: nat, passwordBytes: nat)
      ensures history == [] && this.world == world
      ensures fresh(pinDigest) && fresh(apPassword) && pinDigest != apPassword
      ensures pinDigest.Length == pinBytes && apPassword.Length == passwordBytes
    {
      this.world := world;
      pinDigest := new byte[pinBytes](_ => 0);
      apPassword := new byte[passwordBytes](_ => 0);
      history := [];
    }

    ghost predicate At(p: Progress)
      reads this
    {
      Lawful(history) && ProgressOf(history) == p
    }

    method Record(e: Event)
      requires Lawful(history) && Allowed(ProgressOf(history), e)
      modifies this
      ensures history == old(history) + [e]
      ensures At(After(old(ProgressOf(history)), e))
    {
      Extend(history, e);
      history := history + [e];
    }

    method SecureZero(data: array<byte>)
      modifies data
      ensures AllZero(data[..])
    {
      for i := 0 to data.Length
        invariant forall k :: 0 <= k < i ==> data[k] == 0
      {
        data[i] := 0;
      }
    }

    /** One boot stage: it moves on or fails. */
    method RecordStage(e: Event, ghost p: Progress)
      requires At(p) && Booting(p) && StageOf(e) == Some(p.stage)
      modifies this
      ensures history == old(history) + [e] && At(Staged(p, e))
    {
      StageAllowed(p, e);
      Record(e);
    }

    /** The part of the bootstrap that precedes the runtime port. */
    method EnterSafeState() returns (status: Status, ghost p: Progress)
      requires history == []
      modifies this
      ensures At(p) && p == START.(stage := p.stage, failed := p.failed, told := p.told) && p.stage <= 2
      ensures status.Fine? <==> p.stage == 2 && !p.failed
      ensures p.stage == 2 ==> status.Fine? && p.told.Fine?
      ensures Reached(history, status, false, false, false) == SafeRun(world)
      ensures p.stage == 1 && !p.failed <==>
                world.status([]).Fine? && !(world.safeStateOffered && world.idleOffered)
      ensures p.stage == 1 && !p.failed ==> status.InvalidArgument?
    {
      StartOfHistory();
      hide After, Allowed, ProgressOf, Lawful;
      p := START;
      status := world.status(history);
      RecordStage(Preflight(status), p);
      p := Staged(p, Preflight(status));
      if status.Fine? && (!world.safeStateOffered || !world.idleOffered) {
        status := InvalidArgument;
      } else if status.Fine? {
        status := world.status(history);
        RecordStage(SafeState(status), p);
        p := Staged(p, SafeState(status));
      }
    }

    /** `canview_bridge_bootstrap`, and whether the runtime port was filled in. */
    method Bootstrap(given: bool) returns (status: Status, filled: bool, ghost p: Progress)
      requires history == []
      modifies this
      ensures At(p) && p == START.(stage := p.stage, failed := p.failed, told := p.told) && p.stage <= 5
      ensures status.Fine? <==> p.stage == 5 && !p.failed
      ensures filled <==> p.stage >= 2
      ensures Reached(history, status, filled, false, false) == BootstrapRun(world, given)
      ensures !given ==> status.InvalidArgument? && history == []
      ensures p.stage == 1 && !p.failed <==>
                given && world.status([]).Fine? && !(world.safeStateOffered && world.idleOffered)
      ensures p.stage == 1 && !p.failed ==> status.InvalidArgument?
      ensures filled ==> status == p.told
    {
      StartOfHistory();
      hide After, Allowed, ProgressOf, Lawful, SafeRun;
      filled := false;
      p := START;
      if !given {
        status := InvalidArgument;
        return;
      }
      status, p := EnterSafeState();
      if status.Fine? {
        status := world.status(history);
        filled := true;
        RecordStage(Runtime(status), p);
        p := Staged(p, Runtime(status));
      }
      if status.Fine? {
        status := world.status(history);
        RecordStage(CoreBoot(status), p);
        p := Staged(p, CoreBoot(status));
      }
      if status.Fine? {
        status := world.status(history);
        RecordStage(PoolInit(status), p);
        p := Staged(p, PoolInit(status));
      }
    }

    /** Both buffers hold what the store gave out at this point of the history. */
    ghost predicate Loaded(h: History)
      reads pinDigest, apPassword
    {
      && (forall i :: 0 <= i < pinDigest.Length ==> pinDigest[i] == world.digest(h, i))
      && (forall i :: 0 <= i < apPassword.Length ==> apPassword[i] == world.password(h, i))
    }

    /** The loader leaves in both buffers whatever the store holds. */
    method LoadCredentials(ghost p: Progress) returns (esp: EspErr)
      requires At(p) && Booting(p) && p.stage == 5 && pinDigest != apPassword
      modifies this, pinDigest, apPassword
      ensures At(Staged(p, Credentials(esp)))
      ensures esp == world.esp(old(history)) && history == old(history) + [Credentials(esp)]
      ensures Loaded(old(history))
    {
      hide After, Allowed, ProgressOf, Lawful;
      forall i | 0 <= i < pinDigest.Length {
        pinDigest[i] := world.digest(history, i);
      }
      forall i | 0 <= i < apPassword.Length {
        apPassword[i] := world.password(history, i);
      }
      esp := world.esp(history);
      RecordStage(Credentials(esp), p);
    }

    /** Two attempts at most; the resource is gone when one of them succeeds. */
    method StopWebWithRetry(ghost p: Progress) returns (esp: EspErr)
      requires At(p) && Holding(p)
      modifies this
      ensures At(p.(held := !esp.EspOk?, stopFailures := if esp.EspOk? then 0 else 2))
      ensures (history, esp) == StopRun(world, old(history))
    {
      hide ProgressOf, Lawful;
      esp := world.esp(history);
      Record(WebStop(esp));
      if !esp.EspOk? {
        esp := world.esp(history);
        Record(WebStop(esp));
      }
    }

    /** The restart that follows a failed cleanup; it does not return to the program. */
    method RestartAfterCleanupFailure(ghost p: Progress)
      requires At(p) && !p.over && p.held && p.stopFailures == 2
      modifies this
      ensures At(p.(over := true)) && history == old(history) + [Restart]
    {
      hide ProgressOf, Lawful;
      Record(Restart);
    }

    /** Stop the web shell, and restart when that fails. */
    method Cleanup(ghost p0: Progress) returns (restarted: bool, ghost p: Progress)
      requires At(p0) && Holding(p0)
      modifies this
      ensures At(p) && p == p0.(held := restarted, stopFailures := if restarted then 2 else 0, over := restarted)
      ensures (history, restarted) == CleanupRun(world, old(history))
      ensures restarted ==> history != [] && history[|history| - 1] == Restart
    {
      hide After, Allowed, ProgressOf, Lawful;
      var esp := StopWebWithRetry(p0);
      restarted := !esp.EspOk?;
      p := p0.(held := restarted, stopFailures := if restarted then 2 else 0);
      if restarted {
        RestartAfterCleanupFailure(p);
        p := p.(over := true);
      }
    }

    /** Web start and watchdog, each undone by stopping the web shell when it fails. */
    method StartServices(filled: bool, ghost p0: Progress)
      returns (status: Status, started: bool, restarted: bool, ghost p: Progress)
      requires At(p0) && Booting(p0) && p0.stage == 6 && !p0.held && p0.cycle == 0
      modifies this
      ensures At(p) && p.over == restarted
      ensures !p.wiped
      ensures !restarted ==> p.stopFailures == 0 && p.cycle == 0 && p.held == started
      ensures !restarted ==> (status.Fine? <==> started) && (started <==> p.stage == STAGES && !p.failed)
      ensures restarted ==> p.stage < STAGES && history != [] && history[|history| - 1] == Restart
      ensures !restarted ==> status == p.told
      ensures p.stage >= 6 && p.steps == p0.steps && p.reports == p0.reports && p.naps == p0.naps
      ensures Reached(history, status, filled, started, restarted)
           == ServicesRun(world, Reached(old(history), Fine, filled, false, false))
    {
      hide After, Allowed, ProgressOf, Lawful;
      status, started, restarted := Fine, false, false;
      var esp := world.esp(history);
      RecordStage(WebStart(esp), p0);
      p := Staged(p0, WebStart(esp));
      if !esp.EspOk? {
        restarted, p := Cleanup(p);
        status := FromEsp(esp);
      } else {
        var armed := world.status(history);
        RecordStage(ArmWatchdog(armed), p);
        p := Staged(p, ArmWatchdog(armed));
        if !armed.Fine? {
          restarted, p := Cleanup(p);
          status := NotImplemented;
        } else {
          started := true;
        }
      }
    }

    method Wipe(ghost p: Progress)
      requires At(p) && !p.over && !p.wiped && pinDigest != apPassword
      modifies this, pinDigest, apPassword
      ensures AllZero(pinDigest[..]) && AllZero(apPassword[..]) && At(p.(wiped := true))
      ensures history == old(history) + [Zeroed]
    {
      hide ProgressOf, Lawful;
      SecureZero(pinDigest);
      SecureZero(apPassword);
      Record(Zeroed);
    }

    method ReportTo(filled: bool, status: Status, ghost p0: Progress) returns (ghost p: Progress)
      requires At(p0) && !p0.over && p0.wiped && (filled ==> p0.stage >= 2 && Tellable(p0, status))
      modifies this
      ensures At(p) && p == p0.(reports := if filled && world.reportOffered then p0.reports + 1 else p0.reports)
      ensures history == old(history) + Reports(world, filled, status)
    {
      hide ProgressOf, Lawful;
      p := p0;
      if filled && world.reportOffered {
        Record(Report(status));
        p := After(p, Report(status));
      }
    }

    /** One turn of the service loop. */
    method Serve(ghost p0: Progress) returns (status: Status, ghost p: Progress)
      requires At(p0) && InService(p0)
      modifies this
      ensures At(p) && p == p0.(cycle := p.cycle, failed := !status.Fine?, steps := p.steps, told := status)
      ensures status.Fine? ==> p.cycle == 0 && p.steps == p0.steps + 1
      ensures status.Fine? ==> history == old(history) + [Wait(Fine), WebPoll(EspOk), CoreStep(Fine)]
      ensures (history, status) == TurnRun(world, old(history))
    {
      hide ProgressOf, Lawful;
      p := p0;
      status := world.status(history);
      Record(Wait(status));
      p := After(p, Wait(status));
      if status.Fine? {
        var esp := world.esp(history);
        Record(WebPoll(esp));
        p := After(p, WebPoll(esp));
        status := FromEsp(esp);
      }
      if status.Fine? {
        status := world.status(history);
        Record(CoreStep(status));
        p := After(p, CoreStep(status));
      }
    }

    /** The service loop, observed for at most `rounds` turns. */
    method ServiceLoop(status0: Status, rounds: nat, ghost p0: Progress) returns (status: Status, ghost p: Progress)
      requires At(p0) && !p0.over && p0.wiped && p0.stopFailures == 0 && p0.steps == 0
      requires status0.Fine? ==> InService(p0)
      requires p0.stage >= 2 ==> status0 == p0.told
      modifies this
      ensures p0.stage >= 2 ==> Tellable(p, status) && (status == p.told || !world.waitOffered)
      ensures At(p) && p == p0.(cycle := p.cycle, failed := p.failed, steps := p.steps, told := p.told)
      ensures status.Fine? ==> InService(p) && p.steps == rounds
      ensures (history, status) == ServiceRun(world, old(history), status0, rounds)
    {
      hide After, Allowed, ProgressOf, Lawful, TurnRun;
      status, p := status0, p0;
      var round := 0;
      while status.Fine? && round < rounds
        invariant At(p) && p == p0.(cycle := p.cycle, failed := p.failed, steps := p.steps, told := p.told) && round <= rounds
        invariant status.Fine? ==> InService(p) && p.steps == round
        invariant p0.stage >= 2 ==> status == p.told
        invariant ServiceRun(world, old(history), status0, rounds) == ServiceRun(world, history, status, rounds - round)
      {
        if !world.waitOffered {
          status := InvalidArgument;
          break;
        }
        status, p := Serve(p);
        round := round + 1;
      }
    }

    /** Everything before the service loop: bootstrap, credentials, web start and watchdog, and in every
        case but a restart the wiping of both buffers and the first report. */
    method Startup() returns (r: Reached, ghost p: Progress)
      requires history == [] && pinDigest != apPassword
      modifies this, pinDigest, apPassword
      ensures At(p) && p.over == r.restarted
      ensures r == StartupRun(world) && r.history == history
      ensures r.restarted ==> p.stage < STAGES && history != [] && history[|history| - 1] == Restart
      ensures r.restarted ==> p.stage >= 6 && Loaded(BootstrapRun(world, true).history)
      ensures !r.restarted ==> AllZero(pinDigest[..]) && AllZero(apPassword[..])
      ensures p.wiped == !r.restarted
      ensures !r.restarted ==> p.stopFailures == 0 && p.held == r.webStarted && (r.webStarted ==> p.stage == STAGES)
      ensures !r.restarted && r.status.Fine? ==> InService(p)
      ensures p.steps == 0 && p.naps == 0 && (r.filled <==> p.stage >= 2)
      ensures !r.restarted && r.filled ==> r.status == p.told
      ensures !r.restarted ==> p.reports == if r.filled && world.reportOffered then 1 else 0
    {
      hide After, Allowed, ProgressOf, Lawful, AllZero, BootstrapRun, ServicesRun, Loaded;
      var webStarted, restarted := false, false;
      var status, filled;
      status, filled, p := Bootstrap(true);
      if status.Fine? {
        var credentials := LoadCredentials(p);
        p := Staged(p, Credentials(credentials));
        if !credentials.EspOk? {
          status := NotImplemented;
        }
      }
      if status.Fine? {
        status, webStarted, restarted, p := StartServices(filled, p);
        if restarted {
          r := Reached(history, status, filled, webStarted, restarted);
          return;
        }
      }
      Wipe(p);
      p := p.(wiped := true);
      p := ReportTo(filled, status, p);
      r := Reached(history, status, filled, webStarted, restarted);
    }

    /** Everything after the service loop. */
    method Shutdown(r: Reached, naps: nat, ghost p0: Progress) returns (outcome: Outcome, ghost p: Progress)
      requires At(p0) && history == r.history && !p0.over && p0.wiped && p0.stopFailures == 0 && p0.held == r.webStarted
      requires p0.naps == 0 && (r.filled ==> p0.stage >= 2 && Tellable(p0, r.status))
      modifies this
      ensures At(p)
      ensures (history, outcome) == ShutdownRun(world, r, naps)
      ensures outcome.Restarted? ==> r.webStarted && history != [] && history[|history| - 1] == Restart
      ensures !outcome.Restarted? ==>
                && p == p0.(held := false, naps := p.naps, reports := p.reports)
                && p.naps == (if outcome.Idling? then naps else 0)
                && p.reports == (if r.filled && world.reportOffered then p0.reports + 1 else p0.reports)
      ensures outcome.Restarted? || outcome.Idling? || outcome.Returned?
      ensures outcome.Returned? ==> !world.idleOffered
      ensures p.wiped && p.stage == p0.stage
    {
      hide After, Allowed, ProgressOf, Lawful, CleanupRun;
      p := p0;
      if r.webStarted {
        var restarted;
        restarted, p := Cleanup(p);
        if restarted {
          return Restarted, p;
        }
      }
      p := ReportTo(r.filled, r.status, p);
      if !world.idleOffered {
        return Returned, p;
      }
      Nap(naps, p);
      p := p.(naps := naps);
      outcome := Idling;
    }

    /** `app_main`, observed for at most `rounds` turns of the service loop and `naps` of the idle loop. */
    method AppMain(rounds: nat, naps: nat) returns (outcome: Outcome)
      requires history == [] && pinDigest != apPassword
      modifies this, pinDigest, apPassword
      ensures Lawful(history)
      ensures (history, outcome) == Run(world, rounds, naps)
      ensures ProgressOf(history).wiped <==> !StartupRun(world).restarted
      ensures ProgressOf(history).wiped <==> !outcome.Restarted? || ProgressOf(history).stage == STAGES
      ensures ProgressOf(history).wiped ==> AllZero(pinDigest[..]) && AllZero(apPassword[..])
      ensures !ProgressOf(history).wiped ==> Loaded(BootstrapRun(world, true).history)
      ensures outcome.Idling? || outcome.Returned? ==> !ProgressOf(history).held
      ensures outcome.Restarted? ==> history != [] && history[|history| - 1] == Restart
      ensures outcome.Serving? ==> InService(ProgressOf(history)) && ProgressOf(history).steps == rounds
      ensures outcome.Returned? ==> !world.idleOffered
      ensures outcome.Idling? ==> ProgressOf(history).naps == naps
      ensures outcome.Idling? || outcome.Returned? ==>
                var p := ProgressOf(history);
                p.reports == if p.stage >= 2 && world.reportOffered then 2 else 0
    {
      hide After, Allowed, ProgressOf, Lawful, AllZero, Loaded, BootstrapRun, StartupRun, ServiceRun, ShutdownRun;
      var r, p := Startup();
      if r.restarted {
        return Restarted;
      }
      var status;
      status, p := ServiceLoop(r.status, rounds, p);
      if status.Fine? {
        return Serving;
      }
      outcome, p := Shutdown(r.(history := history, status := status), naps, p);
    }

    /** The idle loop. */
    method Nap(naps: nat, ghost p: Progress)
      requires At(p) && !p.over && p.wiped && !p.held && p.naps == 0
      modifies this
      ensures At(p.(naps := naps)) && history == old(history) + Naps(naps)
    {
      hide ProgressOf, Lawful;
      assert old(history) + Naps(0) == old(history);
      for nap := 0 to naps
        invariant At(p.(naps := nap)) && history == old(history) + Naps(nap)
      {
        Record(Idle);
        assert old(history) + Naps(nap) + [Idle] == old(history) + Naps(nap + 1);
      }
    }
  }

  ghost predicate Booting(p: Progress) {
    !p.over && !p.failed && !p.wiped && p.stopFailures == 0
  }

  ghost predicate Holding(p: Progress) {
    !p.over && p.held && p.stopFailures == 0
  }

  ghost predicate InService(p: Progress) {
    !p.over && p.stage == STAGES && p.wiped && !p.failed && p.cycle == 0
  }

  ghost function Staged(p: Progress, e: Event): Progress {
    p.(stage := if Succeeded(e) then p.stage + 1 else p.stage, failed := !Succeeded(e), held := p.held || e.WebStart?,
      told := StatusOf(e))
  }

  lemma StartOfHistory()
    ensures Lawful([]) && ProgressOf([]) == START
  {
  }

  lemma StageAllowed(p: Progress, e: Event)
    requires Booting(p) && StageOf(e) == Some(p.stage)
    ensures Allowed(p, e) && After(p, e) == Staged(p, e)
  {
  }

  // ---------------------------------------------------------------- what lawful histories guarantee

  lemma {:induction false} Lawfulness(h: History, i: nat)
    requires Lawful(h) && i < |h|
    ensures Allowed(ProgressOf(h[..i]), h[i]) && ProgressOf(h[..i + 1]) == After(ProgressOf(h[..i]), h[i])
    decreases |h|
  {
    var init := h[..|h| - 1];
    if i < |h| - 1 {
      Lawfulness(init, i);
      assert init[..i] == h[..i] && init[..i + 1] == h[..i + 1];
    } else {
      assert h[..i + 1] == h;
    }
  }

  ghost predicate Passed(h: History, k: nat, j: nat) {
    j < |h| && StageOf(h[j]) == Some(k) && Succeeded(h[j])
  }

  lemma {:induction false} StagePassed(h: History, k: nat) returns (j: nat)
    requires Lawful(h) && k < ProgressOf(h).stage
    ensures Passed(h, k, j)
  {
    var init, last := h[..|h| - 1], h[|h| - 1];
    if k < ProgressOf(init).stage {
      j := StagePassed(init, k);
    } else {
      j := |h| - 1;
    }
  }

  lemma {:induction false} WipedBefore(h: History) returns (j: nat)
    requires ProgressOf(h).wiped
    ensures j < |h| && h[j].Zeroed?
  {
    if h[|h| - 1].Zeroed? {
      j := |h| - 1;
    } else {
      j := WipedBefore(h[..|h| - 1]);
    }
  }

  /** Before every wait, poll and step, each of the eight boot stages succeeded and the credential buffers
      were wiped. */
  lemma ServicePreceded(h: History, i: nat, k: nat) returns (stage: nat, wipe: nat)
    requires Lawful(h) && i < |h| && CycleOf(h[i]).Some? && k < STAGES
    ensures stage < i && StageOf(h[stage]) == Some(k) && Succeeded(h[stage])
    ensures wipe < i && h[wipe].Zeroed?
  {
    Lawfulness(h, i);
    PrefixLawful(h, i);
    stage := StagePassed(h[..i], k);
    wipe := WipedBefore(h[..i]);
  }

  lemma {:induction false} PrefixLawful(h: History, i: nat)
    requires Lawful(h) && i <= |h|
    ensures Lawful(h[..i])
    decreases |h|
  {
    if i < |h| {
      PrefixLawful(h[..|h| - 1], i);
      assert h[..|h| - 1][..i] == h[..i];
    } else {
      assert h[..i] == h;
    }
  }

  lemma {:induction false} FailureStays(h: History, i: nat, j: nat)
    requires Lawful(h) && i <= j <= |h|
    ensures ProgressOf(h[..i]).failed ==> ProgressOf(h[..j]).failed
    decreases j - i
  {
    if i < j {
      Lawfulness(h, j - 1);
      FailureStays(h, i, j - 1);
    }
  }

  /** Nothing is booted, waited for, polled or stepped after the first failure. */
  lemma NothingAfterFailure(h: History, i: nat, j: nat)
    requires Lawful(h) && i < j < |h|
    requires (StageOf(h[i]).Some? || CycleOf(h[i]).Some?) && !Succeeded(h[i])
    ensures StageOf(h[j]).None? && CycleOf(h[j]).None?
  {
    Lawfulness(h, i);
    FailureStays(h, i + 1, j);
    Lawfulness(h, j);
  }

  lemma {:induction false} HeldSince(h: History, i: nat, start: nat) returns (stop: nat)
    requires Lawful(h) && start < i <= |h| && h[start].WebStart? && !ProgressOf(h[..i]).held
    ensures start < stop < i && h[stop] == WebStop(EspOk)
    decreases i
  {
    hide Lawful, ProgressOf, Allowed;
    Lawfulness(h, i - 1);
    if h[i - 1] == WebStop(EspOk) {
      stop := i - 1;
    } else {
      StillFree(ProgressOf(h[..i - 1]), h[i - 1]);
      hide After;
      stop := HeldSince(h, i - 1, start);
    }
  }

  lemma StillFree(p: Progress, e: Event)
    requires e != WebStop(EspOk) && !After(p, e).held
    ensures !p.held && !e.WebStart?
  {
  }

  /** The program idles only with nothing of the web shell left: every start was followed by a stop that
      succeeded. */
  lemma IdleIsClean(h: History, i: nat, start: nat) returns (stop: nat)
    requires Lawful(h) && start < i < |h| && h[i].Idle? && h[start].WebStart?
    ensures start < stop < i && h[stop] == WebStop(EspOk)
  {
    Lawfulness(h, i);
    stop := HeldSince(h, i, start);
  }

  /** A restart ends the run, and happens only with a web resource still held. */
  lemma RestartIsLast(h: History, i: nat)
    requires Lawful(h) && i < |h| && h[i].Restart?
    ensures i == |h| - 1 && ProgressOf(h[..i]).held
  {
    Lawfulness(h, i);
    if i + 1 < |h| {
      Lawfulness(h, i + 1);
    }
  }

  lemma {:induction false} ToldBy(h: History) returns (j: nat)
    requires Lawful(h) && ProgressOf(h).stage >= 1
    ensures j < |h| && (StageOf(h[j]).Some? || CycleOf(h[j]).Some?) && StatusOf(h[j]) == ProgressOf(h).told
    ensures forall k :: j < k < |h| ==> StageOf(h[k]).None? && CycleOf(h[k]).None?
  {
    var init, last := h[..|h| - 1], h[|h| - 1];
    if StageOf(last).Some? || CycleOf(last).Some? {
      j := |h| - 1;
    } else {
      j := ToldBy(init);
    }
  }

  /** Every report carries the status of the last boot stage or service event before it; or an invalid
      argument, when everything succeeded but the service cannot wait. */
  lemma ReportTells(h: History, i: nat) returns (j: nat)
    requires Lawful(h) && i < |h| && h[i].Report?
    ensures j < i && (StageOf(h[j]).Some? || CycleOf(h[j]).Some?)
    ensures forall k :: j < k < i ==> StageOf(h[k]).None? && CycleOf(h[k]).None?
    ensures h[i].status == StatusOf(h[j])
            || (h[i].status.InvalidArgument? && ProgressOf(h[..i]).stage == STAGES && !ProgressOf(h[..i]).failed)
  {
    Lawfulness(h, i);
    PrefixLawful(h, i);
    hide Lawful, ProgressOf, After, StageOf, CycleOf, StatusOf;
    j := ToldBy(h[..i]);
  }

  // ---------------------------------------------------------------- restarts that do not wipe

  /** The program restarts before wiping exactly in a world that boots and gives out the credentials,
      refuses the web shell or the watchdog, and then refuses to stop the web shell twice. */
  lemma StartupRestarts(w: World)
    ensures StartupRun(w).restarted <==>
              var boot := BootstrapRun(w, true);
              && boot.status.Fine? && w.esp(boot.history).EspOk?
              && var loaded := boot.history + [Credentials(EspOk)];
                 var started := loaded + [WebStart(w.esp(loaded))];
                 var tried := if w.esp(loaded).EspOk? then started + [ArmWatchdog(w.status(started))] else started;
                 && (!w.esp(loaded).EspOk? || !w.status(started).Fine?)
                 && !w.esp(tried).EspOk?
                 && !w.esp(tried + [WebStop(w.esp(tried))]).EspOk?
  {
    NotYetOver(w);
    hide BootstrapRun;
  }

  lemma NotYetOver(w: World)
    ensures !BootstrapRun(w, true).restarted
  {
  }

  /** Everything succeeds but the web shell, which neither starts nor stops; the store holds ones. */
  const REFUSING := World(_ => Fine, (h: History) => if |h| == 5 then EspOk else EspOther(1), (_, _) => 1, (_, _) => 1,
                          true, true, true, true)

  lemma RefusingRun(rounds: nat, naps: nat)
    ensures BootstrapRun(REFUSING, true)
         == Reached([Preflight(Fine), SafeState(Fine), Runtime(Fine), CoreBoot(Fine), PoolInit(Fine)], Fine, true, false, false)
    ensures StartupRun(REFUSING).restarted
    ensures Run(REFUSING, rounds, naps)
         == ([Preflight(Fine), SafeState(Fine), Runtime(Fine), CoreBoot(Fine), PoolInit(Fine), Credentials(EspOk),
              WebStart(EspOther(1)), WebStop(EspOther(1)), WebStop(EspOther(1)), Restart], Restarted)
  {
    assert StartupRun(REFUSING).history
        == [Preflight(Fine), SafeState(Fine), Runtime(Fine), CoreBoot(Fine), PoolInit(Fine), Credentials(EspOk),
            WebStart(EspOther(1)), WebStop(EspOther(1)), WebStop(EspOther(1)), Restart];
  }

  /** A run that restarts, and what both buffers hold at that moment: the secrets. */
  method SecretsSurvive(bytes: nat, rounds: nat, naps: nat)
    returns (outcome: Outcome, pinDigest: seq<byte>, apPassword: seq<byte>)
    ensures outcome == Restarted && |pinDigest| == |apPassword| == bytes
    ensures forall i :: 0 <= i < bytes ==> pinDigest[i] == apPassword[i] == 1
  {
    RefusingRun(rounds, naps);
    hide Run, StartupRun, BootstrapRun, ProgressOf, Lawful;
    var bridge := new Bridge(REFUSING, bytes, bytes);
    outcome := bridge.AppMain(rounds, naps);
    pinDigest, apPassword := bridge.pinDigest[..], bridge.apPassword[..];
  }

  // ---------------------------------------------------------------- what the program makes of an answer

  /** Failed credentials and a failed watchdog count as not implemented, and so does a refusal of the web shell
      unless it timed out; the other calls answer with their own status. */
  lemma AnswersRead(status: Status, code: int)
    ensures StatusOf(Credentials(EspOk)) == Fine
    ensures StatusOf(Credentials(EspTimeout)) == StatusOf(Credentials(EspOther(code))) == NotImplemented
    ensures StatusOf(WebStart(EspOk)) == StatusOf(WebStop(EspOk)) == StatusOf(WebPoll(EspOk)) == Fine
    ensures StatusOf(WebStart(EspTimeout)) == StatusOf(WebStop(EspTimeout)) == StatusOf(WebPoll(EspTimeout)) == Timeout
    ensures StatusOf(WebStart(EspOther(code))) == StatusOf(WebStop(EspOther(code))) == StatusOf(WebPoll(EspOther(code)))
         == NotImplemented
    ensures StatusOf(ArmWatchdog(status)) == (if status == Fine then Fine else NotImplemented)
    ensures StatusOf(Preflight(status)) == StatusOf(SafeState(status)) == StatusOf(Runtime(status)) == status
    ensures StatusOf(CoreBoot(status)) == StatusOf(PoolInit(status)) == StatusOf(Wait(status)) == status
    ensures StatusOf(CoreStep(status)) == status
  {
  }

  /** The bootstrap asks in this order, each question knowing the answers before it, and stops at the first refusal;
      a board that cannot be made safe or cannot idle is refused after its preflight. */
  lemma BootOrder(w: World)
    ensures var r := BootstrapRun(w, true);
            var h1 := [Preflight(w.status([]))];
            var h2 := h1 + [SafeState(w.status(h1))];
            var h3 := h2 + [Runtime(w.status(h2))];
            var h4 := h3 + [CoreBoot(w.status(h3))];
            var h5 := h4 + [PoolInit(w.status(h4))];
            if w.status([]) != Fine then r.history == h1 && r.status == w.status([])
            else if !w.safeStateOffered || !w.idleOffered then r.history == h1 && r.status == InvalidArgument
            else if w.status(h1) != Fine then r.history == h2 && r.status == w.status(h1)
            else if w.status(h2) != Fine then r.history == h3 && r.status == w.status(h2)
            else if w.status(h3) != Fine then r.history == h4 && r.status == w.status(h3)
            else r.history == h5 && r.status == w.status(h4)
  {
    var first := Preflight(w.status([]));
    assert [] + [first] == [first];
  }

  /** A run that serves has passed all stages in their order and wiped the buffers. */
  lemma ServiceOrder(w: World)
    requires StartupRun(w).webStarted
    ensures StartupRun(w).history
         == [Preflight(Fine), SafeState(Fine), Runtime(Fine), CoreBoot(Fine), PoolInit(Fine), Credentials(EspOk),
             WebStart(EspOk), ArmWatchdog(Fine), Zeroed]
            + if w.reportOffered then [Report(Fine)] else []
    ensures StartupRun(w).status == Fine
  {
    BootOrder(w);
    NotYetOver(w);
    assert !BootstrapRun(w, true).webStarted;
  }
}
