/** The Stop protocol and run lifecycle of native/privileged_helper.cpp.
  *
  * The fields guarded by active_mutex_ are a class whose methods are the critical sections,
  * each proved against a function on a snapshot.  Main thread, worker thread, watchdog thread
  * and child then form a step machine with one atomic step per critical section, per signal
  * and per emitted event, in any interleaving.  Process ids are fresh. */
module StopProtocol {
  import opened Wrappers

  /** kStopGracePeriod in milliseconds. */
  const GRACE: nat := 300000

  const NO_PID: int := -1

  // ---------------------------------------------------------------- critical sections

  /** Snapshot of the fields guarded by active_mutex_. */
  datatype Guarded = Guarded(activePid: int, stopReady: bool, waitsForOutput: bool, pendingStop: bool, workerRunning: bool,
                             watchdogArmed: bool, watchdogPid: int, watchdogDeadline: nat)

  function Accept(g: Guarded, engine: bool): Guarded {
    g.(workerRunning := true, waitsForOutput := engine, pendingStop := false)
  }

  function Abandon(g: Guarded): Guarded {
    g.(workerRunning := false)
  }

  function StopOnStart(g: Guarded): bool {
    g.pendingStop && !g.waitsForOutput
  }

  function Publish(g: Guarded, child: int): Guarded {
    g.(activePid := child, stopReady := false, pendingStop := g.pendingStop && !StopOnStart(g))
  }

  function TakesQueued(g: Guarded): bool {
    !g.stopReady && g.pendingStop
  }

  function Ready(g: Guarded): Guarded {
    if g.stopReady then g else g.(stopReady := true, pendingStop := false)
  }

  /** A Stop has to wait while the child is unknown or has not announced its handlers. */
  function Defers(g: Guarded): bool {
    g.workerRunning && (g.activePid <= 0 || (g.waitsForOutput && !g.stopReady))
  }

  function Queue(g: Guarded): Guarded {
    g.(pendingStop := g.pendingStop || Defers(g))
  }

  predicate ArmTakes(g: Guarded, pid: int) {
    pid > 0 && g.workerRunning && g.activePid == pid
  }

  function Arm(g: Guarded, pid: int, now: nat): Guarded {
    if !ArmTakes(g, pid) then g
    else g.(watchdogPid := pid, watchdogDeadline := now + GRACE, watchdogArmed := true)
  }

  function Disarm(g: Guarded): Guarded {
    g.(watchdogArmed := false)
  }

  function GoIdle(g: Guarded, child: int): Guarded {
    g.(activePid := NO_PID, stopReady := false, waitsForOutput := false, pendingStop := false, workerRunning := false,
       watchdogArmed := g.watchdogArmed && g.watchdogPid != child,
       watchdogPid := if g.watchdogPid == child then NO_PID else g.watchdogPid)
  }

  class Helper {
    var activePid: int
    var stopReady: bool
    var waitsForOutput: bool
    var pendingStop: bool
    var workerRunning: bool
    var watchdogArmed: bool
    var watchdogPid: int
    var watchdogDeadline: nat

    function Snapshot(): Guarded
      reads this
    {
      Guarded(activePid, stopReady, waitsForOutput, pendingStop, workerRunning, watchdogArmed, watchdogPid, watchdogDeadline)
    }

    constructor ()
      ensures Snapshot() == Guarded(NO_PID, false, false, false, false, false, NO_PID, 0)
    {
      activePid, stopReady, waitsForOutput, pendingStop, workerRunning := NO_PID, false, false, false, false;
      watchdogArmed, watchdogPid, watchdogDeadline := false, NO_PID, 0;
    }

    /** handle_run, second critical section. */
    method AcceptRun(engine: bool)
      modifies this
      ensures Snapshot() == Accept(old(Snapshot()), engine)
    {
      workerRunning := true;
      waitsForOutput := engine;
      pendingStop := false;
    }

    /** handle_run when the worker thread cannot be created. */
    method AbandonRun()
      modifies this
      ensures Snapshot() == Abandon(old(Snapshot()))
    {
      workerRunning := false;
    }

    /** run_request after the child has been spawned. */
    method PublishChild(child: int) returns (stopOnStart: bool)
      modifies this
      ensures Snapshot() == Publish(old(Snapshot()), child) && stopOnStart == StopOnStart(old(Snapshot()))
    {
      activePid := child;
      stopReady := false;
      stopOnStart := pendingStop && !waitsForOutput;
      if stopOnStart {
        pendingStop := false;
      }
    }

    /** run_request when the readiness marker has been read. */
    method ReadMarker() returns (deliverQueued: bool)
      modifies this
      ensures Snapshot() == Ready(old(Snapshot())) && deliverQueued == TakesQueued(old(Snapshot()))
    {
      deliverQueued := false;
      if !stopReady {
        stopReady := true;
        deliverQueued := pendingStop;
        pendingStop := false;
      }
    }

    /** handle_stop. */
    method DecideStop() returns (pid: int, running: bool, defer: bool)
      modifies this
      ensures Snapshot() == Queue(old(Snapshot())) && defer == Defers(old(Snapshot()))
      ensures pid == old(activePid) && running == old(workerRunning)
    {
      pid := activePid;
      running := workerRunning;
      defer := running && (pid <= 0 || (waitsForOutput && !stopReady));
      if defer {
        pendingStop := true;
      }
    }

    /** arm_stop_watchdog. */
    method ArmStopWatchdog(pid: int, now: nat)
      modifies this
      ensures Snapshot() == Arm(old(Snapshot()), pid, now)
    {
      if pid <= 0 {
        return;
      }
      if !workerRunning || activePid != pid {
        return;
      }
      watchdogPid := pid;
      watchdogDeadline := now + GRACE;
      watchdogArmed := true;
    }

    /** stop_watchdog_loop when the wait has timed out without a change. */
    method ExpireWatchdog()
      modifies this
      ensures Snapshot() == Disarm(old(Snapshot()))
    {
      watchdogArmed := false;
    }

    /** run_request, last critical section. */
    method PublishIdle(child: int)
      modifies this
      ensures Snapshot() == GoIdle(old(Snapshot()), child)
    {
      activePid := NO_PID;
      stopReady := false;
      waitsForOutput := false;
      pendingStop := false;
      workerRunning := false;
      if watchdogPid == child {
        watchdogArmed := false;
        watchdogPid := NO_PID;
      }
    }
  }

  // ---------------------------------------------------------------- the step machine

  datatype Sender = ByClientStop | ByQueuedStop | ByQuit | ByReaper | ByWatchdog

  /** What happens, in order.  Timed is the watchdog beginning to wait for a deadline; sent is the
    * outcome of a kill. */
  datatype Event =
    | Rejected
    | Accepted(engine: bool)
    | ThreadFailed
    | Spawned(pid: int, forEngine: bool)
    | Started(pid: int)
    | MarkerRead(pid: int)
    | StopQueued
    | Signal(sender: Sender, pid: int, sent: bool)
    | Armed(pid: int, at: nat)
    | Timed(pid: int, deadline: nat)
    | Expired(pid: int, at: nat)
    | IdlePublished
    | Finished(delivered: bool)

  datatype Main =
    | Reading
    | RunChecked(engine: bool)
    | Joined(engine: bool)
    | RunAccepted(engine: bool)
    | StopDecided(pid: int, running: bool, defer: bool)
    | StopArming(pid: int)
    | Quitting(signalled: int)
    | QuitKilling(pid: int, signalled: int)
    | QuitArming(pid: int)
    | QuitJoining
    | Exited

  datatype Worker =
    | NoThread
    | Starting
    | ChildSpawned(child: int)
    | ChildPublished(child: int, stopOnStart: bool)
    | Delivering(child: int)
    | DeliveryArming(child: int)
    | ReadingOutput(child: int)
    | Reaping(child: int)
    | Finishing(child: int)
    | IdleDone
    | ThreadEnded

  datatype Watchdog = Waiting | Timing(pid: int, deadline: nat) | Killing(pid: int)

  datatype State = State(g: Guarded, main: Main, worker: Worker, watchdog: Watchdog,
                         now: nat, nextPid: int, transportFailed: bool, log: seq<Event>)

  const InitialState: State :=
    State(Guarded(NO_PID, false, false, false, false, false, NO_PID, 0), Reading, NoThread, Waiting, 0, 1, false, [])

  datatype Step =
    | RunRequest(engine: bool)
    | JoinWorker
    | AcceptRequest
    | CreateThread(created: bool)
    | StopRequest
    | StopReply(signalled: bool)
    | StopArm
    | QuitRequest
    | QuitCheck
    | QuitKill(outcome: KillOutcome)
    | QuitArm
    | QuitJoin
    | RefuseCommand
    | SpawnChild
    | PublishStep
    | EmitStarted(sent: bool)
    | DeliverQueued(signalled: bool)
    | DeliveryArm
    | ReadReadyMarker
    | ReadLine(sent: bool)
    | OutputFails
    | OutputEnds
    | ReapChild(sent: bool)
    | PublishIdleStep
    | EmitFinished(sent: bool)
    | WatchdogNotices
    | WatchdogSeesChange
    | WatchdogExpires
    | WatchdogKills(running: bool, sent: bool)
    | Tick(elapsed: nat)

  /** Outcome of kill: delivered, no such process group, or another error. */
  datatype KillOutcome = Killed | NoSuchProcess | OtherError

  predicate JoinableEnd(w: Worker) {
    w.NoThread? || w.ThreadEnded?
  }

  /** The condition that wakes the watchdog before its deadline. */
  predicate WatchdogChanged(g: Guarded, pid: int) {
    !g.watchdogArmed || g.watchdogPid != pid || !g.workerRunning || g.activePid != pid
  }

  function Logged(s: State, e: Event): State {
    s.(log := s.log + [e])
  }

  /** arm_stop_watchdog as a step: logs the arming if it takes effect. */
  function ArmStep(s: State, pid: int): State {
    if ArmTakes(s.g, pid) then Logged(s.(g := Arm(s.g, pid, s.now)), Armed(pid, s.now)) else s
  }

  /** One step of the main thread; None when it is not enabled. */
  function MainStep(s: State, step: Step): Option<State> {
    match (s.main, step)
    case (Reading, RunRequest(engine)) =>
      if s.g.workerRunning || s.g.activePid > 0 then Some(Logged(s, Rejected)) else Some(s.(main := RunChecked(engine)))
    case (RunChecked(engine), JoinWorker) =>
      if JoinableEnd(s.worker) then Some(s.(main := Joined(engine), worker := NoThread)) else None
    case (Joined(engine), AcceptRequest) =>
      Some(Logged(s.(g := Accept(s.g, engine), main := RunAccepted(engine)), Accepted(engine)))
    case (RunAccepted(_), CreateThread(created)) =>
      if created then Some(s.(main := Reading, worker := Starting))
      else Some(Logged(s.(g := Abandon(s.g), main := Reading), ThreadFailed))
    case (Reading, StopRequest) =>
      var next := s.(g := Queue(s.g), main := StopDecided(s.g.activePid, s.g.workerRunning, Defers(s.g)));
      Some(if Defers(s.g) then Logged(next, StopQueued) else next)
    case (StopDecided(pid, running, defer), StopReply(signalled)) =>
      if (!running && pid <= 0) || defer then Some(s.(main := Reading))
      else
        var next := Logged(s, Signal(ByClientStop, pid, signalled));
        Some(next.(main := if signalled then StopArming(pid) else Reading))
    case (StopArming(pid), StopArm) => Some(ArmStep(s, pid).(main := Reading))
    case (Reading, QuitRequest) => Some(s.(main := Quitting(NO_PID)))
    case (Quitting(signalled), QuitCheck) =>
      if !s.g.workerRunning then Some(s.(main := QuitJoining))
      else if s.g.activePid <= 0 || s.g.activePid == signalled then Some(s)
      else Some(s.(main := QuitKilling(s.g.activePid, signalled)))
    case (QuitKilling(pid, signalled), QuitKill(outcome)) =>
      var next := Logged(s, Signal(ByQuit, pid, outcome == Killed));
      Some(next.(main := match outcome
                         case Killed => QuitArming(pid)
                         case NoSuchProcess => Quitting(pid)
                         case OtherError => Quitting(signalled)))
    case (QuitArming(pid), QuitArm) => Some(ArmStep(s, pid).(main := Quitting(pid)))
    case (QuitJoining, QuitJoin) =>
      if JoinableEnd(s.worker) then Some(s.(main := Exited, worker := NoThread)) else None
    case _ => None
  }

  /** One step of the worker thread; an emission can only succeed while the transport is intact. */
  function WorkerStep(s: State, step: Step): Option<State> {
    match (s.worker, step)
    case (Starting, RefuseCommand) => Some(s.(worker := Finishing(NO_PID)))
    case (Starting, SpawnChild) =>
      Some(Logged(s.(worker := ChildSpawned(s.nextPid), nextPid := s.nextPid + 1), Spawned(s.nextPid, s.g.waitsForOutput)))
    case (ChildSpawned(child), PublishStep) =>
      Some(s.(g := Publish(s.g, child), worker := ChildPublished(child, StopOnStart(s.g))))
    case (ChildPublished(child, stopOnStart), EmitStarted(sent)) =>
      if !sent then Some(s.(worker := Reaping(child), transportFailed := true))
      else if s.transportFailed then None
      else Some(Logged(s.(worker := if stopOnStart then Delivering(child) else ReadingOutput(child)), Started(child)))
    case (Delivering(child), DeliverQueued(signalled)) =>
      Some(Logged(s.(worker := if signalled then DeliveryArming(child) else ReadingOutput(child)), Signal(ByQueuedStop, child, signalled)))
    case (DeliveryArming(child), DeliveryArm) => Some(ArmStep(s, child).(worker := ReadingOutput(child)))
    case (ReadingOutput(child), ReadReadyMarker) =>
      Some(Logged(s.(g := Ready(s.g), worker := if TakesQueued(s.g) then Delivering(child) else ReadingOutput(child)), MarkerRead(child)))
    case (ReadingOutput(child), ReadLine(sent)) =>
      if !sent then Some(s.(worker := Reaping(child), transportFailed := true))
      else if s.transportFailed then None else Some(s)
    case (ReadingOutput(child), OutputFails) => Some(s.(worker := Reaping(child)))
    case (ReadingOutput(child), OutputEnds) => Some(s.(worker := Finishing(child)))
    case (Reaping(child), ReapChild(sent)) => Some(Logged(s.(worker := Finishing(child)), Signal(ByReaper, child, sent)))
    case (Finishing(child), PublishIdleStep) => Some(Logged(s.(g := GoIdle(s.g, child), worker := IdleDone), IdlePublished))
    case (IdleDone, EmitFinished(sent)) =>
      if sent && s.transportFailed then None
      else Some(Logged(s.(worker := ThreadEnded, transportFailed := s.transportFailed || !sent), Finished(sent)))
    case _ => None
  }

  /** One step of the watchdog thread, or of the clock. */
  function WatchdogStep(s: State, step: Step): Option<State> {
    match (s.watchdog, step)
    case (Waiting, WatchdogNotices) =>
      if !s.g.watchdogArmed then None
      else
        Some(Logged(s.(watchdog := Timing(s.g.watchdogPid, s.g.watchdogDeadline)), Timed(s.g.watchdogPid, s.g.watchdogDeadline)))
    case (Timing(pid, _), WatchdogSeesChange) =>
      if WatchdogChanged(s.g, pid) then Some(s.(watchdog := Waiting)) else None
    case (Timing(pid, deadline), WatchdogExpires) =>
      if WatchdogChanged(s.g, pid) || s.now < deadline then None
      else Some(Logged(s.(g := Disarm(s.g), watchdog := Killing(pid)), Expired(pid, s.now)))
    case (Killing(pid), WatchdogKills(running, sent)) =>
      Some((if running then Logged(s, Signal(ByWatchdog, pid, sent)) else s).(watchdog := Waiting))
    case (_, Tick(elapsed)) => Some(s.(now := s.now + elapsed))
    case _ => None
  }

  function DoStep(s: State, step: Step): Option<State> {
    var main := MainStep(s, step);
    if main.Some? then main
    else
      var worker := WorkerStep(s, step);
      if worker.Some? then worker else WatchdogStep(s, step)
  }

  /** The state after a sequence of steps; None if one of them was not enabled. */
  function Run(steps: seq<Step>): Option<State> {
    if steps == [] then Some(InitialState)
    else
      var before := Run(steps[..|steps| - 1]);
      if before.None? then None else DoStep(before.value, steps[|steps| - 1])
  }

  // ---------------------------------------------------------------- the critical sections drive the machine

  /** arm_stop_watchdog by a thread. */
  method ArmTurn(h: Helper, s: State, pid: int) returns (next: State)
    requires s.g == h.Snapshot()
    modifies h
    ensures next == ArmStep(s, pid) && h.Snapshot() == next.g
  {
    var takes := pid > 0 && h.workerRunning && h.activePid == pid;
    h.ArmStopWatchdog(pid, s.now);
    next := s.(g := h.Snapshot());
    if takes {
      next := Logged(next, Armed(pid, s.now));
    }
  }

  /** handle_run on the object; the state follows it. */
  method RunTurn(h: Helper, s: State, step: Step) returns (next: Option<State>)
    requires s.g == h.Snapshot()
    requires step.RunRequest? || step.JoinWorker? || step.AcceptRequest? || step.CreateThread?
    modifies h
    ensures next == MainStep(s, step) && h.Snapshot() == (if next.Some? then next.value.g else s.g)
  {
    hide ArmStep, Accept, Abandon, Queue, Defers;
    match (s.main, step) {
      case (Reading, RunRequest(engine)) =>
        if h.workerRunning || h.activePid > 0 {
          return Some(Logged(s, Rejected));
        }
        return Some(s.(main := RunChecked(engine)));
      case (RunChecked(engine), JoinWorker) =>
        return if JoinableEnd(s.worker) then Some(s.(main := Joined(engine), worker := NoThread)) else None;
      case (Joined(engine), AcceptRequest) =>
        h.AcceptRun(engine);
        return Some(Logged(s.(g := h.Snapshot(), main := RunAccepted(engine)), Accepted(engine)));
      case (RunAccepted(_), CreateThread(created)) =>
        if created {
          return Some(s.(main := Reading, worker := Starting));
        }
        h.AbandonRun();
        return Some(Logged(s.(g := h.Snapshot(), main := Reading), ThreadFailed));
      case _ =>
        return None;
    }
  }

  /** handle_stop on the object. */
  method StopTurn(h: Helper, s: State, step: Step) returns (next: Option<State>)
    requires s.g == h.Snapshot()
    requires step.StopRequest? || step.StopReply? || step.StopArm?
    modifies h
    ensures next == MainStep(s, step) && h.Snapshot() == (if next.Some? then next.value.g else s.g)
  {
    hide ArmStep, Accept, Abandon, Queue, Defers;
    match (s.main, step) {
      case (Reading, StopRequest) =>
        var pid, running, defer := h.DecideStop();
        var decided := s.(g := h.Snapshot(), main := StopDecided(pid, running, defer));
        return Some(if defer then Logged(decided, StopQueued) else decided);
      case (StopDecided(pid, running, defer), StopReply(signalled)) =>
        if (!running && pid <= 0) || defer {
          return Some(s.(main := Reading));
        }
        return Some(Logged(s, Signal(ByClientStop, pid, signalled)).(main := if signalled then StopArming(pid) else Reading));
      case (StopArming(pid), StopArm) =>
        var armed := ArmTurn(h, s, pid);
        return Some(armed.(main := Reading));
      case _ =>
        return None;
    }
  }

  /** stop_active_and_wait on the object. */
  method QuitTurn(h: Helper, s: State, step: Step) returns (next: Option<State>)
    requires s.g == h.Snapshot()
    requires step.QuitRequest? || step.QuitCheck? || step.QuitKill? || step.QuitArm? || step.QuitJoin?
    modifies h
    ensures next == MainStep(s, step) && h.Snapshot() == (if next.Some? then next.value.g else s.g)
  {
    hide ArmStep, Accept, Abandon, Queue, Defers;
    match (s.main, step) {
      case (Reading, QuitRequest) =>
        return Some(s.(main := Quitting(NO_PID)));
      case (Quitting(signalled), QuitCheck) =>
        if !h.workerRunning {
          return Some(s.(main := QuitJoining));
        }
        var pid := h.activePid;
        return Some(if pid <= 0 || pid == signalled then s else s.(main := QuitKilling(pid, signalled)));
      case (QuitKilling(pid, signalled), QuitKill(outcome)) =>
        var killed := Logged(s, Signal(ByQuit, pid, outcome == Killed));
        return Some(killed.(main := if outcome == Killed then QuitArming(pid)
                                    else if outcome == NoSuchProcess then Quitting(pid) else Quitting(signalled)));
      case (QuitArming(pid), QuitArm) =>
        var armed := ArmTurn(h, s, pid);
        return Some(armed.(main := Quitting(pid)));
      case (QuitJoining, QuitJoin) =>
        return if JoinableEnd(s.worker) then Some(s.(main := Exited, worker := NoThread)) else None;
      case _ =>
        return None;
    }
  }

  /** One step of the main thread on the object. */
  method MainTurn(h: Helper, s: State, step: Step) returns (next: Option<State>)
    requires s.g == h.Snapshot()
    modifies h
    ensures next == MainStep(s, step) && h.Snapshot() == (if next.Some? then next.value.g else s.g)
  {
    if step.RunRequest? || step.JoinWorker? || step.AcceptRequest? || step.CreateThread? {
      hide MainStep;
      next := RunTurn(h, s, step);
    } else if step.StopRequest? || step.StopReply? || step.StopArm? {
      hide MainStep;
      next := StopTurn(h, s, step);
    } else if step.QuitRequest? || step.QuitCheck? || step.QuitKill? || step.QuitArm? || step.QuitJoin? {
      hide MainStep;
      next := QuitTurn(h, s, step);
    } else {
      next := None;
    }
  }

  /** run_request up to the delivery of a queued Stop, on the object. */
  method LaunchTurn(h: Helper, s: State, step: Step) returns (next: Option<State>)
    requires s.g == h.Snapshot()
    requires step.RefuseCommand? || step.SpawnChild? || step.PublishStep? || step.EmitStarted? || step.DeliverQueued? || step.DeliveryArm?
    modifies h
    ensures next == WorkerStep(s, step) && h.Snapshot() == (if next.Some? then next.value.g else s.g)
  {
    hide ArmStep, Publish, Ready, GoIdle, StopOnStart, TakesQueued;
    match (s.worker, step) {
      case (Starting, RefuseCommand) =>
        return Some(s.(worker := Finishing(NO_PID)));
      case (Starting, SpawnChild) =>
        var child := s.nextPid;
        return Some(Logged(s.(worker := ChildSpawned(child), nextPid := child + 1), Spawned(child, h.waitsForOutput)));
      case (ChildSpawned(child), PublishStep) =>
        var stopOnStart := h.PublishChild(child);
        return Some(s.(g := h.Snapshot(), worker := ChildPublished(child, stopOnStart)));
      case (ChildPublished(child, stopOnStart), EmitStarted(sent)) =>
        if !sent {
          return Some(s.(worker := Reaping(child), transportFailed := true));
        }
        if s.transportFailed {
          return None;
        }
        return Some(Logged(s.(worker := if stopOnStart then Delivering(child) else ReadingOutput(child)), Started(child)));
      case (Delivering(child), DeliverQueued(signalled)) =>
        return Some(Logged(s.(worker := if signalled then DeliveryArming(child) else ReadingOutput(child)),
                           Signal(ByQueuedStop, child, signalled)));
      case (DeliveryArming(child), DeliveryArm) =>
        var armed := ArmTurn(h, s, child);
        return Some(armed.(worker := ReadingOutput(child)));
      case _ =>
        return None;
    }
  }

  /** run_request from the output of the child on, on the object. */
  method OutputTurn(h: Helper, s: State, step: Step) returns (next: Option<State>)
    requires s.g == h.Snapshot()
    requires step.ReadReadyMarker? || step.ReadLine? || step.OutputFails? || step.OutputEnds?
    modifies h
    ensures next == WorkerStep(s, step) && h.Snapshot() == (if next.Some? then next.value.g else s.g)
  {
    hide ArmStep, Publish, Ready, GoIdle, StopOnStart, TakesQueued;
    match (s.worker, step) {
      case (ReadingOutput(child), ReadReadyMarker) =>
        var deliver := h.ReadMarker();
        return Some(Logged(s.(g := h.Snapshot(), worker := if deliver then Delivering(child) else ReadingOutput(child)),
                           MarkerRead(child)));
      case (ReadingOutput(child), ReadLine(sent)) =>
        if !sent {
          return Some(s.(worker := Reaping(child), transportFailed := true));
        }
        return if s.transportFailed then None else Some(s);
      case (ReadingOutput(child), OutputFails) =>
        return Some(s.(worker := Reaping(child)));
      case (ReadingOutput(child), OutputEnds) =>
        return Some(s.(worker := Finishing(child)));
      case _ =>
        return None;
    }
  }

  /** The worker's steps from the end of the child's output to the end of the thread. */
  method FinishTurn(h: Helper, s: State, step: Step) returns (next: Option<State>)
    requires s.g == h.Snapshot()
    requires step.ReapChild? || step.PublishIdleStep? || step.EmitFinished?
    modifies h
    ensures next == WorkerStep(s, step) && h.Snapshot() == (if next.Some? then next.value.g else s.g)
  {
    hide ArmStep, Publish, Ready, GoIdle, StopOnStart, TakesQueued;
    match (s.worker, step) {
      case (Reaping(child), ReapChild(sent)) =>
        return Some(Logged(s.(worker := Finishing(child)), Signal(ByReaper, child, sent)));
      case (Finishing(child), PublishIdleStep) =>
        h.PublishIdle(child);
        return Some(Logged(s.(g := h.Snapshot(), worker := IdleDone), IdlePublished));
      case (IdleDone, EmitFinished(sent)) =>
        if sent && s.transportFailed {
          return None;
        }
        return Some(Logged(s.(worker := ThreadEnded, transportFailed := s.transportFailed || !sent), Finished(sent)));
      case _ =>
        return None;
    }
  }

  /** One step of the worker thread on the object. */
  method WorkerTurn(h: Helper, s: State, step: Step) returns (next: Option<State>)
    requires s.g == h.Snapshot()
    modifies h
    ensures next == WorkerStep(s, step) && h.Snapshot() == (if next.Some? then next.value.g else s.g)
  {
    if step.RefuseCommand? || step.SpawnChild? || step.PublishStep? || step.EmitStarted? || step.DeliverQueued? || step.DeliveryArm? {
      hide WorkerStep;
      next := LaunchTurn(h, s, step);
    } else if step.ReadReadyMarker? || step.ReadLine? || step.OutputFails? || step.OutputEnds? {
      hide WorkerStep;
      next := OutputTurn(h, s, step);
    } else if step.ReapChild? || step.PublishIdleStep? || step.EmitFinished? {
      hide WorkerStep;
      next := FinishTurn(h, s, step);
    } else {
      next := None;
    }
  }

  /** The watchdog's wait has timed out; the deadline and the guarded fields decide. */
  method ExpiryTurn(h: Helper, s: State) returns (next: Option<State>)
    requires s.g == h.Snapshot() && s.watchdog.Timing?
    modifies h
    ensures next == WatchdogStep(s, WatchdogExpires) && h.Snapshot() == (if next.Some? then next.value.g else s.g)
  {
    var pid, deadline := s.watchdog.pid, s.watchdog.deadline;
    if !h.watchdogArmed || h.watchdogPid != pid || !h.workerRunning || h.activePid != pid || s.now < deadline {
      return None;
    }
    h.ExpireWatchdog();
    next := Some(Logged(s.(g := h.Snapshot(), watchdog := Killing(pid)), Expired(pid, s.now)));
  }

  /** One step of the watchdog thread on the object, or of the clock. */
  method WatchdogTurn(h: Helper, s: State, step: Step) returns (next: Option<State>)
    requires s.g == h.Snapshot()
    modifies h
    ensures next == WatchdogStep(s, step) && h.Snapshot() == (if next.Some? then next.value.g else s.g)
  {
    match (s.watchdog, step) {
      case (Waiting, WatchdogNotices) =>
        if !h.watchdogArmed {
          return None;
        }
        var pid, deadline := h.watchdogPid, h.watchdogDeadline;
        return Some(Logged(s.(watchdog := Timing(pid, deadline)), Timed(pid, deadline)));
      case (Timing(pid, _), WatchdogSeesChange) =>
        var changed := !h.watchdogArmed || h.watchdogPid != pid || !h.workerRunning || h.activePid != pid;
        return if changed then Some(s.(watchdog := Waiting)) else None;
      case (Timing(pid, deadline), WatchdogExpires) =>
        next := ExpiryTurn(h, s);
      case (Killing(pid), WatchdogKills(running, sent)) =>
        var killed := if running then Logged(s, Signal(ByWatchdog, pid, sent)) else s;
        return Some(killed.(watchdog := Waiting));
      case (_, Tick(elapsed)) =>
        return Some(s.(now := s.now + elapsed));
      case _ =>
        return None;
    }
  }

  lemma {:induction false} StuckStaysStuck(steps: seq<Step>, k: nat)
    requires k <= |steps| && Run(steps[..k]).None?
    ensures Run(steps).None?
    decreases |steps|
  {
    if k < |steps| {
      assert steps[..|steps| - 1][..k] == steps[..k];
      StuckStaysStuck(steps[..|steps| - 1], k);
    } else {
      assert steps[..k] == steps;
    }
  }

  lemma RunOneMore(steps: seq<Step>, k: nat)
    requires k < |steps| && Run(steps[..k]).Some?
    ensures Run(steps[..k + 1]) == DoStep(Run(steps[..k]).value, steps[k])
  {
    var more := steps[..k + 1];
    assert more[..|more| - 1] == steps[..k];
  }

  /** Driving the object's critical sections through any schedule of the threads is exactly the run
    * of the step machine, so what is proved of all runs holds of the object: after every schedule
    * its fields are those of the run and the invariant holds. */
  method Execute(h: Helper, steps: seq<Step>) returns (state: Option<State>)
    requires h.Snapshot() == InitialState.g
    modifies h
    ensures state == Run(steps)
    ensures state.Some? ==> h.Snapshot() == state.value.g && Inv(state.value)
  {
    hide DoStep, Inv, MainStep, WorkerStep, WatchdogStep;
    var s := InitialState;
    assert steps[..0] == [];
    for k := 0 to |steps|
      invariant Run(steps[..k]) == Some(s) && h.Snapshot() == s.g
    {
      RunOneMore(steps, k);
      StepIsOfSomeThread(s, steps[k]);
      var next := MainTurn(h, s, steps[k]);
      if next.None? {
        next := WorkerTurn(h, s, steps[k]);
      }
      if next.None? {
        next := WatchdogTurn(h, s, steps[k]);
      }
      if next.None? {
        StuckStaysStuck(steps, k + 1);
        return None;
      }
      s := next.value;
    }
    assert steps[..|steps|] == steps;
    RunKeeps(steps);
    return Some(s);
  }

  lemma StepIsOfSomeThread(s: State, step: Step)
    ensures DoStep(s, step) == if MainStep(s, step).Some? then MainStep(s, step)
                               else if WorkerStep(s, step).Some? then WorkerStep(s, step) else WatchdogStep(s, step)
  {
    hide MainStep, WorkerStep, WatchdogStep;
  }

  // ---------------------------------------------------------------- independent lifecycle specification

  /** What the log says about the run in progress. */
  datatype Phase =
    | Rest
    | Busy(child: int, engine: bool, started: bool, marked: bool, queued: bool, delivered: bool)
    | Idle
    | Wrong

  /** The protocol as an automaton over events.  It goes Wrong when runs overlap, when
    * "finished" is missing, doubled or early, when a Stop reaches an engine before its marker,
    * when a queued Stop is delivered twice, unasked or not at all although the run got to the
    * point of delivery, or when the watchdog expires on anything but the current child. */
  function NextPhase(p: Phase, e: Event): Phase {
    match (p, e)
    case (Wrong, _) => Wrong
    case (_, Rejected) => p
    case (_, Armed(_, _)) => p
    case (_, Timed(_, _)) => p
    case (Rest, Accepted(engine)) => Busy(NO_PID, engine, false, false, false, false)
    case (Busy(child, _, _, _, _, _), ThreadFailed) => if child == NO_PID && !p.queued then Rest else Wrong
    case (Busy(child, engine, _, _, _, _), Spawned(pid, forEngine)) =>
      if child == NO_PID && pid > 0 && engine == forEngine then p.(child := pid) else Wrong
    case (Busy(child, _, started, _, _, _), Started(pid)) => if child == pid && pid > 0 && !started then p.(started := true) else Wrong
    case (Busy(child, _, started, _, _, _), MarkerRead(pid)) => if child == pid && started then p.(marked := true) else Wrong
    case (Busy(_, engine, started, marked, _, delivered), StopQueued) =>
      if delivered || (engine && marked) || (!engine && started) then Wrong else p.(queued := true)
    case (Busy(child, engine, started, marked, queued, delivered), Signal(ByQueuedStop, pid, _)) =>
      if child == pid && queued && !delivered && (if engine then marked else started) then p.(delivered := true) else Wrong
    case (_, Signal(ByQueuedStop, _, _)) => Wrong
    case (Busy(child, engine, _, marked, _, _), Signal(ByClientStop, pid, _)) =>
      if child == pid && engine && !marked then Wrong else p
    case (Busy(child, _, _, _, _, _), Signal(ByReaper, pid, _)) => if child == pid then p else Wrong
    case (_, Signal(ByReaper, _, _)) => Wrong
    case (_, Signal(_, _, _)) => p
    case (Busy(child, _, _, _, _, _), Expired(pid, _)) => if child == pid then p else Wrong
    case (Busy(_, engine, started, marked, queued, delivered), IdlePublished) =>
      if queued && !delivered && (if engine then marked else started) then Wrong else Idle
    case (Idle, Finished(_)) => Rest
    case _ => Wrong
  }

  function PhaseOf(log: seq<Event>): Phase {
    if log == [] then Rest else NextPhase(PhaseOf(log[..|log| - 1]), log[|log| - 1])
  }

  lemma PhaseAppend(log: seq<Event>, e: Event)
    ensures PhaseOf(log + [e]) == NextPhase(PhaseOf(log), e)
  {
    assert (log + [e])[..|log|] == log;
  }

  /** The child is not an engine, or its readiness marker has been read. */
  predicate MayStop(log: seq<Event>, pid: int) {
    Spawned(pid, false) in log || MarkerRead(pid) in log
  }

  /** No client Stop, direct or queued, was signalled to an engine child before its marker was read. */
  ghost predicate SafeSignals(log: seq<Event>) {
    forall i :: 0 <= i < |log| && log[i].Signal? && log[i].sender in {ByClientStop, ByQueuedStop} ==> MayStop(log[..i], log[i].pid)
  }

  /** Every expiry comes at least the grace period after the watchdog was armed for that child. */
  ghost predicate PatientWatchdog(log: seq<Event>) {
    forall i :: 0 <= i < |log| && log[i].Expired? ==>
      exists t: nat :: Armed(log[i].pid, t) in log[..i] && t + GRACE <= log[i].at
  }

  // ---------------------------------------------------------------- invariant

  predicate IdleFields(g: Guarded) {
    !g.workerRunning && g.activePid == NO_PID && !g.stopReady && !g.pendingStop
  }

  /** The run has got to where a queued Stop is delivered. */
  predicate Reached(p: Phase)
    requires p.Busy?
  {
    if p.engine then p.marked else p.started
  }

  /** The guarded fields and the log agree on a run in progress. */
  predicate BusyFields(g: Guarded, p: Phase, child: int, published: bool) {
    && p.Busy? && p.child == child && (published ==> child > 0)
    && g.workerRunning && g.waitsForOutput == p.engine
    && g.activePid == (if published then child else NO_PID)
    && g.stopReady == p.marked && (p.marked ==> p.started)
    && (p.delivered ==> p.queued && Reached(p))
  }

  /** Where each worker position stands in the protocol. */
  predicate PhaseInv(g: Guarded, main: Main, worker: Worker, p: Phase) {
    match worker
    case NoThread =>
      if main.RunAccepted? then
        BusyFields(g, p, NO_PID, false) && !p.started && !p.queued && !g.pendingStop && p.engine == main.engine
      else p == Rest && IdleFields(g)
    case ThreadEnded => p == Rest && IdleFields(g) && !main.RunAccepted? && !main.Joined?
    case IdleDone => p == Idle && IdleFields(g) && !main.RunAccepted? && !main.Joined?
    case Starting => BusyFields(g, p, NO_PID, false) && !p.started && p.queued == g.pendingStop && NotAccepting(main)
    case ChildSpawned(child) =>
      child > 0 && BusyFields(g, p, child, false) && !p.started && p.queued == g.pendingStop && NotAccepting(main)
    case ChildPublished(child, stopOnStart) =>
      && BusyFields(g, p, child, true) && !p.started && p.queued == (g.pendingStop || stopOnStart)
      && (if p.engine then !stopOnStart else !g.pendingStop) && NotAccepting(main)
    case Delivering(child) =>
      BusyFields(g, p, child, true) && p.started && p.queued && !p.delivered && Reached(p) && !g.pendingStop && NotAccepting(main)
    case DeliveryArming(child) =>
      BusyFields(g, p, child, true) && p.started && p.delivered && !g.pendingStop && NotAccepting(main)
    case ReadingOutput(child) =>
      && BusyFields(g, p, child, true) && p.started && NotAccepting(main)
      && (if Reached(p) then !g.pendingStop && p.queued == p.delivered else !p.delivered && p.queued == g.pendingStop)
    case Reaping(child) =>
      BusyFields(g, p, child, true) && NotAccepting(main) && (Reached(p) ==> p.queued == p.delivered)
    case Finishing(child) =>
      if child == NO_PID then BusyFields(g, p, NO_PID, false) && !p.started && NotAccepting(main)
      else BusyFields(g, p, child, true) && NotAccepting(main) && (Reached(p) ==> p.queued == p.delivered)
  }

  predicate NotAccepting(m: Main) {
    !m.RunChecked? && !m.Joined? && !m.RunAccepted? && !m.QuitJoining? && !m.Exited?
  }

  /** Process ids in the log are old, and those of the current child tell its kind and marker. */
  ghost predicate PidInv(nextPid: int, log: seq<Event>, p: Phase) {
    && nextPid > 0
    && (forall pid, e :: Spawned(pid, e) in log ==> 0 < pid < nextPid)
    && (forall pid :: MarkerRead(pid) in log ==> 0 < pid < nextPid)
    && (forall pid :: !(Spawned(pid, true) in log && Spawned(pid, false) in log))
    && (p.Busy? && p.child > 0 ==>
          && p.child < nextPid
          && Spawned(p.child, p.engine) in log && Spawned(p.child, !p.engine) !in log
          && (p.marked <==> MarkerRead(p.child) in log))
  }

  /** A direct Stop under way is one that the child may receive. */
  predicate MainInv(main: Main, log: seq<Event>) {
    main.StopDecided? && !main.defer && (main.running || main.pid > 0) ==> MayStop(log, main.pid)
  }

  ghost predicate WasArmed(log: seq<Event>, pid: int, deadline: int) {
    exists t: nat :: Armed(pid, t) in log && t + GRACE == deadline
  }

  /** An armed watchdog names the current child of the running worker. */
  predicate ArmedNamesChild(g: Guarded) {
    g.watchdogArmed ==> g.workerRunning && g.watchdogPid > 0 && g.watchdogPid == g.activePid
  }

  ghost predicate WatchInv(g: Guarded, watchdog: Watchdog, log: seq<Event>) {
    && ArmedNamesChild(g)
    && (g.watchdogArmed ==> WasArmed(log, g.watchdogPid, g.watchdogDeadline))
    && (watchdog.Timing? ==> WasArmed(log, watchdog.pid, watchdog.deadline))
  }

  ghost predicate Inv(s: State) {
    var p := PhaseOf(s.log);
    && PhaseInv(s.g, s.main, s.worker, p)
    && PidInv(s.nextPid, s.log, p)
    && MainInv(s.main, s.log)
    && WatchInv(s.g, s.watchdog, s.log)
    && SafeSignals(s.log) && PatientWatchdog(s.log)
  }

  // ---------------------------------------------------------------- preservation

  /** Appending an event keeps everything the log already shows. */
  lemma AppendKeeps(log: seq<Event>, e: Event)
    requires SafeSignals(log) && PatientWatchdog(log)
    requires e.Signal? && e.sender in {ByClientStop, ByQueuedStop} ==> MayStop(log, e.pid)
    requires e.Expired? ==> exists t: nat :: Armed(e.pid, t) in log && t + GRACE <= e.at
    ensures SafeSignals(log + [e]) && PatientWatchdog(log + [e])
    ensures forall x :: x in log + [e] <==> x in log || x == e
    ensures forall pid, d :: WasArmed(log, pid, d) ==> WasArmed(log + [e], pid, d)
  {
    var next := log + [e];
    forall i | 0 <= i < |next|
      ensures next[..i] == log[..i]
    {}
    assert forall i :: 0 <= i < |log| ==> next[i] == log[i] && next[..i] == log[..i];
    assert next[..|log|] == log;
  }

  /** Events other than a spawn or a marker leave the knowledge about process ids as it is. */
  lemma PidsKept(nextPid: int, log: seq<Event>, p: Phase, e: Event)
    requires PidInv(nextPid, log, p) && !e.Spawned? && !e.MarkerRead?
    ensures PidInv(nextPid, log + [e], NextPhase(p, e))
  {
    assert forall x :: x in log + [e] <==> x in log || x == e;
  }

  /** Watchdog knowledge and pending decisions survive growth of the log. */
  lemma DecisionsKept(main: Main, g: Guarded, watchdog: Watchdog, log: seq<Event>, e: Event)
    ensures MainInv(main, log) ==> MainInv(main, log + [e])
    ensures WatchInv(g, watchdog, log) ==> WatchInv(g, watchdog, log + [e])
  {
    assert forall x :: x in log ==> x in log + [e];
    assert forall pid, d :: WasArmed(log, pid, d) ==> WasArmed(log + [e], pid, d);
  }

  /** The phase, and what the log shows, after one more event. */
  lemma LogGrows(s: State, next: State, e: Event)
    requires Inv(s) && next.log == s.log + [e]
    requires e.Signal? && e.sender in {ByClientStop, ByQueuedStop} ==> MayStop(s.log, e.pid)
    requires e.Expired? ==> exists t: nat :: Armed(e.pid, t) in s.log && t + GRACE <= e.at
    ensures PhaseOf(next.log) == NextPhase(PhaseOf(s.log), e)
    ensures SafeSignals(next.log) && PatientWatchdog(next.log)
    ensures !e.Spawned? && !e.MarkerRead? ==> PidInv(s.nextPid, next.log, PhaseOf(next.log))
    ensures MainInv(s.main, next.log) && WatchInv(s.g, s.watchdog, next.log)
  {
    hide SafeSignals, PatientWatchdog, NextPhase, PidInv, MainInv, WatchInv, PhaseInv;
    PhaseAppend(s.log, e);
    AppendKeeps(s.log, e);
    DecisionsKept(s.main, s.g, s.watchdog, s.log, e);
    if !e.Spawned? && !e.MarkerRead? {
      PidsKept(s.nextPid, s.log, PhaseOf(s.log), e);
    }
  }

  lemma ArmedNow(log: seq<Event>, pid: int, t: nat)
    requires Armed(pid, t) in log
    ensures WasArmed(log, pid, t + GRACE)
  {}

  lemma RunRequestKeeps(s: State, step: Step)
    requires Inv(s) && s.main.Reading? && step.RunRequest? && MainStep(s, step).Some?
    ensures Inv(MainStep(s, step).value)
  {
    hide SafeSignals, PatientWatchdog, PhaseOf, PidInv, WasArmed, MayStop;
    var next := MainStep(s, step).value;
    if s.g.workerRunning || s.g.activePid > 0 {
      LogGrows(s, next, Rejected);
    }
  }

  lemma JoinWorkerKeeps(s: State, step: Step)
    requires Inv(s) && s.main.RunChecked? && step.JoinWorker? && MainStep(s, step).Some?
    ensures Inv(MainStep(s, step).value)
  {
    hide SafeSignals, PatientWatchdog, PhaseOf, PidInv, NextPhase, WatchInv, MayStop;
    var next := MainStep(s, step).value;
  }

  lemma AcceptRequestKeeps(s: State, step: Step)
    requires Inv(s) && s.main.Joined? && step.AcceptRequest? && MainStep(s, step).Some?
    ensures Inv(MainStep(s, step).value)
  {
    hide SafeSignals, PatientWatchdog, PhaseOf, PidInv, WasArmed, MayStop;
    var next := MainStep(s, step).value;
    LogGrows(s, next, Accepted(s.main.engine));
  }

  lemma CreateThreadKeeps(s: State, step: Step)
    requires Inv(s) && s.main.RunAccepted? && step.CreateThread? && MainStep(s, step).Some?
    ensures Inv(MainStep(s, step).value)
  {
    hide SafeSignals, PatientWatchdog, PhaseOf, PidInv, WasArmed, MayStop;
    var next := MainStep(s, step).value;
    if !step.created {
      LogGrows(s, next, ThreadFailed);
    }
  }

  lemma StopRequestKeeps(s: State, step: Step)
    requires Inv(s) && s.main.Reading? && step.StopRequest? && MainStep(s, step).Some?
    ensures Inv(MainStep(s, step).value)
  {
    hide Inv, MainStep;
    if Defers(s.g) {
      StopDeferredKeeps(s, step);
    } else {
      StopDirectKeeps(s, step);
    }
  }

  lemma StopDeferredKeeps(s: State, step: Step)
    requires Inv(s) && s.main.Reading? && step.StopRequest? && MainStep(s, step).Some? && Defers(s.g)
    ensures Inv(MainStep(s, step).value)
  {
    hide SafeSignals, PatientWatchdog, PhaseOf, WasArmed, PidInv;
    var next := MainStep(s, step).value;
    LogGrows(s, next, StopQueued);
  }

  lemma StopDirectKeeps(s: State, step: Step)
    requires Inv(s) && s.main.Reading? && step.StopRequest? && MainStep(s, step).Some? && !Defers(s.g)
    ensures Inv(MainStep(s, step).value)
  {
    hide SafeSignals, PatientWatchdog, PhaseOf, WasArmed;
  }

  lemma StopSentKeeps(s: State, step: Step)
    requires Inv(s) && s.main.StopDecided? && step.StopReply? && MainStep(s, step).Some?
    requires !s.main.defer && (s.main.running || s.main.pid > 0)
    ensures Inv(MainStep(s, step).value)
  {
    hide SafeSignals, PatientWatchdog, PhaseOf, WatchInv;
    LogGrows(s, MainStep(s, step).value, Signal(ByClientStop, s.main.pid, step.signalled));
  }

  lemma StopReplyKeeps(s: State, step: Step)
    requires Inv(s) && s.main.StopDecided? && step.StopReply? && MainStep(s, step).Some?
    ensures Inv(MainStep(s, step).value)
  {
    if !s.main.defer && (s.main.running || s.main.pid > 0) {
      StopSentKeeps(s, step);
    } else {
      hide SafeSignals, PatientWatchdog, PhaseOf, WatchInv, PidInv;
    }
  }

  lemma StopArmKeeps(s: State, step: Step)
    requires Inv(s) && s.main.StopArming? && step.StopArm? && MainStep(s, step).Some?
    ensures Inv(MainStep(s, step).value)
  {
    hide SafeSignals, PatientWatchdog, PhaseOf, PidInv, WasArmed, MayStop;
    var next := MainStep(s, step).value;
    if ArmTakes(s.g, s.main.pid) {
      LogGrows(s, next, Armed(s.main.pid, s.now));
      ArmedNow(next.log, s.main.pid, s.now);
    }
  }

  lemma QuitRequestKeeps(s: State, step: Step)
    requires Inv(s) && s.main.Reading? && step.QuitRequest? && MainStep(s, step).Some?
    ensures Inv(MainStep(s, step).value)
  {
    hide SafeSignals, PatientWatchdog, PhaseOf, PidInv, NextPhase, WatchInv, MayStop;
    var next := MainStep(s, step).value;
  }

  lemma QuitCheckKeeps(s: State, step: Step)
    requires Inv(s) && s.main.Quitting? && step.QuitCheck? && MainStep(s, step).Some?
    ensures Inv(MainStep(s, step).value)
  {
    hide SafeSignals, PatientWatchdog, PhaseOf, PidInv, NextPhase, WatchInv, MayStop;
    var next := MainStep(s, step).value;
  }

  lemma QuitKillKeeps(s: State, step: Step)
    requires Inv(s) && s.main.QuitKilling? && step.QuitKill? && MainStep(s, step).Some?
    ensures Inv(MainStep(s, step).value)
  {
    hide SafeSignals, PatientWatchdog, PhaseOf, PidInv, WatchInv, MayStop;
    var next := MainStep(s, step).value;
    LogGrows(s, next, Signal(ByQuit, s.main.pid, step.outcome == Killed));
  }

  lemma QuitArmKeeps(s: State, step: Step)
    requires Inv(s) && s.main.QuitArming? && step.QuitArm? && MainStep(s, step).Some?
    ensures Inv(MainStep(s, step).value)
  {
    hide SafeSignals, PatientWatchdog, PhaseOf, PidInv, WasArmed, MayStop;
    var next := MainStep(s, step).value;
    if ArmTakes(s.g, s.main.pid) {
      LogGrows(s, next, Armed(s.main.pid, s.now));
      ArmedNow(next.log, s.main.pid, s.now);
    }
  }

  lemma QuitJoinKeeps(s: State, step: Step)
    requires Inv(s) && s.main.QuitJoining? && step.QuitJoin? && MainStep(s, step).Some?
    ensures Inv(MainStep(s, step).value)
  {
    hide SafeSignals, PatientWatchdog, PhaseOf, PidInv, NextPhase, WatchInv, MayStop;
    var next := MainStep(s, step).value;
  }

  lemma RefuseCommandKeeps(s: State, step: Step)
    requires Inv(s) && s.worker.Starting? && step.RefuseCommand? && WorkerStep(s, step).Some?
    ensures Inv(WorkerStep(s, step).value)
  {
    hide SafeSignals, PatientWatchdog, PhaseOf, PidInv, NextPhase, WatchInv, MayStop;
    var next := WorkerStep(s, step).value;
  }

  lemma SpawnChildKeeps(s: State, step: Step)
    requires Inv(s) && s.worker.Starting? && step.SpawnChild? && WorkerStep(s, step).Some?
    ensures Inv(WorkerStep(s, step).value)
  {
    hide SafeSignals, PatientWatchdog, PhaseOf, WasArmed;
    var next := WorkerStep(s, step).value;
    LogGrows(s, next, Spawned(s.nextPid, s.g.waitsForOutput));
  }

  lemma PublishKeeps(s: State, step: Step)
    requires Inv(s) && s.worker.ChildSpawned? && step.PublishStep? && WorkerStep(s, step).Some?
    ensures Inv(WorkerStep(s, step).value)
  {
    hide SafeSignals, PatientWatchdog, PhaseOf, PidInv, NextPhase, WasArmed, MayStop;
    var next := WorkerStep(s, step).value;
  }

  lemma EmitStartedKeeps(s: State, step: Step)
    requires Inv(s) && s.worker.ChildPublished? && step.EmitStarted? && WorkerStep(s, step).Some?
    ensures Inv(WorkerStep(s, step).value)
  {
    hide SafeSignals, PatientWatchdog, PhaseOf, PidInv, WatchInv, MayStop;
    var next := WorkerStep(s, step).value;
    if step.sent {
      LogGrows(s, next, Started(s.worker.child));
    }
  }

  lemma DeliverQueuedKeeps(s: State, step: Step)
    requires Inv(s) && s.worker.Delivering? && step.DeliverQueued? && WorkerStep(s, step).Some?
    ensures Inv(WorkerStep(s, step).value)
  {
    hide SafeSignals, PatientWatchdog, PhaseOf, WatchInv;
    var next := WorkerStep(s, step).value;
    LogGrows(s, next, Signal(ByQueuedStop, s.worker.child, step.signalled));
  }

  lemma DeliveryArmKeeps(s: State, step: Step)
    requires Inv(s) && s.worker.DeliveryArming? && step.DeliveryArm? && WorkerStep(s, step).Some?
    ensures Inv(WorkerStep(s, step).value)
  {
    hide SafeSignals, PatientWatchdog, PhaseOf, PidInv, WasArmed, MayStop;
    var next := WorkerStep(s, step).value;
    if ArmTakes(s.g, s.worker.child) {
      LogGrows(s, next, Armed(s.worker.child, s.now));
      ArmedNow(next.log, s.worker.child, s.now);
    }
  }

  lemma ReadMarkerKeeps(s: State, step: Step)
    requires Inv(s) && s.worker.ReadingOutput? && step.ReadReadyMarker? && WorkerStep(s, step).Some?
    ensures Inv(WorkerStep(s, step).value)
  {
    hide SafeSignals, PatientWatchdog, PhaseOf, WasArmed;
    var next := WorkerStep(s, step).value;
    LogGrows(s, next, MarkerRead(s.worker.child));
  }

  lemma ReadLineKeeps(s: State, step: Step)
    requires Inv(s) && s.worker.ReadingOutput? && step.ReadLine? && WorkerStep(s, step).Some?
    ensures Inv(WorkerStep(s, step).value)
  {
    hide SafeSignals, PatientWatchdog, PhaseOf, PidInv, NextPhase, WatchInv, MayStop;
    var next := WorkerStep(s, step).value;
  }

  lemma OutputFailsKeeps(s: State, step: Step)
    requires Inv(s) && s.worker.ReadingOutput? && step.OutputFails? && WorkerStep(s, step).Some?
    ensures Inv(WorkerStep(s, step).value)
  {
    hide SafeSignals, PatientWatchdog, PhaseOf, PidInv, NextPhase, WatchInv, MayStop;
    var next := WorkerStep(s, step).value;
  }

  lemma OutputEndsKeeps(s: State, step: Step)
    requires Inv(s) && s.worker.ReadingOutput? && step.OutputEnds? && WorkerStep(s, step).Some?
    ensures Inv(WorkerStep(s, step).value)
  {
    hide SafeSignals, PatientWatchdog, PhaseOf, PidInv, NextPhase, WatchInv, MayStop;
    var next := WorkerStep(s, step).value;
  }

  lemma ReapChildKeeps(s: State, step: Step)
    requires Inv(s) && s.worker.Reaping? && step.ReapChild? && WorkerStep(s, step).Some?
    ensures Inv(WorkerStep(s, step).value)
  {
    hide SafeSignals, PatientWatchdog, PhaseOf, PidInv, WatchInv, MayStop;
    var next := WorkerStep(s, step).value;
    LogGrows(s, next, Signal(ByReaper, s.worker.child, step.sent));
  }

  lemma PublishIdleKeeps(s: State, step: Step)
    requires Inv(s) && s.worker.Finishing? && step.PublishIdleStep? && WorkerStep(s, step).Some?
    ensures Inv(WorkerStep(s, step).value)
  {
    hide SafeSignals, PatientWatchdog, PhaseOf, PidInv, WasArmed, MayStop;
    var next := WorkerStep(s, step).value;
    LogGrows(s, next, IdlePublished);
  }

  lemma EmitFinishedKeeps(s: State, step: Step)
    requires Inv(s) && s.worker.IdleDone? && step.EmitFinished? && WorkerStep(s, step).Some?
    ensures Inv(WorkerStep(s, step).value)
  {
    hide SafeSignals, PatientWatchdog, PhaseOf, PidInv, WatchInv, MayStop;
    var next := WorkerStep(s, step).value;
    LogGrows(s, next, Finished(step.sent));
  }

  lemma NoticesKeeps(s: State, step: Step)
    requires Inv(s) && s.watchdog.Waiting? && step.WatchdogNotices? && WatchdogStep(s, step).Some?
    ensures Inv(WatchdogStep(s, step).value)
  {
    hide SafeSignals, PatientWatchdog, PhaseOf, PidInv, WasArmed, MayStop;
    var next := WatchdogStep(s, step).value;
    LogGrows(s, next, Timed(s.g.watchdogPid, s.g.watchdogDeadline));
  }

  lemma SeesChangeKeeps(s: State, step: Step)
    requires Inv(s) && s.watchdog.Timing? && step.WatchdogSeesChange? && WatchdogStep(s, step).Some?
    ensures Inv(WatchdogStep(s, step).value)
  {
    hide SafeSignals, PatientWatchdog, PhaseOf, PidInv, NextPhase, WasArmed, MayStop;
    var next := WatchdogStep(s, step).value;
  }

  lemma ExpiresKeeps(s: State, step: Step)
    requires Inv(s) && s.watchdog.Timing? && step.WatchdogExpires? && WatchdogStep(s, step).Some?
    ensures Inv(WatchdogStep(s, step).value)
  {
    hide SafeSignals, PatientWatchdog, PhaseOf, PidInv, MayStop;
    var next := WatchdogStep(s, step).value;
    var t: nat :| Armed(s.watchdog.pid, t) in s.log && t + GRACE == s.watchdog.deadline;
    LogGrows(s, next, Expired(s.watchdog.pid, s.now));
  }

  lemma KillsKeeps(s: State, step: Step)
    requires Inv(s) && s.watchdog.Killing? && step.WatchdogKills? && WatchdogStep(s, step).Some?
    ensures Inv(WatchdogStep(s, step).value)
  {
    hide SafeSignals, PatientWatchdog, PhaseOf, PidInv, WasArmed, MayStop;
    var next := WatchdogStep(s, step).value;
    if step.running {
      LogGrows(s, next, Signal(ByWatchdog, s.watchdog.pid, step.sent));
    }
  }

  lemma TickKeeps(s: State, step: Step)
    requires Inv(s) && step.Tick?
    ensures Inv(s.(now := s.now + step.elapsed))
  {
    hide SafeSignals, PatientWatchdog, PhaseOf, PidInv, WatchInv, PhaseInv, MainInv;
  }

  lemma MainStepKeeps(s: State, step: Step)
    requires Inv(s) && MainStep(s, step).Some?
    ensures Inv(MainStep(s, step).value)
  {
    hide Inv;
    match step {
      case RunRequest(_) => RunRequestKeeps(s, step);
      case JoinWorker => JoinWorkerKeeps(s, step);
      case AcceptRequest => AcceptRequestKeeps(s, step);
      case CreateThread(_) => CreateThreadKeeps(s, step);
      case StopRequest => StopRequestKeeps(s, step);
      case StopReply(_) => StopReplyKeeps(s, step);
      case StopArm => StopArmKeeps(s, step);
      case QuitRequest => QuitRequestKeeps(s, step);
      case QuitCheck => QuitCheckKeeps(s, step);
      case QuitKill(_) => QuitKillKeeps(s, step);
      case QuitArm => QuitArmKeeps(s, step);
      case QuitJoin => QuitJoinKeeps(s, step);
    }
  }

  lemma WorkerStepKeeps(s: State, step: Step)
    requires Inv(s) && WorkerStep(s, step).Some?
    ensures Inv(WorkerStep(s, step).value)
  {
    hide Inv;
    match step {
      case RefuseCommand => RefuseCommandKeeps(s, step);
      case SpawnChild => SpawnChildKeeps(s, step);
      case PublishStep => PublishKeeps(s, step);
      case EmitStarted(_) => EmitStartedKeeps(s, step);
      case DeliverQueued(_) => DeliverQueuedKeeps(s, step);
      case DeliveryArm => DeliveryArmKeeps(s, step);
      case ReadReadyMarker => ReadMarkerKeeps(s, step);
      case ReadLine(_) => ReadLineKeeps(s, step);
      case OutputFails => OutputFailsKeeps(s, step);
      case OutputEnds => OutputEndsKeeps(s, step);
      case ReapChild(_) => ReapChildKeeps(s, step);
      case PublishIdleStep => PublishIdleKeeps(s, step);
      case EmitFinished(_) => EmitFinishedKeeps(s, step);
    }
  }

  lemma WatchdogStepKeeps(s: State, step: Step)
    requires Inv(s) && WatchdogStep(s, step).Some?
    ensures Inv(WatchdogStep(s, step).value)
  {
    hide Inv;
    match step {
      case WatchdogNotices => NoticesKeeps(s, step);
      case WatchdogSeesChange => SeesChangeKeeps(s, step);
      case WatchdogExpires => ExpiresKeeps(s, step);
      case WatchdogKills(_, _) => KillsKeeps(s, step);
      case Tick(_) => TickKeeps(s, step);
    }
  }

  /** Every step of every thread keeps the invariant. */
  lemma StepKeeps(s: State, step: Step)
    requires Inv(s) && DoStep(s, step).Some?
    ensures Inv(DoStep(s, step).value)
  {
    hide Inv, MainStep, WorkerStep, WatchdogStep;
    if MainStep(s, step).Some? {
      MainStepKeeps(s, step);
    } else if WorkerStep(s, step).Some? {
      WorkerStepKeeps(s, step);
    } else {
      WatchdogStepKeeps(s, step);
    }
  }

  /** The invariant holds after every interleaving. */
  lemma {:induction false} RunKeeps(steps: seq<Step>)
    requires Run(steps).Some?
    ensures Inv(Run(steps).value)
  {
    if steps == [] {
      assert PhaseOf([]) == Rest;
    } else {
      RunKeeps(steps[..|steps| - 1]);
      StepKeeps(Run(steps[..|steps| - 1]).value, steps[|steps| - 1]);
    }
  }

  // ---------------------------------------------------------------- what every run guarantees

  /** Events of the current or latest run: those after the last acceptance. */
  function Since(log: seq<Event>): seq<Event> {
    if log == [] || log[|log| - 1].Accepted? then [] else Since(log[..|log| - 1]) + [log[|log| - 1]]
  }

  function QueuedAttempts(events: seq<Event>): nat {
    if events == [] then 0
    else QueuedAttempts(events[..|events| - 1])
         + if events[|events| - 1].Signal? && events[|events| - 1].sender == ByQueuedStop then 1 else 0
  }

  ghost predicate HasMarker(events: seq<Event>) {
    exists i :: 0 <= i < |events| && events[i].MarkerRead?
  }

  ghost predicate HasStarted(events: seq<Event>) {
    exists i :: 0 <= i < |events| && events[i].Started?
  }

  lemma {:induction false} PrefixNotWrong(log: seq<Event>, k: nat)
    requires k <= |log| && PhaseOf(log) != Wrong
    ensures PhaseOf(log[..k]) != Wrong
  {
    if k < |log| {
      PrefixNotWrong(log[..|log| - 1], k);
      assert log[..|log| - 1][..k] == log[..k];
    } else {
      assert log[..k] == log;
    }
  }

  lemma FactsGrow(events: seq<Event>, e: Event)
    ensures StopQueued in events + [e] <==> StopQueued in events || e == StopQueued
    ensures IdlePublished in events + [e] <==> IdlePublished in events || e == IdlePublished
    ensures QueuedAttempts(events + [e]) == QueuedAttempts(events) + if e.Signal? && e.sender == ByQueuedStop then 1 else 0
    ensures HasMarker(events + [e]) <==> HasMarker(events) || e.MarkerRead?
    ensures HasStarted(events + [e]) <==> HasStarted(events) || e.Started?
  {
    var next := events + [e];
    assert next[..|events|] == events;
    assert next[|events|] == e;
    assert forall i :: 0 <= i < |events| ==> next[i] == events[i];
  }

  /** The automaton's flags are facts about the events of the run. */
  ghost predicate FlagsAreFacts(p: Phase, events: seq<Event>) {
    p.Busy? ==>
      && (p.queued <==> StopQueued in events)
      && QueuedAttempts(events) == (if p.delivered then 1 else 0)
      && (p.marked <==> HasMarker(events))
      && (p.started <==> HasStarted(events))
      && (p.delivered ==> p.queued)
      && IdlePublished !in events
  }

  lemma FlagsGrow(p: Phase, events: seq<Event>, e: Event)
    requires p.Busy? && FlagsAreFacts(p, events)
    ensures FlagsAreFacts(NextPhase(p, e), events + [e])
  {
    hide HasMarker, HasStarted, QueuedAttempts;
    FactsGrow(events, e);
  }

  lemma {:induction false} BusyFlags(log: seq<Event>)
    requires PhaseOf(log).Busy?
    ensures FlagsAreFacts(PhaseOf(log), Since(log))
  {
    var init, last := log[..|log| - 1], log[|log| - 1];
    if last.Accepted? {
      assert PhaseOf(log) == Busy(NO_PID, last.engine, false, false, false, false);
    } else {
      BusyBefore(PhaseOf(init), last);
      BusyFlags(init);
      FlagsGrow(PhaseOf(init), Since(init), last);
    }
  }

  lemma BusyBefore(p: Phase, e: Event)
    requires NextPhase(p, e).Busy? && !e.Accepted?
    ensures p.Busy?
  {}

  /** In every interleaving a client Stop, direct or queued, reaches an engine child only
    * after its readiness marker was read. */
  lemma StopNeverEarly(steps: seq<Step>, i: nat)
    requires Run(steps).Some?
    requires i < |Run(steps).value.log|
    requires var e := Run(steps).value.log[i]; e.Signal? && e.sender in {ByClientStop, ByQueuedStop}
    ensures var log := Run(steps).value.log;
            Spawned(log[i].pid, true) in log ==> MarkerRead(log[i].pid) in log[..i]
  {
    hide Run, DoStep, PhaseInv, MainInv, WatchInv, PatientWatchdog;
    RunKeeps(steps);
    var log := Run(steps).value.log;
    assert MayStop(log[..i], log[i].pid);
    assert Spawned(log[i].pid, false) in log[..i] ==> Spawned(log[i].pid, false) in log;
  }

  /** In every interleaving, when a run is over the delivery of a Stop that was queued in it has
    * been attempted exactly once, or the run ended before the point of delivery: before the marker
    * for an engine, before "started" for any other command.  Without a queued Stop there is no
    * attempt.  The log holds the outcome of each attempt; the protocol never repeats one. */
  lemma QueuedStopIsSettled(steps: seq<Step>, k: nat)
    requires Run(steps).Some?
    requires k < |Run(steps).value.log| && Run(steps).value.log[k] == IdlePublished
    ensures var before := Run(steps).value.log[..k];
            var events := Since(before);
            && PhaseOf(before).Busy?
            && (StopQueued in events ==>
                  || QueuedAttempts(events) == 1
                  || (QueuedAttempts(events) == 0 && if PhaseOf(before).engine then !HasMarker(events) else !HasStarted(events)))
            && (StopQueued !in events ==> QueuedAttempts(events) == 0)
  {
    hide Run, DoStep, Since, HasMarker, HasStarted, QueuedAttempts, PhaseOf, FlagsAreFacts;
    LogOfRunIsRight(steps);
    var log := Run(steps).value.log;
    var before := log[..k];
    PrefixNotWrong(log, k + 1);
    assert log[..k + 1] == before + [IdlePublished];
    PhaseAppend(before, IdlePublished);
    BusyFlags(before);
    SettledAtIdle(PhaseOf(before), Since(before));
  }

  lemma SettledAtIdle(p: Phase, events: seq<Event>)
    requires NextPhase(p, IdlePublished) != Wrong
    requires FlagsAreFacts(p, events)
    ensures p.Busy?
    ensures StopQueued in events ==>
              QueuedAttempts(events) == 1 || (QueuedAttempts(events) == 0 && if p.engine then !HasMarker(events) else !HasStarted(events))
    ensures StopQueued !in events ==> QueuedAttempts(events) == 0
  {}

  lemma LogOfRunIsRight(steps: seq<Step>)
    requires Run(steps).Some?
    ensures PhaseOf(Run(steps).value.log) != Wrong
  {
    hide Run, DoStep, PidInv, WatchInv, SafeSignals, PatientWatchdog;
    RunKeeps(steps);
  }

  /** While a run is in progress the delivery of its queued Stop is attempted at most once. */
  lemma NeverSentTwice(steps: seq<Step>, k: nat)
    requires Run(steps).Some? && k <= |Run(steps).value.log|
    requires PhaseOf(Run(steps).value.log[..k]).Busy?
    ensures QueuedAttempts(Since(Run(steps).value.log[..k])) <= 1
  {
    hide Run, DoStep, PhaseOf, Since, QueuedAttempts;
    BusyFlags(Run(steps).value.log[..k]);
  }

  lemma StartedStep(p: Phase, e: Event)
    requires NextPhase(p, e) != Wrong
    ensures p.Busy? && p.started && p.child > 0 ==>
              !e.Started? && var q := NextPhase(p, e);
              (q.Busy? && q.started && q.child == p.child) || (q == Idle && e == IdlePublished)
    ensures p == Idle ==> !e.Started? && (NextPhase(p, e) == Idle || e.Finished?)
    ensures e.Started? ==> NextPhase(p, e).Busy? && NextPhase(p, e).started && NextPhase(p, e).child == e.pid > 0
    ensures e.Expired? ==> p.Busy? && p.child == e.pid
  {}

  lemma StepOfLog(log: seq<Event>, k: nat)
    requires PhaseOf(log) != Wrong && k < |log|
    ensures PhaseOf(log[..k + 1]) == NextPhase(PhaseOf(log[..k]), log[k])
    ensures PhaseOf(log[..k]) != Wrong && PhaseOf(log[..k + 1]) != Wrong
  {
    PrefixNotWrong(log, k);
    PrefixNotWrong(log, k + 1);
    assert log[..k + 1] == log[..k] + [log[k]];
    PhaseAppend(log[..k], log[k]);
  }

  /** From a started run on, the log stays with that run until idle state and "finished". */
  lemma {:induction false} StartedUntilFinished(log: seq<Event>, i: nat, m: nat)
    requires PhaseOf(log) != Wrong
    requires i < m <= |log| && log[i].Started?
    requires forall k, l :: i < k < l < m && log[k] == IdlePublished ==> !log[l].Finished?
    ensures var p := PhaseOf(log[..m]);
            (p.Busy? && p.started && p.child > 0) || (p == Idle && exists k :: i < k < m && log[k] == IdlePublished)
    decreases m
  {
    hide PhaseOf, NextPhase;
    StepOfLog(log, m - 1);
    StartedStep(PhaseOf(log[..m - 1]), log[m - 1]);
    if i < m - 1 {
      StartedUntilFinished(log, i, m - 1);
    }
  }

  /** In every interleaving, between two "started" events the first run has published idle
    * state and then emitted its "finished". */
  lemma NextStartAfterFinished(steps: seq<Step>, i: nat, j: nat)
    requires Run(steps).Some? && i < j < |Run(steps).value.log|
    requires Run(steps).value.log[i].Started? && Run(steps).value.log[j].Started?
    ensures var log := Run(steps).value.log;
            exists k, l :: i < k < l < j && log[k] == IdlePublished && log[l].Finished?
  {
    hide Run, DoStep, PhaseOf, NextPhase;
    LogOfRunIsRight(steps);
    var log := Run(steps).value.log;
    StepOfLog(log, j);
    StartedStep(PhaseOf(log[..j]), log[j]);
    if forall k, l :: i < k < l < j && log[k] == IdlePublished ==> !log[l].Finished? {
      StartedUntilFinished(log, i, j);
    }
  }

  function CountEvents(log: seq<Event>, f: Event -> bool): nat {
    if log == [] then 0 else CountEvents(log[..|log| - 1], f) + if f(log[|log| - 1]) then 1 else 0
  }

  const IsAccepted: Event -> bool := (e: Event) => e.Accepted?
  const IsThreadFailed: Event -> bool := (e: Event) => e.ThreadFailed?
  const IsIdle: Event -> bool := (e: Event) => e.IdlePublished?
  const IsFinished: Event -> bool := (e: Event) => e.Finished?

  lemma {:induction false} LifecycleCounts(log: seq<Event>)
    requires PhaseOf(log) != Wrong
    ensures CountEvents(log, IsAccepted) == CountEvents(log, IsThreadFailed) + CountEvents(log, IsIdle) + if PhaseOf(log).Busy? then 1 else 0
    ensures CountEvents(log, IsIdle) == CountEvents(log, IsFinished) + if PhaseOf(log).Idle? then 1 else 0
  {
    if log != [] {
      PrefixNotWrong(log, |log| - 1);
      LifecycleCounts(log[..|log| - 1]);
    }
  }

  /** In every interleaving each accepted run, unless its thread could not be created,
    * publishes idle state once and then attempts "finished" once; only the run in progress
    * may still owe them. */
  lemma EachRunFinishesOnce(steps: seq<Step>)
    requires Run(steps).Some?
    ensures var s := Run(steps).value;
            var owed := CountEvents(s.log, IsAccepted) - CountEvents(s.log, IsThreadFailed) - CountEvents(s.log, IsFinished);
            && 0 <= owed <= 1
            && (owed == 1 <==> s.g.workerRunning || s.worker.IdleDone?)
            && (CountEvents(s.log, IsIdle) == CountEvents(s.log, IsFinished) + if s.worker.IdleDone? then 1 else 0)
  {
    hide Run, DoStep, PidInv, WatchInv, SafeSignals, PatientWatchdog;
    RunKeeps(steps);
    LifecycleCounts(Run(steps).value.log);
  }

  lemma StepKeepsTransport(s: State, step: Step)
    requires DoStep(s, step).Some?
    ensures s.transportFailed ==> DoStep(s, step).value.transportFailed
    ensures !DoStep(s, step).value.transportFailed && Finished(false) !in s.log ==> Finished(false) !in DoStep(s, step).value.log
  {}

  /** As long as the transport is intact, every attempted "finished" was delivered. */
  lemma {:induction false} IntactTransportDelivers(steps: seq<Step>)
    requires Run(steps).Some? && !Run(steps).value.transportFailed
    ensures Finished(false) !in Run(steps).value.log
  {
    hide DoStep;
    if steps != [] {
      StepKeepsTransport(Run(steps[..|steps| - 1]).value, steps[|steps| - 1]);
      IntactTransportDelivers(steps[..|steps| - 1]);
    }
  }

  /** In every interleaving an armed watchdog names the current child of the running worker. */
  lemma WatchdogNamesChild(steps: seq<Step>)
    requires Run(steps).Some?
    ensures var g := Run(steps).value.g;
            g.watchdogArmed ==> g.workerRunning && g.watchdogPid == g.activePid > 0
  {
    hide Run, DoStep, PhaseInv, PidInv, MainInv, SafeSignals, PatientWatchdog;
    RunKeeps(steps);
  }

  /** In every interleaving an expiry names the child of the run in progress, and comes at
    * least the grace period after the watchdog was armed for it. */
  lemma ExpiryIsPatient(steps: seq<Step>, k: nat)
    requires Run(steps).Some? && k < |Run(steps).value.log|
    requires Run(steps).value.log[k].Expired?
    ensures var log := Run(steps).value.log;
            && PhaseOf(log[..k]).Busy? && PhaseOf(log[..k]).child == log[k].pid
            && exists t: nat :: Armed(log[k].pid, t) in log[..k] && t + GRACE <= log[k].at
  {
    hide Run, DoStep, PhaseOf, NextPhase, PhaseInv, PidInv, MainInv, WatchInv, SafeSignals;
    RunKeeps(steps);
    LogOfRunIsRight(steps);
    var log := Run(steps).value.log;
    StepOfLog(log, k);
    StartedStep(PhaseOf(log[..k]), log[k]);
  }

  // ---------------------------------------------------------------- the latest arming

  /** Every arming for the child lies at least the grace period before that time. */
  ghost predicate GracePassed(log: seq<Event>, pid: int, at: int) {
    forall t: nat :: Armed(pid, t) in log ==> t + GRACE <= at
  }

  /** In front of k, the watchdog last began to wait at i, for the deadline of the latest arming then. */
  ghost predicate NoticedAt(log: seq<Event>, k: nat, i: nat, pid: int, deadline: nat) {
    && i < k <= |log| && log[i] == Timed(pid, deadline)
    && (forall j :: i < j < k ==> !log[j].Timed?)
    && GracePassed(log[..i], pid, deadline)
  }

  ghost predicate Noticed(log: seq<Event>, k: nat, pid: int, limit: int) {
    exists i: nat, d: nat :: NoticedAt(log, k, i, pid, d) && d <= limit
  }

  ghost predicate ExpiriesNoticed(log: seq<Event>) {
    forall k :: 0 <= k < |log| && log[k].Expired? ==> Noticed(log, k, log[k].pid, log[k].at)
  }

  /** Armings are of the past, the deadline field is that of the latest one, and a wait that has
    * begun was for the latest arming at its beginning. */
  ghost predicate TimeInv(s: State) {
    && (forall p: int, t: nat :: Armed(p, t) in s.log ==> t <= s.now)
    && (s.g.watchdogArmed ==> GracePassed(s.log, s.g.watchdogPid, s.g.watchdogDeadline))
    && (s.watchdog.Timing? ==> Noticed(s.log, |s.log|, s.watchdog.pid, s.watchdog.deadline))
    && ExpiriesNoticed(s.log)
  }

  /** A step that arms nothing, starts no wait and expires nothing. */
  predicate Quiet(s: State, next: State) {
    && (next.log == s.log
        || (|next.log| == |s.log| + 1 && next.log[..|s.log|] == s.log
            && !next.log[|s.log|].Armed? && !next.log[|s.log|].Timed? && !next.log[|s.log|].Expired?))
    && next.now >= s.now
    && (next.g.watchdogArmed ==>
          s.g.watchdogArmed && next.g.watchdogPid == s.g.watchdogPid && next.g.watchdogDeadline == s.g.watchdogDeadline)
    && (next.watchdog.Timing? ==> next.watchdog == s.watchdog)
  }

  predicate Arms(s: State, next: State) {
    && next.g.watchdogArmed && next.g.watchdogDeadline == s.now + GRACE
    && next.log == s.log + [Armed(next.g.watchdogPid, s.now)] && next.now == s.now && next.watchdog == s.watchdog
  }

  predicate Notices(s: State, next: State) {
    && s.g.watchdogArmed && next.watchdog == Timing(s.g.watchdogPid, s.g.watchdogDeadline)
    && next.log == s.log + [Timed(s.g.watchdogPid, s.g.watchdogDeadline)] && next.now == s.now && next.g == s.g
  }

  predicate Expires(s: State, next: State) {
    && s.watchdog.Timing? && s.watchdog.deadline <= s.now && next.log == s.log + [Expired(s.watchdog.pid, s.now)]
    && next.now == s.now && !next.g.watchdogArmed && !next.watchdog.Timing?
  }

  lemma StepKinds(s: State, step: Step)
    requires DoStep(s, step).Some?
    ensures var next := DoStep(s, step).value; Quiet(s, next) || Arms(s, next) || Notices(s, next) || Expires(s, next)
  {
    hide MainStep, WorkerStep, WatchdogStep, Quiet, Arms, Notices, Expires;
    if MainStep(s, step).Some? {
      MainKinds(s, step);
    } else if WorkerStep(s, step).Some? {
      WorkerKinds(s, step);
    } else {
      WatchdogKinds(s, step);
    }
  }

  lemma MainKinds(s: State, step: Step)
    requires MainStep(s, step).Some?
    ensures Quiet(s, MainStep(s, step).value) || Arms(s, MainStep(s, step).value)
  {}

  lemma WorkerKinds(s: State, step: Step)
    requires WorkerStep(s, step).Some?
    ensures Quiet(s, WorkerStep(s, step).value) || Arms(s, WorkerStep(s, step).value)
  {}

  lemma WatchdogKinds(s: State, step: Step)
    requires WatchdogStep(s, step).Some?
    ensures var next := WatchdogStep(s, step).value; Quiet(s, next) || Notices(s, next) || Expires(s, next)
  {}

  lemma NoticeLasts(log: seq<Event>, e: Event, k: nat, pid: int, limit: int)
    requires k <= |log| && Noticed(log, k, pid, limit)
    ensures Noticed(log + [e], k, pid, limit)
    ensures k == |log| && !e.Timed? ==> Noticed(log + [e], k + 1, pid, limit)
  {
    var i: nat, d: nat :| NoticedAt(log, k, i, pid, d) && d <= limit;
    var next := log + [e];
    assert next[..i] == log[..i];
    assert NoticedAt(next, k, i, pid, d);
    if k == |log| && !e.Timed? {
      assert NoticedAt(next, k + 1, i, pid, d);
    }
  }

  lemma ExpiriesStayNoticed(log: seq<Event>, e: Event)
    requires ExpiriesNoticed(log) && (e.Expired? ==> Noticed(log, |log|, e.pid, e.at))
    ensures ExpiriesNoticed(log + [e])
  {
    hide Noticed;
    var next := log + [e];
    forall k | 0 <= k < |next| && next[k].Expired?
      ensures Noticed(next, k, next[k].pid, next[k].at)
    {
      NoticeLasts(log, e, k, next[k].pid, next[k].at);
    }
  }

  lemma QuietKeepsTime(s: State, next: State)
    requires TimeInv(s) && Quiet(s, next)
    ensures TimeInv(next)
  {
    hide Noticed, ExpiriesNoticed;
    if next.log != s.log {
      var e := next.log[|s.log|];
      assert next.log == s.log + [e];
      ExpiriesStayNoticed(s.log, e);
      if next.watchdog.Timing? {
        NoticeLasts(s.log, e, |s.log|, s.watchdog.pid, s.watchdog.deadline);
      }
    }
  }

  lemma ArmKeepsTime(s: State, next: State)
    requires TimeInv(s) && Arms(s, next)
    ensures TimeInv(next)
  {
    hide Noticed, ExpiriesNoticed;
    var e := Armed(next.g.watchdogPid, s.now);
    ExpiriesStayNoticed(s.log, e);
    if next.watchdog.Timing? {
      NoticeLasts(s.log, e, |s.log|, s.watchdog.pid, s.watchdog.deadline);
    }
  }

  lemma NoticeKeepsTime(s: State, next: State)
    requires TimeInv(s) && Notices(s, next)
    ensures TimeInv(next)
  {
    hide ExpiriesNoticed;
    var e := Timed(s.g.watchdogPid, s.g.watchdogDeadline);
    ExpiriesStayNoticed(s.log, e);
    assert next.log[..|s.log|] == s.log;
    assert NoticedAt(next.log, |next.log|, |s.log|, s.g.watchdogPid, s.g.watchdogDeadline);
  }

  lemma ExpiryKeepsTime(s: State, next: State)
    requires TimeInv(s) && Expires(s, next)
    ensures TimeInv(next)
  {
    hide ExpiriesNoticed;
    ExpiriesStayNoticed(s.log, Expired(s.watchdog.pid, s.now));
  }

  lemma {:induction false} RunKeepsTime(steps: seq<Step>)
    requires Run(steps).Some?
    ensures TimeInv(Run(steps).value)
  {
    hide DoStep, TimeInv;
    if steps == [] {
      NoTimeYet();
    } else {
      var s := Run(steps[..|steps| - 1]).value;
      var next := Run(steps).value;
      RunKeepsTime(steps[..|steps| - 1]);
      StepKinds(s, steps[|steps| - 1]);
      if Quiet(s, next) {
        QuietKeepsTime(s, next);
      } else if Arms(s, next) {
        ArmKeepsTime(s, next);
      } else if Notices(s, next) {
        NoticeKeepsTime(s, next);
      } else {
        ExpiryKeepsTime(s, next);
      }
    }
  }

  lemma NoTimeYet()
    ensures TimeInv(InitialState)
  {}

  /** In every interleaving an expiry ends a wait that began at some notice in the log, with no other
    * notice between.  It comes at least the grace period after every arming before that notice, so
    * it does so for the latest arming of all exactly when it does for those made during the wait. */
  lemma ExpiryRespectsLatest(steps: seq<Step>, k: nat) returns (notice: nat)
    requires Run(steps).Some? && k < |Run(steps).value.log| && Run(steps).value.log[k].Expired?
    ensures var log := Run(steps).value.log;
            && notice < k && log[notice].Timed? && log[notice].pid == log[k].pid
            && (forall j :: notice < j < k ==> !log[j].Timed?)
            && GracePassed(log[..notice], log[k].pid, log[k].at)
            && (GracePassed(log[..k], log[k].pid, log[k].at) <==> GracePassed(log[notice..k], log[k].pid, log[k].at))
  {
    hide Run;
    RunKeepsTime(steps);
    var log := Run(steps).value.log;
    var i: nat, d: nat :| NoticedAt(log, k, i, log[k].pid, d) && d <= log[k].at;
    notice := i;
    assert log[..k] == log[..i] + log[i..k];
  }

  /** The clock can run on by so much that the watchdog then expires before the deadline field. */
  predicate CanExpireEarly(s: State, elapsed: nat) {
    var later := DoStep(s, Tick(elapsed));
    later.Some? && later.value.now < s.g.watchdogDeadline && DoStep(later.value, WatchdogExpires).Some?
  }

  /** In any state in which the watchdog waits and has seen no change, it can expire before the
    * deadline field exactly when its own deadline is earlier and the field's has not come. */
  lemma EarlyExpiryExact(s: State)
    requires s.watchdog.Timing? && !WatchdogChanged(s.g, s.watchdog.pid)
    ensures (exists elapsed: nat :: CanExpireEarly(s, elapsed)) <==>
            s.watchdog.deadline < s.g.watchdogDeadline && s.now < s.g.watchdogDeadline
  {
    if s.watchdog.deadline < s.g.watchdogDeadline && s.now < s.g.watchdogDeadline {
      var elapsed: nat := if s.now < s.watchdog.deadline then s.watchdog.deadline - s.now else 0;
      assert CanExpireEarly(s, elapsed);
    }
  }

  /** A run of a command that is no engine, up to its "started". */
  const StartedRun: seq<Step> :=
    [RunRequest(false), JoinWorker, AcceptRequest, CreateThread(true), SpawnChild, PublishStep, EmitStarted(true)]

  const StopAndArm: seq<Step> := [StopRequest, StopReply(true), StopArm]

  /** The state after more steps from a state. */
  function RunFrom(s: State, steps: seq<Step>): Option<State>
    decreases |steps|
  {
    if steps == [] then Some(s)
    else
      var next := DoStep(s, steps[0]);
      if next.None? then None else RunFrom(next.value, steps[1..])
  }

  lemma {:induction false} RunOnward(steps: seq<Step>, more: seq<Step>)
    requires Run(steps).Some? && RunFrom(Run(steps).value, more).Some?
    ensures Run(steps + more) == RunFrom(Run(steps).value, more)
    decreases |more|
  {
    hide DoStep;
    if more == [] {
      assert steps + more == steps;
    } else {
      var longer := steps + [more[0]];
      assert longer[..|longer| - 1] == steps;
      RunOnward(longer, more[1..]);
      assert longer + more[1..] == steps + more;
    }
  }

  lemma {:induction false} RunFromBoth(s: State, steps: seq<Step>, more: seq<Step>)
    requires RunFrom(s, steps).Some?
    ensures RunFrom(s, steps + more) == RunFrom(RunFrom(s, steps).value, more)
    decreases |steps|
  {
    hide DoStep;
    if steps == [] {
      assert steps + more == more;
    } else {
      RunFromBoth(DoStep(s, steps[0]).value, steps[1..], more);
      assert (steps + more)[1..] == steps[1..] + more;
    }
  }

  const AcceptedState: State :=
    Logged(InitialState.(g := Accept(InitialState.g, false), main := RunAccepted(false)), Accepted(false))

  lemma IsAcceptedRun()
    ensures RunFrom(InitialState, [RunRequest(false), JoinWorker, AcceptRequest]) == Some(AcceptedState)
  {
    var s1 := InitialState.(main := RunChecked(false));
    var s2 := InitialState.(main := Joined(false));
    assert DoStep(InitialState, RunRequest(false)) == Some(s1);
    assert DoStep(s1, JoinWorker) == Some(s2);
    assert DoStep(s2, AcceptRequest) == Some(AcceptedState);
    hide DoStep;
    FromHere(s2, [AcceptRequest], AcceptedState, AcceptedState);
    FromHere(s1, [JoinWorker, AcceptRequest], s2, AcceptedState);
    FromHere(InitialState, [RunRequest(false), JoinWorker, AcceptRequest], s1, AcceptedState);
  }

  /** The run when it has just started. */
  const JustStarted: State :=
    Logged(Logged(AcceptedState.(g := Publish(AcceptedState.g, 1), main := Reading, worker := ReadingOutput(1), nextPid := 2),
                  Spawned(1, false)), Started(1))

  const LaunchSteps: seq<Step> := [CreateThread(true), SpawnChild, PublishStep, EmitStarted(true)]

  lemma Launches()
    ensures RunFrom(AcceptedState, LaunchSteps) == Some(JustStarted)
  {
    var s4 := AcceptedState.(main := Reading, worker := Starting);
    var s5 := Logged(s4.(worker := ChildSpawned(1), nextPid := 2), Spawned(1, false));
    var s6 := s5.(g := Publish(s5.g, 1), worker := ChildPublished(1, false));
    assert DoStep(AcceptedState, CreateThread(true)) == Some(s4);
    assert DoStep(s4, SpawnChild) == Some(s5);
    assert DoStep(s5, PublishStep) == Some(s6);
    assert DoStep(s6, EmitStarted(true)) == Some(JustStarted);
    hide DoStep;
    FromHere(s6, [EmitStarted(true)], JustStarted, JustStarted);
    FromHere(s5, [PublishStep, EmitStarted(true)], s6, JustStarted);
    FromHere(s4, [SpawnChild, PublishStep, EmitStarted(true)], s5, JustStarted);
    FromHere(AcceptedState, LaunchSteps, s4, JustStarted);
  }

  lemma StartsUp()
    ensures Run(StartedRun) == Some(JustStarted)
  {
    hide RunFrom, DoStep, Run;
    IsAcceptedRun();
    Launches();
    RunFromBoth(InitialState, [RunRequest(false), JoinWorker, AcceptRequest], LaunchSteps);
    assert [RunRequest(false), JoinWorker, AcceptRequest] + LaunchSteps == StartedRun;
    NoSteps();
    RunOnward([], StartedRun);
    assert [] + StartedRun == StartedRun;
  }

  lemma NoSteps()
    ensures Run([]) == Some(InitialState)
  {}

  /** A Stop that is signalled at once arms the watchdog for the current child. */
  function Stopped(s: State): State {
    Logged(Logged(s.(g := Arm(s.g, s.g.activePid, s.now)), Signal(ByClientStop, s.g.activePid, true)), Armed(s.g.activePid, s.now))
  }

  lemma MainIsStep(s: State, step: Step)
    requires MainStep(s, step).Some?
    ensures DoStep(s, step) == MainStep(s, step)
  {
    hide MainStep, WorkerStep, WatchdogStep;
  }

  lemma StopRequestRuns(s: State)
    requires s.main.Reading? && !Defers(s.g)
    ensures DoStep(s, StopRequest) == Some(s.(main := StopDecided(s.g.activePid, s.g.workerRunning, false)))
  {
    MainIsStep(s, StopRequest);
    hide DoStep;
    assert Queue(s.g) == s.g;
  }

  lemma StopReplyRuns(s: State)
    requires s.main.StopDecided? && s.main.pid > 0 && !s.main.defer
    ensures DoStep(s, StopReply(true)) == Some(Logged(s, Signal(ByClientStop, s.main.pid, true)).(main := StopArming(s.main.pid)))
  {
    MainIsStep(s, StopReply(true));
    hide DoStep;
  }

  lemma StopArmRuns(s: State)
    requires s.main.StopArming? && ArmTakes(s.g, s.main.pid)
    ensures DoStep(s, StopArm) == Some(Logged(s.(g := Arm(s.g, s.main.pid, s.now), main := Reading), Armed(s.main.pid, s.now)))
  {
    MainIsStep(s, StopArm);
    hide DoStep;
  }

  lemma StopArms(s: State)
    requires s.main.Reading? && s.g.workerRunning && s.g.activePid > 0 && !Defers(s.g)
    ensures RunFrom(s, StopAndArm) == Some(Stopped(s))
  {
    hide DoStep, RunFrom, Arm, Defers;
    var pid := s.g.activePid;
    var a := s.(main := StopDecided(pid, true, false));
    var b := Logged(a, Signal(ByClientStop, pid, true)).(main := StopArming(pid));
    StopRequestRuns(s);
    StopReplyRuns(a);
    StopArmRuns(b);
    assert Logged(b.(g := Arm(b.g, pid, s.now), main := Reading), Armed(pid, s.now)) == Stopped(s);
    FromHere(b, [StopArm], Stopped(s), Stopped(s));
    FromHere(a, [StopReply(true), StopArm], b, Stopped(s));
    FromHere(s, StopAndArm, a, Stopped(s));
  }

  lemma FromHere(s: State, steps: seq<Step>, next: State, end: State)
    requires steps != [] && DoStep(s, steps[0]) == Some(next)
    requires if |steps| == 1 then next == end else RunFrom(next, steps[1..]) == Some(end)
    ensures RunFrom(s, steps) == Some(end)
  {
    hide DoStep;
    if |steps| == 1 {
      assert steps[1..] == [];
    }
  }

  /** A Stop, the watchdog's notice, a second Stop just before the grace period is over, and expiry. */
  const SecondStop: seq<Step> :=
    StopAndArm + [WatchdogNotices, Tick(GRACE - 1)] + StopAndArm + [Tick(1), WatchdogExpires]

  lemma NoticeThenTick(s: State, elapsed: nat)
    requires s.watchdog.Waiting? && s.g.watchdogArmed
    ensures var timed := Logged(s.(watchdog := Timing(s.g.watchdogPid, s.g.watchdogDeadline)), Timed(s.g.watchdogPid, s.g.watchdogDeadline));
            RunFrom(s, [WatchdogNotices, Tick(elapsed)]) == Some(timed.(now := s.now + elapsed))
  {
    var timed := Logged(s.(watchdog := Timing(s.g.watchdogPid, s.g.watchdogDeadline)), Timed(s.g.watchdogPid, s.g.watchdogDeadline));
    var end := timed.(now := s.now + elapsed);
    assert DoStep(s, WatchdogNotices) == Some(timed);
    TickRuns(timed, elapsed);
    hide DoStep;
    FromHere(timed, [Tick(elapsed)], end, end);
    FromHere(s, [WatchdogNotices, Tick(elapsed)], timed, end);
  }

  lemma TickRuns(s: State, elapsed: nat)
    ensures DoStep(s, Tick(elapsed)) == Some(s.(now := s.now + elapsed))
  {}

  lemma ExpiryRuns(s: State)
    requires s.watchdog.Timing? && !WatchdogChanged(s.g, s.watchdog.pid) && s.watchdog.deadline <= s.now
    ensures DoStep(s, WatchdogExpires) ==
            Some(Logged(s.(g := Disarm(s.g), watchdog := Killing(s.watchdog.pid)), Expired(s.watchdog.pid, s.now)))
  {}

  lemma TickThenExpiry(s: State, elapsed: nat)
    requires s.watchdog.Timing? && !WatchdogChanged(s.g, s.watchdog.pid)
    requires s.watchdog.deadline <= s.now + elapsed
    ensures var end := Logged(s.(g := Disarm(s.g), watchdog := Killing(s.watchdog.pid), now := s.now + elapsed),
                              Expired(s.watchdog.pid, s.now + elapsed));
            RunFrom(s, [Tick(elapsed), WatchdogExpires]) == Some(end)
  {
    var later := s.(now := s.now + elapsed);
    var end := Logged(later.(g := Disarm(s.g), watchdog := Killing(s.watchdog.pid)), Expired(s.watchdog.pid, later.now));
    TickRuns(s, elapsed);
    ExpiryRuns(later);
    hide DoStep;
    FromHere(later, [WatchdogExpires], end, end);
    FromHere(s, [Tick(elapsed), WatchdogExpires], later, end);
  }

  /** The second Stop of that run does not extend the wait: the child is given one millisecond after
    * the latest arming. */
  lemma SecondStopDoesNotExtend()
    ensures var state := Run(StartedRun + SecondStop);
            && state.Some? && |state.value.log| > 0
            && state.value.log[|state.value.log| - 1] == Expired(1, GRACE)
            && Armed(1, GRACE - 1) in state.value.log
  {
    hide DoStep, Run, RunFrom;
    StartsUp();
    StopArms(JustStarted);
    var c := Stopped(JustStarted);
    NoticeThenTick(c, GRACE - 1);
    var e := RunFrom(c, [WatchdogNotices, Tick(GRACE - 1)]).value;
    StopArms(e);
    var h := Stopped(e);
    assert h.log[|h.log| - 1] == Armed(1, GRACE - 1);
    TickThenExpiry(h, 1);
    var j := RunFrom(h, [Tick(1), WatchdogExpires]).value;
    assert j.log == h.log + [Expired(1, GRACE)];
    RunFromBoth(JustStarted, StopAndArm, [WatchdogNotices, Tick(GRACE - 1)]);
    RunFromBoth(JustStarted, StopAndArm + [WatchdogNotices, Tick(GRACE - 1)], StopAndArm);
    RunFromBoth(JustStarted, StopAndArm + [WatchdogNotices, Tick(GRACE - 1)] + StopAndArm, [Tick(1), WatchdogExpires]);
    RunOnward(StartedRun, SecondStop);
    assert j.log[|h.log| - 1] == Armed(1, GRACE - 1);
  }
}
