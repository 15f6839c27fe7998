/** What each thread of native/privileged_helper.cpp has to do next, stated on runs: on the schedule
  * so far, the guarded fields a thread saw and the log, without the positions of the threads.
  * Every law says which steps the thread can go on with and what they add to the log; so a step
  * that is skipped, refused or sent to the wrong child breaks a law. */
module StopDuties {
  import opened Wrappers
  import opened StopProtocol

  datatype Thread = MainThread | WorkerThread | WatchdogThread | Clock

  function ThreadOf(step: Step): Thread {
    match step
    case SpawnChild => WorkerThread
    case RefuseCommand => WorkerThread
    case PublishStep => WorkerThread
    case EmitStarted(_) => WorkerThread
    case DeliverQueued(_) => WorkerThread
    case DeliveryArm => WorkerThread
    case ReadReadyMarker => WorkerThread
    case ReadLine(_) => WorkerThread
    case OutputFails => WorkerThread
    case OutputEnds => WorkerThread
    case ReapChild(_) => WorkerThread
    case PublishIdleStep => WorkerThread
    case EmitFinished(_) => WorkerThread
    case WatchdogNotices => WatchdogThread
    case WatchdogSeesChange => WatchdogThread
    case WatchdogExpires => WatchdogThread
    case WatchdogKills(_, _) => WatchdogThread
    case Tick(_) => Clock
    case _ => MainThread
  }

  /** Step k is the latest one that the thread has done. */
  ghost predicate LastOf(steps: seq<Step>, k: nat, t: Thread) {
    k < |steps| && ThreadOf(steps[k]) == t && NoneAfter(steps, k, t)
  }

  ghost predicate NoneAfter(steps: seq<Step>, k: nat, t: Thread) {
    forall m :: k < m < |steps| ==> ThreadOf(steps[m]) != t
  }

  /** After the run the thread can do exactly these steps. */
  ghost predicate GoesOn(steps: seq<Step>, t: Thread, may: Step -> bool) {
    forall step :: ThreadOf(step) == t ==> (Run(steps + [step]).Some? <==> may(step))
  }

  /** After the run the thread can do this step only, and this one if it is allowed. */
  ghost predicate Does(steps: seq<Step>, t: Thread, only: Step, allowed: bool) {
    forall step :: ThreadOf(step) == t ==> (Run(steps + [step]).Some? <==> step == only && allowed)
  }

  /** The step is possible after the run and adds these events to the log. */
  ghost predicate Adds(steps: seq<Step>, step: Step, events: seq<Event>) {
    && Run(steps).Some? && Run(steps + [step]).Some?
    && Run(steps + [step]).value.log == Run(steps).value.log + events
  }

  /** The commands that the main thread reads. */
  predicate IsCommand(step: Step) {
    step.RunRequest? || step.StopRequest? || step.QuitRequest?
  }

  /** An arming takes effect, and is logged, for the current child of the running worker only. */
  function ArmedIfCurrent(s: State, pid: int): seq<Event> {
    if s.g.workerRunning && s.g.activePid == pid then [Armed(pid, s.now)] else []
  }

  // ---------------------------------------------------------------- runs and threads

  lemma OneMoreStep(steps: seq<Step>, step: Step)
    requires Run(steps).Some?
    ensures Run(steps + [step]) == DoStep(Run(steps).value, step)
  {
    var more := steps + [step];
    assert more[..|more| - 1] == steps && more[|more| - 1] == step;
  }

  lemma StepsOfThread(s: State, step: Step)
    ensures ThreadOf(step) == MainThread ==> DoStep(s, step) == MainStep(s, step)
    ensures ThreadOf(step) == WorkerThread ==> DoStep(s, step) == WorkerStep(s, step)
    ensures ThreadOf(step) in {WatchdogThread, Clock} ==> DoStep(s, step) == WatchdogStep(s, step)
  {}

  lemma PrefixRuns(steps: seq<Step>, k: nat)
    requires Run(steps).Some? && k < |steps|
    ensures Run(steps[..k]).Some? && Run(steps[..k + 1]).Some?
    ensures Run(steps[..k + 1]) == DoStep(Run(steps[..k]).value, steps[k])
    ensures Inv(Run(steps[..k]).value) && Inv(Run(steps[..k + 1]).value)
  {
    hide DoStep, Inv;
    if Run(steps[..k]).None? {
      StuckStaysStuck(steps, k);
    }
    if Run(steps[..k + 1]).None? {
      StuckStaysStuck(steps, k + 1);
    }
    RunOneMore(steps, k);
    RunKeeps(steps[..k]);
    RunKeeps(steps[..k + 1]);
  }

  /** The state in front of step k. */
  ghost function StateAt(steps: seq<Step>, k: nat): (s: State)
    requires Run(steps).Some? && k < |steps|
    ensures Run(steps[..k]) == Some(s)
  {
    PrefixRuns(steps, k);
    Run(steps[..k]).value
  }

  /** A thread's position is changed by its own steps only; the worker's also by the main thread
    * when no worker is under way. */
  lemma OthersKeep(s: State, step: Step)
    requires Inv(s) && DoStep(s, step).Some?
    ensures ThreadOf(step) != MainThread ==> DoStep(s, step).value.main == s.main
    ensures ThreadOf(step) != WorkerThread && !JoinableEnd(s.worker) ==> DoStep(s, step).value.worker == s.worker
    ensures ThreadOf(step) != WatchdogThread ==> DoStep(s, step).value.watchdog == s.watchdog
  {
    hide PidInv, MainInv, WatchInv, SafeSignals, PatientWatchdog, PhaseOf, BusyFields, IdleFields;
    StepsOfThread(s, step);
  }

  lemma {:induction false} PositionsStay(steps: seq<Step>, k: nat)
    requires Run(steps).Some? && k < |steps|
    ensures Run(steps[..k + 1]).Some?
    ensures NoneAfter(steps, k, MainThread) ==> Run(steps).value.main == Run(steps[..k + 1]).value.main
    ensures NoneAfter(steps, k, WorkerThread) && !JoinableEnd(Run(steps[..k + 1]).value.worker) ==>
              Run(steps).value.worker == Run(steps[..k + 1]).value.worker
    ensures NoneAfter(steps, k, WatchdogThread) ==> Run(steps).value.watchdog == Run(steps[..k + 1]).value.watchdog
    decreases |steps|
  {
    hide DoStep, Inv, Run;
    PrefixRuns(steps, k);
    if k == |steps| - 1 {
      assert steps[..k + 1] == steps;
    } else {
      var init, last := steps[..|steps| - 1], steps[|steps| - 1];
      PrefixRuns(steps, |steps| - 1);
      assert steps[..|steps|] == steps;
      PositionsStay(init, k);
      assert init[..k + 1] == steps[..k + 1];
      assert forall m :: k < m < |init| ==> init[m] == steps[m];
      OthersKeep(Run(init).value, last);
    }
  }

  // ---------------------------------------------------------------- the main thread

  /** Where the main thread stands after its latest step. */
  lemma MainStands(steps: seq<Step>, k: nat)
    requires Run(steps).Some? && LastOf(steps, k, MainThread)
    ensures Inv(StateAt(steps, k)) && MainStep(StateAt(steps, k), steps[k]).Some?
    ensures Run(steps[..k + 1]) == MainStep(StateAt(steps, k), steps[k])
    ensures Run(steps).value.main == MainStep(StateAt(steps, k), steps[k]).value.main
  {
    hide DoStep, Inv, Run, MainStep;
    PrefixRuns(steps, k);
    PositionsStay(steps, k);
    StepsOfThread(Run(steps[..k]).value, steps[k]);
  }

  predicate MainMay(main: Main, ended: bool, step: Step) {
    match main
    case Reading => IsCommand(step)
    case RunChecked(_) => step == JoinWorker && ended
    case Joined(_) => step == AcceptRequest
    case RunAccepted(_) => step.CreateThread?
    case StopDecided(_, _, _) => step.StopReply?
    case StopArming(_) => step == StopArm
    case Quitting(_) => step == QuitCheck
    case QuitKilling(_, _) => step.QuitKill?
    case QuitArming(_) => step == QuitArm
    case QuitJoining => step == QuitJoin && ended
    case Exited => false
  }

  lemma MainEnabled(s: State, step: Step)
    requires ThreadOf(step) == MainThread
    ensures MainStep(s, step).Some? <==> MainMay(s.main, JoinableEnd(s.worker), step)
  {
    hide ArmStep, Logged;
  }

  /** What the main thread can do next. */
  lemma MainNext(steps: seq<Step>)
    requires Run(steps).Some?
    ensures Inv(Run(steps).value)
    ensures var s := Run(steps).value;
            forall step :: ThreadOf(step) == MainThread ==> (Run(steps + [step]).Some? <==> MainMay(s.main, JoinableEnd(s.worker), step))
  {
    hide DoStep, Inv, Run, MainStep, MainMay;
    var s := Run(steps).value;
    RunKeeps(steps);
    forall step | ThreadOf(step) == MainThread
      ensures Run(steps + [step]).Some? <==> MainMay(s.main, JoinableEnd(s.worker), step)
    {
      OneMoreStep(steps, step);
      StepsOfThread(s, step);
      MainEnabled(s, step);
    }
  }

  lemma MainAdds(steps: seq<Step>, step: Step, events: seq<Event>)
    requires Run(steps).Some? && ThreadOf(step) == MainThread && MainStep(Run(steps).value, step).Some?
    requires MainStep(Run(steps).value, step).value.log == Run(steps).value.log + events
    ensures Adds(steps, step, events)
  {
    hide DoStep, Run, MainStep;
    OneMoreStep(steps, step);
    StepsOfThread(Run(steps).value, step);
  }

  /** A thread that has ended is one whose run is over. */
  lemma EndedIsRest(s: State)
    requires Inv(s) && (s.main.QuitJoining? || s.main.RunChecked?)
    ensures JoinableEnd(s.worker) <==> PhaseOf(s.log) == Rest
  {
    hide PidInv, MainInv, WatchInv, SafeSignals, PatientWatchdog, PhaseOf;
  }

  /** The quit loop has signalled the child, or found it gone. */
  ghost predicate QuitSettled(steps: seq<Step>) {
    QuitKill(Killed) in steps || QuitKill(NoSuchProcess) in steps
  }

  /** While quitting, no other child comes up. */
  predicate OnlyChild(g: Guarded, pid: int) {
    pid > 0 && (g.workerRunning ==> g.activePid == pid)
  }

  ghost predicate QuitMemory(s: State, settled: bool) {
    match s.main
    case Quitting(signalled) => (signalled > 0 <==> settled) && (settled ==> OnlyChild(s.g, signalled))
    case QuitKilling(pid, signalled) => !settled && signalled <= 0 && OnlyChild(s.g, pid)
    case QuitArming(pid) => settled && OnlyChild(s.g, pid)
    case QuitJoining => true
    case Exited => true
    case _ => !settled
  }

  lemma OnlyChildStays(s: State, step: Step, pid: int)
    requires Inv(s) && DoStep(s, step).Some? && ThreadOf(step) != MainThread && OnlyChild(s.g, pid)
    ensures OnlyChild(DoStep(s, step).value.g, pid)
  {
    hide PidInv, MainInv, WatchInv, SafeSignals, PatientWatchdog, PhaseOf, MainStep;
    StepsOfThread(s, step);
  }

  lemma MemoryStep(s: State, step: Step, settled: bool)
    requires Inv(s) && DoStep(s, step).Some? && QuitMemory(s, settled)
    ensures QuitMemory(DoStep(s, step).value, settled || step == QuitKill(Killed) || step == QuitKill(NoSuchProcess))
  {
    StepsOfThread(s, step);
    if ThreadOf(step) == MainThread {
      hide Inv, WorkerStep, WatchdogStep, DoStep;
    } else {
      OthersKeep(s, step);
      if s.main.Quitting? && settled {
        OnlyChildStays(s, step, s.main.signalled);
      } else if s.main.QuitKilling? {
        OnlyChildStays(s, step, s.main.pid);
      } else if s.main.QuitArming? {
        OnlyChildStays(s, step, s.main.pid);
      }
      hide DoStep, Inv, OnlyChild;
    }
  }

  lemma {:induction false} MemoryHolds(steps: seq<Step>)
    requires Run(steps).Some?
    ensures QuitMemory(Run(steps).value, QuitSettled(steps))
  {
    hide DoStep, Inv;
    if steps != [] {
      var init, last := steps[..|steps| - 1], steps[|steps| - 1];
      MemoryHolds(init);
      RunKeeps(init);
      MemoryStep(Run(init).value, last, QuitSettled(init));
      assert steps == init + [last];
    }
  }

  lemma QuitCheckLeads(s: State)
    requires s.main.Quitting? && QuitMemory(s, s.main.signalled > 0)
    ensures MainStep(s, QuitCheck).Some? && MainStep(s, QuitCheck).value.log == s.log
    ensures var main := MainStep(s, QuitCheck).value.main;
            && (!s.g.workerRunning ==> main == QuitJoining)
            && (s.g.workerRunning && (s.g.activePid <= 0 || s.main.signalled > 0) ==> main == s.main)
            && (s.g.workerRunning && s.g.activePid > 0 && s.main.signalled <= 0 ==> main == QuitKilling(s.g.activePid, s.main.signalled))
  {}

  lemma CheckWasQuitting(s: State)
    requires MainStep(s, QuitCheck).Some?
    ensures s.main.Quitting?
  {}

  lemma QuitKillLeads(s: State, outcome: KillOutcome)
    requires s.main.QuitKilling?
    ensures MainStep(s, QuitKill(outcome)).Some?
    ensures MainStep(s, QuitKill(outcome)).value.log == s.log + [Signal(ByQuit, s.main.pid, outcome == Killed)]
    ensures outcome == Killed ==> MainStep(s, QuitKill(outcome)).value.main == QuitArming(s.main.pid)
    ensures outcome != Killed ==> MainStep(s, QuitKill(outcome)).value.main.Quitting?
  {}

  /** The main thread goes on as its position says. */
  lemma MainGoesOn(steps: seq<Step>, may: Step -> bool)
    requires Run(steps).Some?
    requires forall step :: ThreadOf(step) == MainThread ==>
               (MainMay(Run(steps).value.main, JoinableEnd(Run(steps).value.worker), step) <==> may(step))
    ensures GoesOn(steps, MainThread, may)
  {
    hide Run, MainMay;
    MainNext(steps);
  }

  lemma MainDoes(steps: seq<Step>, only: Step, allowed: bool)
    requires Run(steps).Some?
    requires forall step :: ThreadOf(step) == MainThread ==>
               (MainMay(Run(steps).value.main, JoinableEnd(Run(steps).value.worker), step) <==> step == only && allowed)
    ensures Does(steps, MainThread, only, allowed)
  {
    hide Run, MainMay;
    MainNext(steps);
  }

  /** When the quit loop looks at a running child that it has not settled, its next step signals
    * that child. */
  lemma QuitSignalsChild(steps: seq<Step>, k: nat)
    requires Run(steps).Some? && LastOf(steps, k, MainThread) && steps[k] == QuitCheck
    requires var seen := StateAt(steps, k).g; seen.workerRunning && seen.activePid > 0 && !QuitSettled(steps[..k])
    ensures GoesOn(steps, MainThread, (x: Step) => x.QuitKill?)
    ensures forall outcome :: Adds(steps, QuitKill(outcome), [Signal(ByQuit, StateAt(steps, k).g.activePid, outcome == Killed)])
  {
    hide Run, DoStep, Inv, MainStep, PhaseOf, StateAt, Adds, JoinableEnd, QuitSettled, GoesOn, Does;
    var before, s := StateAt(steps, k), Run(steps).value;
    MainStands(steps, k);
    CheckWasQuitting(before);
    MemoryHolds(steps[..k]);
    QuitCheckLeads(before);
    assert s.main == QuitKilling(before.g.activePid, before.main.signalled);
    MainGoesOn(steps, (x: Step) => x.QuitKill?);
    forall outcome
      ensures Adds(steps, QuitKill(outcome), [Signal(ByQuit, before.g.activePid, outcome == Killed)])
    {
      QuitKillLeads(s, outcome);
      MainAdds(steps, QuitKill(outcome), [Signal(ByQuit, before.g.activePid, outcome == Killed)]);
    }
  }

  /** A child that is not published yet, or that has been settled, is waited for. */
  lemma QuitWaits(steps: seq<Step>, k: nat)
    requires Run(steps).Some? && LastOf(steps, k, MainThread) && steps[k] == QuitCheck
    requires var seen := StateAt(steps, k).g; seen.workerRunning && (seen.activePid <= 0 || QuitSettled(steps[..k]))
    ensures Does(steps, MainThread, QuitCheck, true)
  {
    hide Run, DoStep, Inv, MainStep, PhaseOf, StateAt, JoinableEnd, QuitSettled, GoesOn, Does;
    var before := StateAt(steps, k);
    MainStands(steps, k);
    CheckWasQuitting(before);
    MemoryHolds(steps[..k]);
    QuitCheckLeads(before);
    MainDoes(steps, QuitCheck, true);
  }

  lemma NoWorkerLeads(s: State)
    requires MainStep(s, QuitCheck).Some? && !s.g.workerRunning
    ensures MainStep(s, QuitCheck).value.main == QuitJoining
  {}

  /** Without a worker the quit loop is over, and the thread is joined once the run is. */
  lemma QuitJoins(steps: seq<Step>, k: nat)
    requires Run(steps).Some? && LastOf(steps, k, MainThread) && steps[k] == QuitCheck
    requires !StateAt(steps, k).g.workerRunning
    ensures var over := PhaseOf(Run(steps).value.log) == Rest;
            Does(steps, MainThread, QuitJoin, over)
  {
    hide Run, DoStep, Inv, MainStep, PhaseOf, StateAt, JoinableEnd, GoesOn, Does, NoneAfter;
    var before, s := StateAt(steps, k), Run(steps).value;
    MainStands(steps, k);
    NoWorkerLeads(before);
    RunKeeps(steps);
    EndedIsRest(s);
    var over := PhaseOf(s.log) == Rest;
    MainDoes(steps, QuitJoin, over);
  }

  lemma AddedWas(steps: seq<Step>, k: nat, was: Event, events: seq<Event>)
    requires Run(steps).Some? && LastOf(steps, k, MainThread)
    requires MainStep(StateAt(steps, k), steps[k]).Some?
    requires MainStep(StateAt(steps, k), steps[k]).value.log == StateAt(steps, k).log + [was]
    requires Adds(steps[..k], steps[k], events)
    ensures events == [was]
  {
    hide DoStep, Run, MainStep;
    var before := StateAt(steps, k);
    OneMoreStep(steps[..k], steps[k]);
    StepsOfThread(before, steps[k]);
    assert (before.log + [was])[|before.log|..] == [was];
    assert (before.log + events)[|before.log|..] == events;
  }

  lemma KillWasQuitKilling(s: State, step: Step)
    requires step.QuitKill? && MainStep(s, step).Some?
    ensures s.main.QuitKilling?
  {}

  lemma ArmAdds(s: State, pid: int)
    requires pid > 0
    ensures ArmStep(s, pid).log == s.log + ArmedIfCurrent(s, pid)
  {}

  lemma QuitArmLeads(s: State)
    requires s.main.QuitArming? && s.main.pid > 0
    ensures MainStep(s, QuitArm).Some? && MainStep(s, QuitArm).value.main.Quitting?
    ensures MainStep(s, QuitArm).value.log == s.log + ArmedIfCurrent(s, s.main.pid)
  {
    ArmAdds(s, s.main.pid);
  }

  /** A delivered quit signal is followed by arming the watchdog for that child. */
  lemma QuitSignalArms(steps: seq<Step>, k: nat, pid: int)
    requires Run(steps).Some? && LastOf(steps, k, MainThread) && steps[k].QuitKill?
    requires Adds(steps[..k], steps[k], [Signal(ByQuit, pid, true)])
    ensures Does(steps, MainThread, QuitArm, true)
    ensures Adds(steps, QuitArm, ArmedIfCurrent(Run(steps).value, pid))
  {
    hide Run, DoStep, Inv, MainStep, StateAt, JoinableEnd, QuitSettled, GoesOn, Does, Adds, ArmedIfCurrent;
    var before, s := StateAt(steps, k), Run(steps).value;
    MainStands(steps, k);
    KillWasQuitKilling(before, steps[k]);
    QuitKillLeads(before, steps[k].outcome);
    AddedWas(steps, k, Signal(ByQuit, before.main.pid, steps[k].outcome == Killed), [Signal(ByQuit, pid, true)]);
    MemoryHolds(steps);
    MainDoes(steps, QuitArm, true);
    QuitArmLeads(s);
    MainAdds(steps, QuitArm, ArmedIfCurrent(s, pid));
  }

  lemma LeadsToQuitting(s: State, step: Step)
    requires MainStep(s, step).Some?
    requires step == QuitArm || step == QuitRequest
    ensures MainStep(s, step).value.main.Quitting?
  {
    hide ArmStep;
  }

  /** After a failed quit signal, an arming and the quit command itself the loop looks again. */
  lemma QuitLooksAgain(steps: seq<Step>, k: nat)
    requires Run(steps).Some? && LastOf(steps, k, MainThread)
    requires steps[k] in {QuitArm, QuitRequest, QuitKill(NoSuchProcess), QuitKill(OtherError)}
    ensures Does(steps, MainThread, QuitCheck, true)
  {
    hide Run, DoStep, Inv, MainStep, StateAt, JoinableEnd, GoesOn, Does;
    var before := StateAt(steps, k);
    MainStands(steps, k);
    if steps[k].QuitKill? {
      KillWasQuitKilling(before, steps[k]);
      QuitKillLeads(before, steps[k].outcome);
    } else {
      LeadsToQuitting(before, steps[k]);
    }
    MainDoes(steps, QuitCheck, true);
  }

  lemma JoinLeads(s: State)
    requires MainStep(s, QuitJoin).Some?
    ensures MainStep(s, QuitJoin).value.main == Exited
  {}

  lemma QuitIsFinal(steps: seq<Step>, k: nat)
    requires Run(steps).Some? && LastOf(steps, k, MainThread) && steps[k] == QuitJoin
    ensures Does(steps, MainThread, QuitJoin, false)
  {
    hide Run, DoStep, Inv, MainStep, StateAt, JoinableEnd, GoesOn, Does;
    MainStands(steps, k);
    JoinLeads(StateAt(steps, k));
    MainDoes(steps, QuitJoin, false);
  }

  // ---------------------------------------------------------------- Stop

  /** A Stop that comes too early to be delivered: the child is not published, or is an engine
    * whose readiness marker has not been read. */
  predicate StopIsEarly(s: State) {
    s.g.workerRunning
    && (s.g.activePid <= 0 || (Spawned(s.g.activePid, true) in s.log && MarkerRead(s.g.activePid) !in s.log))
  }

  predicate NothingToStop(s: State) {
    !s.g.workerRunning && s.g.activePid <= 0
  }

  lemma DefersIsEarly(s: State)
    requires Inv(s) && s.main.Reading?
    ensures Defers(s.g) <==> StopIsEarly(s)
  {
    hide MainInv, WatchInv, SafeSignals, PatientWatchdog, PhaseOf;
  }

  lemma StopRequestLeads(s: State)
    requires MainStep(s, StopRequest).Some?
    ensures s.main == Reading
    ensures MainStep(s, StopRequest).value.main == StopDecided(s.g.activePid, s.g.workerRunning, Defers(s.g))
    ensures MainStep(s, StopRequest).value.log == s.log + if Defers(s.g) then [StopQueued] else []
  {
    assert s.log + [] == s.log;
  }

  lemma StopReplyLeads(s: State, sent: bool)
    requires s.main.StopDecided?
    ensures MainStep(s, StopReply(sent)).Some?
    ensures var silent := (!s.main.running && s.main.pid <= 0) || s.main.defer;
            && MainStep(s, StopReply(sent)).value.log == s.log + (if silent then [] else [Signal(ByClientStop, s.main.pid, sent)])
            && MainStep(s, StopReply(sent)).value.main == (if !silent && sent then StopArming(s.main.pid) else Reading)
  {
    assert s.log + [] == s.log;
  }

  /** A Stop is queued exactly when it is early; when a child that may be stopped runs, the reply
    * signals that child; when nothing runs, nobody is signalled. */
  lemma StopIsAnswered(steps: seq<Step>, k: nat)
    requires Run(steps).Some? && LastOf(steps, k, MainThread) && steps[k] == StopRequest
    ensures GoesOn(steps, MainThread, (x: Step) => x.StopReply?)
    ensures Adds(steps[..k], StopRequest, if StopIsEarly(StateAt(steps, k)) then [StopQueued] else [])
    ensures forall sent ::
              Adds(steps, StopReply(sent),
                   if StopIsEarly(StateAt(steps, k)) || NothingToStop(StateAt(steps, k)) then []
                   else [Signal(ByClientStop, StateAt(steps, k).g.activePid, sent)])
  {
    hide Run, DoStep, Inv, MainStep, StateAt, JoinableEnd, GoesOn, Does, Adds, StopIsEarly, Defers;
    var before, s := StateAt(steps, k), Run(steps).value;
    MainStands(steps, k);
    StopRequestLeads(before);
    DefersIsEarly(before);
    MainAdds(steps[..k], StopRequest, if StopIsEarly(before) then [StopQueued] else []);
    MainGoesOn(steps, (x: Step) => x.StopReply?);
    forall sent
      ensures Adds(steps, StopReply(sent), if StopIsEarly(before) || NothingToStop(before) then []
                                           else [Signal(ByClientStop, before.g.activePid, sent)])
    {
      StopReplyLeads(s, sent);
      MainAdds(steps, StopReply(sent), if StopIsEarly(before) || NothingToStop(before) then []
                                       else [Signal(ByClientStop, before.g.activePid, sent)]);
    }
  }

  lemma ReplyWasDecided(s: State, step: Step)
    requires step.StopReply? && MainStep(s, step).Some?
    ensures s.main.StopDecided?
  {}

  lemma StopArmLeads(s: State)
    requires s.main.StopArming?
    ensures MainStep(s, StopArm).Some?
    ensures MainStep(s, StopArm).value.main == Reading
    ensures s.main.pid > 0 ==> MainStep(s, StopArm).value.log == s.log + ArmedIfCurrent(s, s.main.pid)
  {
    if s.main.pid > 0 {
      ArmAdds(s, s.main.pid);
    }
  }

  lemma SameEvents(log: seq<Event>, a: seq<Event>, b: seq<Event>)
    requires log + a == log + b
    ensures a == b
  {
    assert (log + a)[|log|..] == a && (log + b)[|log|..] == b;
  }

  lemma StoppedChild(s: State)
    requires Inv(s) && s.main.StopDecided? && !s.main.defer && (s.main.running || s.main.pid > 0)
    ensures s.main.pid > 0
  {
    hide PhaseInv, WatchInv, SafeSignals, PatientWatchdog, PhaseOf;
  }

  lemma StopReplyWas(s: State, step: Step, pid: int, sent: bool)
    requires Inv(s) && step.StopReply? && MainStep(s, step).Some?
    requires MainStep(s, step).value.log == s.log + [Signal(ByClientStop, pid, sent)]
    ensures pid > 0 && MainStep(s, step).value.main == if sent then StopArming(pid) else Reading
  {
    hide Inv, MainStep;
    ReplyWasDecided(s, step);
    StopReplyLeads(s, step.signalled);
    var silent := (!s.main.running && s.main.pid <= 0) || s.main.defer;
    SameEvents(s.log, [Signal(ByClientStop, pid, sent)], if silent then [] else [Signal(ByClientStop, s.main.pid, step.signalled)]);
    StoppedChild(s);
  }

  /** A delivered Stop is followed by arming the watchdog for that child; after a failed one the
    * next command is read. */
  lemma StopSignalArms(steps: seq<Step>, k: nat, pid: int, sent: bool)
    requires Run(steps).Some? && LastOf(steps, k, MainThread) && steps[k].StopReply?
    requires Adds(steps[..k], steps[k], [Signal(ByClientStop, pid, sent)])
    ensures sent ==> Does(steps, MainThread, StopArm, true) && Adds(steps, StopArm, ArmedIfCurrent(Run(steps).value, pid))
    ensures !sent ==> GoesOn(steps, MainThread, (x: Step) => IsCommand(x))
  {
    hide Run, DoStep, Inv, MainStep, StateAt, JoinableEnd, GoesOn, Does, ArmedIfCurrent, Adds, NoneAfter;
    var before, s := StateAt(steps, k), Run(steps).value;
    MainStands(steps, k);
    AddedSame(steps, k, [Signal(ByClientStop, pid, sent)]);
    StopReplyWas(before, steps[k], pid, sent);
    if sent {
      MainDoes(steps, StopArm, true);
      StopArmLeads(s);
      MainAdds(steps, StopArm, ArmedIfCurrent(s, pid));
    } else {
      MainGoesOn(steps, (x: Step) => IsCommand(x));
    }
  }

  lemma LeadsToReading(s: State, step: Step)
    requires MainStep(s, step).Some?
    requires step == StopArm || step.CreateThread? || (step.RunRequest? && (s.g.workerRunning || s.g.activePid > 0))
             || (step.StopReply? && MainStep(s, step).value.log == s.log)
    ensures MainStep(s, step).value.main == Reading
  {
    hide ArmStep;
    if step.StopReply? {
      assert |s.log + [Signal(ByClientStop, s.main.pid, step.signalled)]| > |s.log|;
    }
  }

  /** A reply that signals nobody, an arming and the creation of a worker end their command. */
  lemma ReadsOn(steps: seq<Step>, k: nat)
    requires Run(steps).Some? && LastOf(steps, k, MainThread)
    requires steps[k] == StopArm || steps[k].CreateThread? || (steps[k].StopReply? && Adds(steps[..k], steps[k], []))
    ensures GoesOn(steps, MainThread, (x: Step) => IsCommand(x))
  {
    hide Run, DoStep, Inv, MainStep, StateAt, JoinableEnd, GoesOn, Does, Adds, NoneAfter;
    MainStands(steps, k);
    if steps[k].StopReply? {
      AddedSame(steps, k, []);
      assert StateAt(steps, k).log + [] == StateAt(steps, k).log;
    }
    LeadsToReading(StateAt(steps, k), steps[k]);
    MainGoesOn(steps, (x: Step) => IsCommand(x));
  }

  lemma AddedSame(steps: seq<Step>, k: nat, events: seq<Event>)
    requires Run(steps).Some? && LastOf(steps, k, MainThread) && MainStep(StateAt(steps, k), steps[k]).Some?
    requires Adds(steps[..k], steps[k], events)
    ensures MainStep(StateAt(steps, k), steps[k]).value.log == StateAt(steps, k).log + events
  {
    hide DoStep, Run, MainStep;
    OneMoreStep(steps[..k], steps[k]);
    StepsOfThread(StateAt(steps, k), steps[k]);
  }

  // ---------------------------------------------------------------- runs

  lemma BusyIsRunning(s: State)
    requires Inv(s) && s.main.Reading?
    ensures PhaseOf(s.log).Busy? <==> s.g.workerRunning || s.g.activePid > 0
  {
    hide PidInv, MainInv, WatchInv, SafeSignals, PatientWatchdog, PhaseOf;
  }

  lemma RunRequestLeads(s: State, engine: bool)
    requires MainStep(s, RunRequest(engine)).Some?
    ensures s.main == Reading
    ensures var busy := s.g.workerRunning || s.g.activePid > 0;
            && MainStep(s, RunRequest(engine)).value.main == (if busy then Reading else RunChecked(engine))
            && MainStep(s, RunRequest(engine)).value.log == s.log + if busy then [Rejected] else []
  {
    assert s.log + [] == s.log;
  }

  /** A run request is rejected exactly when the log shows a run in progress; otherwise the thread
    * of the run before is joined as soon as that has emitted "finished". */
  lemma RunIsTakenOrRejected(steps: seq<Step>, k: nat)
    requires Run(steps).Some? && LastOf(steps, k, MainThread) && steps[k].RunRequest?
    ensures PhaseOf(StateAt(steps, k).log).Busy? ==>
              Adds(steps[..k], steps[k], [Rejected]) && GoesOn(steps, MainThread, (x: Step) => IsCommand(x))
    ensures !PhaseOf(StateAt(steps, k).log).Busy? ==>
              var over := PhaseOf(Run(steps).value.log) == Rest;
              Adds(steps[..k], steps[k], []) && Does(steps, MainThread, JoinWorker, over)
  {
    hide Run, DoStep, Inv, MainStep, PhaseOf, StateAt, JoinableEnd, GoesOn, Does, Adds, NoneAfter;
    var before, s := StateAt(steps, k), Run(steps).value;
    MainStands(steps, k);
    RunRequestLeads(before, steps[k].engine);
    BusyIsRunning(before);
    if PhaseOf(before.log).Busy? {
      MainAdds(steps[..k], steps[k], [Rejected]);
      MainGoesOn(steps, (x: Step) => IsCommand(x));
    } else {
      MainAdds(steps[..k], steps[k], []);
      RunKeeps(steps);
      EndedIsRest(s);
      var over := PhaseOf(s.log) == Rest;
      MainDoes(steps, JoinWorker, over);
    }
  }

  lemma JoinWorkerLeads(s: State)
    requires MainStep(s, JoinWorker).Some?
    ensures s.main.RunChecked? && MainStep(s, JoinWorker).value.main == Joined(s.main.engine)
  {}

  lemma CheckedBy(s: State, step: Step)
    requires MainStep(s, step).Some? && MainStep(s, step).value.main.RunChecked?
    ensures step.RunRequest? && MainStep(s, step).value.main.engine == step.engine
  {
    hide ArmStep;
  }

  lemma AcceptLeads(s: State)
    requires s.main.Joined?
    ensures MainStep(s, AcceptRequest).Some?
    ensures MainStep(s, AcceptRequest).value.log == s.log + [Accepted(s.main.engine)]
  {}

  /** What is accepted is the kind of command that was asked for. */
  lemma RunIsAccepted(steps: seq<Step>, j: nat, k: nat)
    requires Run(steps).Some? && LastOf(steps, k, MainThread) && steps[k] == JoinWorker
    requires LastOf(steps[..k], j, MainThread)
    ensures steps[j].RunRequest?
    ensures Does(steps, MainThread, AcceptRequest, true)
    ensures Adds(steps, AcceptRequest, [Accepted(steps[j].engine)])
  {
    hide Run, DoStep, Inv, MainStep, StateAt, JoinableEnd, GoesOn, Does, Adds, NoneAfter;
    var before, s := StateAt(steps, k), Run(steps).value;
    MainStands(steps, k);
    MainStands(steps[..k], j);
    JoinWorkerLeads(before);
    CheckedBy(StateAt(steps[..k], j), steps[..k][j]);
    MainDoes(steps, AcceptRequest, true);
    AcceptLeads(s);
    MainAdds(steps, AcceptRequest, [Accepted(steps[j].engine)]);
  }

  lemma AcceptedBy(s: State)
    requires MainStep(s, AcceptRequest).Some?
    ensures MainStep(s, AcceptRequest).value.main.RunAccepted?
  {}

  lemma CreateLeads(s: State, created: bool)
    requires s.main.RunAccepted?
    ensures MainStep(s, CreateThread(created)).Some?
    ensures MainStep(s, CreateThread(created)).value.log == s.log + if created then [] else [ThreadFailed]
  {
    assert s.log + [] == s.log;
  }

  lemma ThreadIsCreated(steps: seq<Step>, k: nat)
    requires Run(steps).Some? && LastOf(steps, k, MainThread) && steps[k] == AcceptRequest
    ensures GoesOn(steps, MainThread, (x: Step) => x.CreateThread?)
    ensures forall created :: Adds(steps, CreateThread(created), if created then [] else [ThreadFailed])
  {
    hide Run, DoStep, Inv, MainStep, StateAt, JoinableEnd, GoesOn, Does, Adds, NoneAfter;
    MainStands(steps, k);
    AcceptedBy(StateAt(steps, k));
    MainGoesOn(steps, (x: Step) => x.CreateThread?);
    forall created
      ensures Adds(steps, CreateThread(created), if created then [] else [ThreadFailed])
    {
      CreateLeads(Run(steps).value, created);
      MainAdds(steps, CreateThread(created), if created then [] else [ThreadFailed]);
    }
  }

  // ---------------------------------------------------------------- the worker

  predicate WorkerMay(worker: Worker, intact: bool, step: Step) {
    match worker
    case NoThread => false
    case Starting => step == RefuseCommand || step == SpawnChild
    case ChildSpawned(_) => step == PublishStep
    case ChildPublished(_, _) => step.EmitStarted? && (step.sent ==> intact)
    case Delivering(_) => step.DeliverQueued?
    case DeliveryArming(_) => step == DeliveryArm
    case ReadingOutput(_) => Reads(step, intact)
    case Reaping(_) => step.ReapChild?
    case Finishing(_) => step == PublishIdleStep
    case IdleDone => step.EmitFinished? && (step.sent ==> intact)
    case ThreadEnded => false
  }

  /** A worker that reads output: a marker, a line that can be passed on only while the transport is
    * intact, a failure, or the end. */
  predicate Reads(step: Step, intact: bool) {
    step == ReadReadyMarker || (step.ReadLine? && (step.sent ==> intact)) || step == OutputFails || step == OutputEnds
  }

  lemma WorkerEnabled(s: State, step: Step)
    requires ThreadOf(step) == WorkerThread
    ensures WorkerStep(s, step).Some? <==> WorkerMay(s.worker, !s.transportFailed, step)
  {
    hide ArmStep, Logged, Publish, Ready, GoIdle;
  }

  lemma WorkerGoesOn(steps: seq<Step>, may: Step -> bool)
    requires Run(steps).Some?
    requires forall step :: ThreadOf(step) == WorkerThread ==>
               (WorkerMay(Run(steps).value.worker, !Run(steps).value.transportFailed, step) <==> may(step))
    ensures GoesOn(steps, WorkerThread, may)
  {
    hide DoStep, Run, WorkerStep, WorkerMay;
    var s := Run(steps).value;
    forall step | ThreadOf(step) == WorkerThread
      ensures Run(steps + [step]).Some? <==> may(step)
    {
      OneMoreStep(steps, step);
      StepsOfThread(s, step);
      WorkerEnabled(s, step);
    }
  }

  lemma WorkerDoes(steps: seq<Step>, only: Step, allowed: bool)
    requires Run(steps).Some?
    requires forall step :: ThreadOf(step) == WorkerThread ==>
               (WorkerMay(Run(steps).value.worker, !Run(steps).value.transportFailed, step) <==> step == only && allowed)
    ensures Does(steps, WorkerThread, only, allowed)
  {
    hide DoStep, Run, WorkerStep, WorkerMay;
    forall step | ThreadOf(step) == WorkerThread
      ensures Run(steps + [step]).Some? <==> step == only && allowed
    {
      OneMoreStep(steps, step);
      StepsOfThread(Run(steps).value, step);
      WorkerEnabled(Run(steps).value, step);
    }
  }

  lemma WorkerAdds(steps: seq<Step>, step: Step, events: seq<Event>)
    requires Run(steps).Some? && ThreadOf(step) == WorkerThread && WorkerStep(Run(steps).value, step).Some?
    requires WorkerStep(Run(steps).value, step).value.log == Run(steps).value.log + events
    ensures Adds(steps, step, events)
  {
    hide DoStep, Run, WorkerStep;
    OneMoreStep(steps, step);
    StepsOfThread(Run(steps).value, step);
  }

  /** Where the worker stands after its latest step, unless that ended its thread. */
  lemma WorkerStands(steps: seq<Step>, k: nat)
    requires Run(steps).Some? && LastOf(steps, k, WorkerThread)
    ensures Inv(StateAt(steps, k)) && WorkerStep(StateAt(steps, k), steps[k]).Some? && Inv(Run(steps).value)
    ensures var worker := WorkerStep(StateAt(steps, k), steps[k]).value.worker;
            !JoinableEnd(worker) ==> Run(steps).value.worker == worker
  {
    hide DoStep, Inv, Run, WorkerStep, JoinableEnd;
    PrefixRuns(steps, k);
    PositionsStay(steps, k);
    StepsOfThread(Run(steps[..k]).value, steps[k]);
    RunKeeps(steps);
  }

  /** The child of the run in progress, or none. */
  function ChildOf(log: seq<Event>): int {
    if PhaseOf(log).Busy? then PhaseOf(log).child else NO_PID
  }

  lemma WorkersChild(s: State)
    requires Inv(s)
    ensures (s.worker.Delivering? || s.worker.DeliveryArming? || s.worker.ReadingOutput? || s.worker.Reaping?
             || s.worker.ChildPublished? || s.worker.ChildSpawned?) ==> s.worker.child == ChildOf(s.log) > 0
  {
    hide PidInv, MainInv, WatchInv, SafeSignals, PatientWatchdog, PhaseOf;
  }

  lemma FailureLeads(s: State, step: Step)
    requires WorkerStep(s, step).Some? && step in {EmitStarted(false), ReadLine(false), OutputFails}
    ensures WorkerStep(s, step).value.worker.Reaping?
  {}

  lemma ReapLeads(s: State, sent: bool)
    requires s.worker.Reaping?
    ensures WorkerStep(s, ReapChild(sent)).Some?
    ensures WorkerStep(s, ReapChild(sent)).value.log == s.log + [Signal(ByReaper, s.worker.child, sent)]
  {}

  /** After a failed emission or a failed read the worker can only stop and reap its child. */
  lemma FailureReaps(steps: seq<Step>, k: nat)
    requires Run(steps).Some? && LastOf(steps, k, WorkerThread)
    requires steps[k] in {EmitStarted(false), ReadLine(false), OutputFails}
    ensures GoesOn(steps, WorkerThread, (x: Step) => x.ReapChild?)
    ensures forall sent :: Adds(steps, ReapChild(sent), [Signal(ByReaper, ChildOf(Run(steps).value.log), sent)])
    ensures ChildOf(Run(steps).value.log) > 0
  {
    hide Run, DoStep, Inv, WorkerStep, StateAt, GoesOn, Does, Adds, NoneAfter, ChildOf;
    var s := Run(steps).value;
    WorkerStands(steps, k);
    FailureLeads(StateAt(steps, k), steps[k]);
    WorkersChild(s);
    WorkerGoesOn(steps, (x: Step) => x.ReapChild?);
    forall sent
      ensures Adds(steps, ReapChild(sent), [Signal(ByReaper, ChildOf(s.log), sent)])
    {
      ReapLeads(s, sent);
      WorkerAdds(steps, ReapChild(sent), [Signal(ByReaper, ChildOf(s.log), sent)]);
    }
  }

  lemma DeliveredLeads(s: State)
    requires WorkerStep(s, DeliverQueued(true)).Some?
    ensures WorkerStep(s, DeliverQueued(true)).value.worker.DeliveryArming?
  {}

  lemma DeliveryArmLeads(s: State)
    requires s.worker.DeliveryArming? && s.worker.child > 0
    ensures WorkerStep(s, DeliveryArm).Some?
    ensures WorkerStep(s, DeliveryArm).value.log == s.log + ArmedIfCurrent(s, s.worker.child)
  {
    ArmAdds(s, s.worker.child);
  }

  /** A delivered queued Stop is followed by arming the watchdog for the child. */
  lemma QueuedStopArms(steps: seq<Step>, k: nat)
    requires Run(steps).Some? && LastOf(steps, k, WorkerThread) && steps[k] == DeliverQueued(true)
    ensures Does(steps, WorkerThread, DeliveryArm, true)
    ensures Adds(steps, DeliveryArm, ArmedIfCurrent(Run(steps).value, ChildOf(Run(steps).value.log)))
  {
    hide Run, DoStep, Inv, WorkerStep, StateAt, GoesOn, Does, Adds, NoneAfter, ChildOf, ArmedIfCurrent;
    var s := Run(steps).value;
    WorkerStands(steps, k);
    DeliveredLeads(StateAt(steps, k));
    WorkersChild(s);
    WorkerDoes(steps, DeliveryArm, true);
    DeliveryArmLeads(s);
    WorkerAdds(steps, DeliveryArm, ArmedIfCurrent(s, ChildOf(s.log)));
  }

  /** A Stop is queued in the run in progress, its delivery has not been attempted, and the run has
    * got to where it is due: the marker of an engine, "started" of any other command. */
  ghost predicate DeliveryDue(log: seq<Event>) {
    && PhaseOf(log).Busy?
    && StopQueued in Since(log) && QueuedAttempts(Since(log)) == 0
    && if PhaseOf(log).engine then HasMarker(Since(log)) else HasStarted(Since(log))
  }

  lemma DueIsDelivering(s: State)
    requires Inv(s) && (s.worker.Delivering? || s.worker.ReadingOutput?)
    ensures DeliveryDue(s.log) <==> s.worker.Delivering?
  {
    hide PidInv, MainInv, WatchInv, SafeSignals, PatientWatchdog, PhaseOf, Since, HasMarker, HasStarted, QueuedAttempts;
    BusyFlags(s.log);
  }

  lemma ReadingLeads(s: State, step: Step)
    requires WorkerStep(s, step).Some?
    requires step in {EmitStarted(true), DeliverQueued(false), DeliveryArm, ReadReadyMarker, ReadLine(true)}
    ensures var worker := WorkerStep(s, step).value.worker; worker.Delivering? || worker.ReadingOutput?
  {
    hide ArmStep, Ready, TakesQueued;
  }

  lemma DeliverLeads(s: State, sent: bool)
    requires s.worker.Delivering?
    ensures WorkerStep(s, DeliverQueued(sent)).Some?
    ensures WorkerStep(s, DeliverQueued(sent)).value.log == s.log + [Signal(ByQueuedStop, s.worker.child, sent)]
  {}

  /** A worker that has emitted "started" delivers a queued Stop when that is due, and else reads. */
  lemma WorkerDeliversOrReads(steps: seq<Step>, k: nat)
    requires Run(steps).Some? && LastOf(steps, k, WorkerThread)
    requires steps[k] in {EmitStarted(true), DeliverQueued(false), DeliveryArm, ReadReadyMarker, ReadLine(true)}
    ensures var s := Run(steps).value;
            && (DeliveryDue(s.log) ==>
                  && GoesOn(steps, WorkerThread, (x: Step) => x.DeliverQueued?)
                  && forall sent :: Adds(steps, DeliverQueued(sent), [Signal(ByQueuedStop, ChildOf(s.log), sent)]))
            && (!DeliveryDue(s.log) ==>
                  && GoesOn(steps, WorkerThread, (x: Step) => Reads(x, !s.transportFailed))
                  && Adds(steps, ReadReadyMarker, [MarkerRead(ChildOf(s.log))]))
  {
    hide Run, DoStep, Inv, WorkerStep, StateAt, GoesOn, Does, Adds, NoneAfter, ChildOf, DeliveryDue;
    var s := Run(steps).value;
    WorkerStands(steps, k);
    ReadingLeads(StateAt(steps, k), steps[k]);
    DueIsDelivering(s);
    WorkersChild(s);
    if DeliveryDue(s.log) {
      WorkerGoesOn(steps, (x: Step) => x.DeliverQueued?);
      forall sent
        ensures Adds(steps, DeliverQueued(sent), [Signal(ByQueuedStop, ChildOf(s.log), sent)])
      {
        DeliverLeads(s, sent);
        WorkerAdds(steps, DeliverQueued(sent), [Signal(ByQueuedStop, ChildOf(s.log), sent)]);
      }
    } else {
      var intact := !s.transportFailed;
      WorkerGoesOn(steps, (x: Step) => Reads(x, intact));
      MarkerLeads(s);
      WorkerAdds(steps, ReadReadyMarker, [MarkerRead(ChildOf(s.log))]);
    }
  }

  lemma MarkerLeads(s: State)
    requires s.worker.ReadingOutput?
    ensures WorkerStep(s, ReadReadyMarker).Some?
    ensures WorkerStep(s, ReadReadyMarker).value.log == s.log + [MarkerRead(s.worker.child)]
  {}

  lemma EndLeads(s: State, step: Step)
    requires WorkerStep(s, step).Some? && (step in {OutputEnds, RefuseCommand} || step.ReapChild?)
    ensures WorkerStep(s, step).value.worker.Finishing?
  {}

  lemma IdleLeads(s: State)
    requires s.worker.Finishing?
    ensures WorkerStep(s, PublishIdleStep).Some?
    ensures WorkerStep(s, PublishIdleStep).value.log == s.log + [IdlePublished]
    ensures WorkerStep(s, PublishIdleStep).value.worker == IdleDone
  {}

  /** When the output has ended, the child has been reaped or the command refused, idle state is
    * published. */
  lemma EndPublishesIdle(steps: seq<Step>, k: nat)
    requires Run(steps).Some? && LastOf(steps, k, WorkerThread)
    requires steps[k] in {OutputEnds, RefuseCommand} || steps[k].ReapChild?
    ensures Does(steps, WorkerThread, PublishIdleStep, true)
    ensures Adds(steps, PublishIdleStep, [IdlePublished])
  {
    hide Run, DoStep, Inv, WorkerStep, StateAt, GoesOn, Does, Adds, NoneAfter;
    WorkerStands(steps, k);
    EndLeads(StateAt(steps, k), steps[k]);
    WorkerDoes(steps, PublishIdleStep, true);
    IdleLeads(Run(steps).value);
    WorkerAdds(steps, PublishIdleStep, [IdlePublished]);
  }

  lemma IdleWasFinishing(s: State)
    requires WorkerStep(s, PublishIdleStep).Some?
    ensures s.worker.Finishing?
  {}

  lemma FinishedLeads(s: State, sent: bool)
    requires s.worker == IdleDone && (sent ==> !s.transportFailed)
    ensures WorkerStep(s, EmitFinished(sent)).Some?
    ensures WorkerStep(s, EmitFinished(sent)).value.log == s.log + [Finished(sent)]
  {}

  /** After publishing idle state the worker emits "finished"; that can succeed only while the
    * transport is intact. */
  lemma IdleEmitsFinished(steps: seq<Step>, k: nat)
    requires Run(steps).Some? && LastOf(steps, k, WorkerThread) && steps[k] == PublishIdleStep
    ensures var intact := !Run(steps).value.transportFailed;
            && GoesOn(steps, WorkerThread, (x: Step) => x.EmitFinished? && (x.sent ==> intact))
            && forall sent :: (sent ==> intact) ==> Adds(steps, EmitFinished(sent), [Finished(sent)])
  {
    hide Run, DoStep, Inv, WorkerStep, StateAt, GoesOn, Does, Adds, NoneAfter;
    var s := Run(steps).value;
    WorkerStands(steps, k);
    IdleWasFinishing(StateAt(steps, k));
    IdleLeads(StateAt(steps, k));
    var intact := !s.transportFailed;
    WorkerGoesOn(steps, (x: Step) => x.EmitFinished? && (x.sent ==> intact));
    forall sent | sent ==> intact
      ensures Adds(steps, EmitFinished(sent), [Finished(sent)])
    {
      FinishedLeads(s, sent);
      WorkerAdds(steps, EmitFinished(sent), [Finished(sent)]);
    }
  }

  lemma CreatedLeads(s: State)
    requires MainStep(s, CreateThread(true)).Some?
    ensures MainStep(s, CreateThread(true)).value.worker == Starting
  {}

  lemma SpawnLeads(s: State)
    requires s.worker == Starting
    ensures WorkerStep(s, SpawnChild).Some?
    ensures WorkerStep(s, SpawnChild).value.log == s.log + [Spawned(s.nextPid, s.g.waitsForOutput)]
    ensures WorkerStep(s, SpawnChild).value.worker == ChildSpawned(s.nextPid)
  {}

  lemma StartingIsBusy(s: State)
    requires Inv(s) && s.worker == Starting
    ensures PhaseOf(s.log).Busy? && PhaseOf(s.log).engine == s.g.waitsForOutput
    ensures s.nextPid > 0 && Spawned(s.nextPid, true) !in s.log && Spawned(s.nextPid, false) !in s.log
  {
    hide MainInv, WatchInv, SafeSignals, PatientWatchdog, PhaseOf;
  }

  /** A new worker refuses its command or spawns a child under a fresh process id, an engine exactly
    * if an engine was accepted. */
  lemma WorkerStarts(steps: seq<Step>, k: nat)
    requires Run(steps).Some? && k < |steps| && steps[k] == CreateThread(true) && NoneAfter(steps, k, WorkerThread)
    ensures GoesOn(steps, WorkerThread, (x: Step) => x in {RefuseCommand, SpawnChild})
    ensures var s := Run(steps).value;
            && PhaseOf(s.log).Busy?
            && exists pid: int :: pid > 0 && Spawned(pid, true) !in s.log && Spawned(pid, false) !in s.log
                 && Adds(steps, SpawnChild, [Spawned(pid, PhaseOf(s.log).engine)])
  {
    hide Run, DoStep, Inv, MainStep, WorkerStep, StateAt, GoesOn, Does, Adds, NoneAfter, PhaseOf;
    var s := Run(steps).value;
    PrefixRuns(steps, k);
    PositionsStay(steps, k);
    StepsOfThread(StateAt(steps, k), steps[k]);
    CreatedLeads(StateAt(steps, k));
    RunKeeps(steps);
    WorkerGoesOn(steps, (x: Step) => x in {RefuseCommand, SpawnChild});
    SpawnLeads(s);
    StartingIsBusy(s);
    WorkerAdds(steps, SpawnChild, [Spawned(s.nextPid, PhaseOf(s.log).engine)]);
  }

  lemma SpawnWasStarting(s: State)
    requires WorkerStep(s, SpawnChild).Some?
    ensures s.worker == Starting
  {}

  lemma PublishLeads(s: State)
    requires s.worker.ChildSpawned?
    ensures WorkerStep(s, PublishStep).Some?
    ensures WorkerStep(s, PublishStep).value.worker.ChildPublished?
    ensures WorkerStep(s, PublishStep).value.g.activePid == s.worker.child
    ensures WorkerStep(s, PublishStep).value.log == s.log
  {}

  /** A spawned child is published under its process id. */
  lemma SpawnedIsPublished(steps: seq<Step>, k: nat)
    requires Run(steps).Some? && LastOf(steps, k, WorkerThread) && steps[k] == SpawnChild
    ensures Does(steps, WorkerThread, PublishStep, true)
    ensures Adds(steps, PublishStep, [])
    ensures Run(steps + [PublishStep]).Some?
    ensures Run(steps + [PublishStep]).value.g.activePid == ChildOf(Run(steps).value.log) > 0
  {
    hide Run, DoStep, Inv, WorkerStep, StateAt, GoesOn, Does, NoneAfter, ChildOf;
    var s := Run(steps).value;
    WorkerStands(steps, k);
    SpawnWasStarting(StateAt(steps, k));
    SpawnLeads(StateAt(steps, k));
    WorkersChild(s);
    WorkerDoes(steps, PublishStep, true);
    PublishLeads(s);
    assert s.log + [] == s.log;
    WorkerAdds(steps, PublishStep, []);
    OneMoreStep(steps, PublishStep);
    StepsOfThread(s, PublishStep);
  }

  lemma PublishWasSpawned(s: State)
    requires WorkerStep(s, PublishStep).Some?
    ensures s.worker.ChildSpawned?
  {}

  lemma StartedLeads(s: State, sent: bool)
    requires s.worker.ChildPublished? && (sent ==> !s.transportFailed)
    ensures WorkerStep(s, EmitStarted(sent)).Some?
    ensures WorkerStep(s, EmitStarted(sent)).value.log == s.log + if sent then [Started(s.worker.child)] else []
  {
    assert s.log + [] == s.log;
  }

  /** A published child is announced; that can succeed only while the transport is intact. */
  lemma PublishedIsStarted(steps: seq<Step>, k: nat)
    requires Run(steps).Some? && LastOf(steps, k, WorkerThread) && steps[k] == PublishStep
    ensures var s := Run(steps).value;
            && GoesOn(steps, WorkerThread, (x: Step) => x.EmitStarted? && (x.sent ==> !s.transportFailed))
            && forall sent :: (sent ==> !s.transportFailed) ==>
                 Adds(steps, EmitStarted(sent), if sent then [Started(ChildOf(s.log))] else [])
  {
    hide Run, DoStep, Inv, WorkerStep, StateAt, GoesOn, Does, Adds, NoneAfter, ChildOf;
    var s := Run(steps).value;
    WorkerStands(steps, k);
    PublishWasSpawned(StateAt(steps, k));
    PublishLeads(StateAt(steps, k));
    WorkersChild(s);
    WorkerGoesOn(steps, (x: Step) => x.EmitStarted? && (x.sent ==> !s.transportFailed));
    forall sent | sent ==> !s.transportFailed
      ensures Adds(steps, EmitStarted(sent), if sent then [Started(ChildOf(s.log))] else [])
    {
      StartedLeads(s, sent);
      WorkerAdds(steps, EmitStarted(sent), if sent then [Started(ChildOf(s.log))] else []);
    }
  }

  // ---------------------------------------------------------------- the watchdog

  lemma WatchdogGoesOn(steps: seq<Step>, may: Step -> bool)
    requires Run(steps).Some?
    requires forall step :: ThreadOf(step) == WatchdogThread ==> (WatchdogStep(Run(steps).value, step).Some? <==> may(step))
    ensures GoesOn(steps, WatchdogThread, may)
  {
    hide DoStep, Run, WatchdogStep;
    forall step | ThreadOf(step) == WatchdogThread
      ensures Run(steps + [step]).Some? <==> may(step)
    {
      OneMoreStep(steps, step);
      StepsOfThread(Run(steps).value, step);
    }
  }

  lemma WatchdogDoes(steps: seq<Step>, only: Step, allowed: bool)
    requires Run(steps).Some?
    requires forall step :: ThreadOf(step) == WatchdogThread ==>
               (WatchdogStep(Run(steps).value, step).Some? <==> step == only && allowed)
    ensures Does(steps, WatchdogThread, only, allowed)
  {
    hide DoStep, Run, WatchdogStep;
    forall step | ThreadOf(step) == WatchdogThread
      ensures Run(steps + [step]).Some? <==> step == only && allowed
    {
      OneMoreStep(steps, step);
      StepsOfThread(Run(steps).value, step);
    }
  }

  lemma WatchdogAdds(steps: seq<Step>, step: Step, events: seq<Event>)
    requires Run(steps).Some? && ThreadOf(step) == WatchdogThread && WatchdogStep(Run(steps).value, step).Some?
    requires WatchdogStep(Run(steps).value, step).value.log == Run(steps).value.log + events
    ensures Adds(steps, step, events)
  {
    hide DoStep, Run, WatchdogStep;
    OneMoreStep(steps, step);
    StepsOfThread(Run(steps).value, step);
  }

  lemma WatchdogStands(steps: seq<Step>, k: nat)
    requires Run(steps).Some? && LastOf(steps, k, WatchdogThread)
    ensures WatchdogStep(StateAt(steps, k), steps[k]).Some?
    ensures Run(steps).value.watchdog == WatchdogStep(StateAt(steps, k), steps[k]).value.watchdog
    ensures forall events :: Adds(steps[..k], steps[k], events) ==>
              WatchdogStep(StateAt(steps, k), steps[k]).value.log == StateAt(steps, k).log + events
  {
    hide DoStep, Inv, Run, WatchdogStep;
    PrefixRuns(steps, k);
    PositionsStay(steps, k);
    StepsOfThread(Run(steps[..k]).value, steps[k]);
    OneMoreStep(steps[..k], steps[k]);
  }

  lemma ExpiryLeads(s: State)
    requires WatchdogStep(s, WatchdogExpires).Some?
    ensures s.watchdog.Timing? && WatchdogStep(s, WatchdogExpires).value.watchdog == Killing(s.watchdog.pid)
    ensures WatchdogStep(s, WatchdogExpires).value.log == s.log + [Expired(s.watchdog.pid, s.now)]
  {}

  lemma KillLeads(s: State, running: bool, sent: bool)
    requires s.watchdog.Killing?
    ensures WatchdogStep(s, WatchdogKills(running, sent)).Some?
    ensures WatchdogStep(s, WatchdogKills(running, sent)).value.log
            == s.log + if running then [Signal(ByWatchdog, s.watchdog.pid, sent)] else []
  {
    assert s.log + [] == s.log;
  }

  lemma KillingGoesOn(s: State)
    requires s.watchdog.Killing?
    ensures forall step :: ThreadOf(step) == WatchdogThread ==> (WatchdogStep(s, step).Some? <==> step.WatchdogKills?)
  {}

  /** An expiry is followed by a kill of that child, if it is found still running. */
  lemma ExpiryKills(steps: seq<Step>, k: nat, pid: int, at: nat)
    requires Run(steps).Some? && LastOf(steps, k, WatchdogThread)
    requires steps[k] == WatchdogExpires && Adds(steps[..k], steps[k], [Expired(pid, at)])
    ensures GoesOn(steps, WatchdogThread, (x: Step) => x.WatchdogKills?)
    ensures forall running, sent ::
              Adds(steps, WatchdogKills(running, sent), if running then [Signal(ByWatchdog, pid, sent)] else [])
  {
    hide Run, DoStep, Inv, WatchdogStep, StateAt, GoesOn, Does, NoneAfter, Adds;
    var before, s := StateAt(steps, k), Run(steps).value;
    WatchdogStands(steps, k);
    ExpiryLeads(before);
    SameEvents(before.log, [Expired(pid, at)], [Expired(before.watchdog.pid, before.now)]);
    KillingGoesOn(s);
    WatchdogGoesOn(steps, (x: Step) => x.WatchdogKills?);
    forall running, sent
      ensures Adds(steps, WatchdogKills(running, sent), if running then [Signal(ByWatchdog, pid, sent)] else [])
    {
      KillLeads(s, running, sent);
      WatchdogAdds(steps, WatchdogKills(running, sent), if running then [Signal(ByWatchdog, pid, sent)] else []);
    }
  }

  /** The child that the watchdog waits for is still the current one and armed. */
  predicate StillWatched(g: Guarded, pid: int) {
    g.watchdogArmed && g.watchdogPid == pid && g.workerRunning && g.activePid == pid
  }

  lemma NoticeLeads(s: State)
    requires WatchdogStep(s, WatchdogNotices).Some?
    ensures WatchdogStep(s, WatchdogNotices).value.watchdog == Timing(s.g.watchdogPid, s.g.watchdogDeadline)
    ensures WatchdogStep(s, WatchdogNotices).value.log == s.log + [Timed(s.g.watchdogPid, s.g.watchdogDeadline)]
  {}

  lemma TimingGoesOn(s: State)
    requires s.watchdog.Timing?
    ensures forall step :: ThreadOf(step) == WatchdogThread ==>
              (WatchdogStep(s, step).Some? <==>
                 || (step == WatchdogSeesChange && !StillWatched(s.g, s.watchdog.pid))
                 || (step == WatchdogExpires && StillWatched(s.g, s.watchdog.pid) && s.now >= s.watchdog.deadline))
    ensures WatchdogStep(s, WatchdogExpires).Some? ==>
              WatchdogStep(s, WatchdogExpires).value.log == s.log + [Expired(s.watchdog.pid, s.now)]
  {}

  /** A waiting watchdog sees a change when its child is not watched any more, and expires when it
    * still is and the deadline that it noticed has come. */
  lemma WaitEnds(steps: seq<Step>, k: nat, pid: int, deadline: nat)
    requires Run(steps).Some? && LastOf(steps, k, WatchdogThread)
    requires steps[k] == WatchdogNotices && Adds(steps[..k], steps[k], [Timed(pid, deadline)])
    ensures var s := Run(steps).value;
            && GoesOn(steps, WatchdogThread, (x: Step) => if StillWatched(s.g, pid) then x == WatchdogExpires && s.now >= deadline
                                                          else x == WatchdogSeesChange)
            && (StillWatched(s.g, pid) && s.now >= deadline ==> Adds(steps, WatchdogExpires, [Expired(pid, s.now)]))
  {
    hide Run, DoStep, Inv, WatchdogStep, StateAt, GoesOn, Does, NoneAfter, Adds, StillWatched;
    var before, s := StateAt(steps, k), Run(steps).value;
    WatchdogStands(steps, k);
    NoticeLeads(before);
    SameEvents(before.log, [Timed(pid, deadline)], [Timed(before.g.watchdogPid, before.g.watchdogDeadline)]);
    TimingGoesOn(s);
    var watched := StillWatched(s.g, pid);
    WatchdogGoesOn(steps, (x: Step) => if watched then x == WatchdogExpires && s.now >= deadline else x == WatchdogSeesChange);
    if watched && s.now >= deadline {
      WatchdogAdds(steps, WatchdogExpires, [Expired(pid, s.now)]);
    }
  }

  lemma BackToWaiting(s: State, step: Step)
    requires WatchdogStep(s, step).Some? && (step == WatchdogSeesChange || step.WatchdogKills?)
    ensures WatchdogStep(s, step).value.watchdog == Waiting
  {}

  lemma WaitingGoesOn(s: State)
    requires s.watchdog == Waiting
    ensures forall step :: ThreadOf(step) == WatchdogThread ==>
              (WatchdogStep(s, step).Some? <==> step == WatchdogNotices && s.g.watchdogArmed)
    ensures s.g.watchdogArmed ==>
              WatchdogStep(s, WatchdogNotices).value.log == s.log + [Timed(s.g.watchdogPid, s.g.watchdogDeadline)]
  {}

  /** After a change or a kill the watchdog notices the next arming. */
  lemma ArmingIsNoticed(steps: seq<Step>, k: nat)
    requires Run(steps).Some? && LastOf(steps, k, WatchdogThread)
    requires steps[k] == WatchdogSeesChange || steps[k].WatchdogKills?
    ensures var g := Run(steps).value.g;
            var armed := g.watchdogArmed;
            && Does(steps, WatchdogThread, WatchdogNotices, armed)
            && (g.watchdogArmed ==> Adds(steps, WatchdogNotices, [Timed(g.watchdogPid, g.watchdogDeadline)]))
  {
    hide Run, DoStep, Inv, WatchdogStep, StateAt, GoesOn, Does, NoneAfter, Adds;
    var s := Run(steps).value;
    WatchdogStands(steps, k);
    BackToWaiting(StateAt(steps, k), steps[k]);
    WaitingGoesOn(s);
    var armed := s.g.watchdogArmed;
    WatchdogDoes(steps, WatchdogNotices, armed);
    if armed {
      WatchdogAdds(steps, WatchdogNotices, [Timed(s.g.watchdogPid, s.g.watchdogDeadline)]);
    }
  }

  // ---------------------------------------------------------------- the beginning

  lemma {:induction false} NotBegun(steps: seq<Step>)
    requires Run(steps).Some?
    ensures (forall m :: 0 <= m < |steps| ==> ThreadOf(steps[m]) != MainThread) ==> Run(steps).value.main == Reading
    ensures (forall m :: 0 <= m < |steps| ==> ThreadOf(steps[m]) != WatchdogThread) ==> Run(steps).value.watchdog == Waiting
  {
    hide DoStep, Inv;
    if steps != [] {
      var init, last := steps[..|steps| - 1], steps[|steps| - 1];
      NotBegun(init);
      RunKeeps(init);
      OthersKeep(Run(init).value, last);
    }
  }

  /** Before its first step the main thread reads a command, and the watchdog notices an arming. */
  lemma Beginnings(steps: seq<Step>)
    requires Run(steps).Some?
    ensures (forall m :: 0 <= m < |steps| ==> ThreadOf(steps[m]) != MainThread) ==>
              GoesOn(steps, MainThread, (x: Step) => IsCommand(x))
    ensures (forall m :: 0 <= m < |steps| ==> ThreadOf(steps[m]) != WatchdogThread) ==>
              Does(steps, WatchdogThread, WatchdogNotices, Run(steps).value.g.watchdogArmed)
  {
    hide Run, DoStep, Inv, WatchdogStep, JoinableEnd, GoesOn, Does;
    var s := Run(steps).value;
    NotBegun(steps);
    if s.main == Reading {
      MainGoesOn(steps, (x: Step) => IsCommand(x));
    }
    if s.watchdog == Waiting {
      WaitingGoesOn(s);
      WatchdogDoes(steps, WatchdogNotices, s.g.watchdogArmed);
    }
  }
}
