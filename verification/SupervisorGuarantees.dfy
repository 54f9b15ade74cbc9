/** The promises of the supervisor, over all executions. */
module SupervisorGuarantees {
  import opened Options
  import opened SupervisorMemory
  import opened SupervisorProtocol
  import opened SupervisorSafety
  import opened SupervisorProgress

  /** A transitional state is never orphaned, however wakes and sleeps overlap. */
  lemma TransitionalStateHasWorker(cfg: Config, states: seq<System>, events: seq<Event>, k: nat)
    requires Execution(cfg, states, events) && k < |states|
    ensures states[k].mem.state == Starting ==> WakeOutstanding(states[k])
    ensures states[k].mem.state == Stopping ==> SleepOutstanding(states[k])
  {
    ExecutionInv(cfg, states, events, k);
  }

  /** What the workers have reported last: the probe at boot, then the result of each
      runtime call when its worker records it. */
  function LastReported(states: seq<System>, events: seq<Event>): Outcome
    requires |states| == |events| + 1
  {
    if events == [] then states[0].outcome
    else
      var last := |events| - 1;
      var before := LastReported(states[..last + 1], events[..last]);
      match events[last]
      case Restart(probe) => Probed(probe)
      case Run(i, _) => if i < |states[last].threads| then Report(states[last].threads[i], before) else before
      case _ => before
  }

  function Report(t: Thread, before: Outcome): Outcome {
    match t
    case WakerReturned(ok) => StartCall(ok)
    case SleeperReturned(ok) => StopCall(ok)
    case _ => before
  }

  /** The state after a step, given what was reported before it. */
  lemma StepReports(cfg: Config, s: System, e: Event, before: Outcome)
    requires Inv(s) && Possible(s, e)
    requires s.mem.state == Starting || s.mem.state == Stopping || s.mem.state == StateOf(before)
    requires SomeUnsettled(s) || before == s.outcome
    ensures var after := Apply(cfg, s, e);
      var reported := match e
        case Restart(probe) => Probed(probe)
        case Run(i, _) => Report(s.threads[i], before)
        case _ => before;
      && (after.mem.state == Starting || after.mem.state == Stopping || after.mem.state == StateOf(reported))
      && (SomeUnsettled(after) || reported == after.outcome)
  {
    var after := Apply(cfg, s, e);
    match e
    case Run(i, ok) =>
      ActReports(cfg, s.threads[i], s, ok);
      RunSettles(cfg, s, i, ok, before);
    case Arrive(call) => ArrivalKeepsWorkers(s, call);
    case _ =>
      assert !e.Restart? ==> after.threads == s.threads;
      assert !e.Restart? && SomeUnsettled(s) ==> SomeUnsettled(after);
  }

  lemma RunSettles(cfg: Config, s: System, i: nat, ok: bool, before: Outcome)
    requires Inv(s) && Enabled(s, i) && (SomeUnsettled(s) || before == s.outcome)
    ensures SomeUnsettled(Next(cfg, s, i, ok)) || Report(s.threads[i], before) == Next(cfg, s, i, ok).outcome
  {
    var t, after := s.threads[i], Next(cfg, s, i, ok);
    ActReports(cfg, t, s, ok);
    if InRuntime(t) {
      assert Unsettled(after.threads[i]);
    } else if !Unsettled(t) && SomeUnsettled(s) {
      var u :| 0 <= u < |s.threads| && Unsettled(s.threads[u]);
      assert after.threads[u] == s.threads[u];
    }
  }

  lemma {:induction false} StateIsReported(cfg: Config, states: seq<System>, events: seq<Event>)
    requires Execution(cfg, states, events)
    ensures var s, reported := states[|events|], LastReported(states, events);
      && (s.mem.state == Starting || s.mem.state == Stopping || s.mem.state == StateOf(reported))
      && (SomeUnsettled(s) || reported == s.outcome)
  {
    if events != [] {
      var last := |events| - 1;
      var states0, events0 := states[..last + 1], events[..last];
      forall k | 0 <= k < |events0|
        ensures Possible(states0[k], events0[k]) && states0[k + 1] == Apply(cfg, states0[k], events0[k])
      {
        assert events0[k] == events[k] && states0[k] == states[k] && states0[k + 1] == states[k + 1];
      }
      StateIsReported(cfg, states0, events0);
      ExecutionInv(cfg, states, events, last);
      StepReports(cfg, states[last], events[last], LastReported(states0, events0));
    }
  }

  /** The state in words: what each value says about the last report. */
  ghost predicate Truthful(s: System, reported: Outcome) {
    match s.mem.state
    case Running => reported == StartCall(true) || reported == Probed(AllReady)
    case Sleeping => reported == StopCall(true) || reported == Probed(NoneRunning) || reported == Probed(ProbeRaised)
    case Failed => reported == StartCall(false) || reported == StopCall(false)
    case Partial => reported == Probed(SomeRunning)
    case Starting => WakeOutstanding(s)
    case Stopping => SleepOutstanding(s)
    case Unknown => false
  }

  lemma ReportedIsTruthful(s: System, reported: Outcome)
    requires NoOrphan(s) && s.mem.state != Unknown
    requires s.mem.state == Starting || s.mem.state == Stopping || s.mem.state == StateOf(reported)
    ensures Truthful(s, reported)
  {
  }

  /** A settled state says what a worker reported last, or the boot probe; a
      transitional one has its worker. What was reported is what the runtime said
      last, except between the return of a runtime call and its report. */
  lemma StateTellsTheTruth(cfg: Config, states: seq<System>, events: seq<Event>)
    requires Execution(cfg, states, events)
    ensures Truthful(states[|events|], LastReported(states, events))
    ensures SomeUnsettled(states[|events|]) || LastReported(states, events) == states[|events|].outcome
  {
    ExecutionInv(cfg, states, events, |events|);
    StateIsReported(cfg, states, events);
    ReportedIsTruthful(states[|events|], LastReported(states, events));
  }

  /** With no thread left the state is a function of the last outcome. */
  lemma QuietStateTellsTheTruth(cfg: Config, states: seq<System>, events: seq<Event>, k: nat)
    requires Execution(cfg, states, events) && k < |states| && Quiet(states[k])
    ensures states[k].mem.state == StateOf(states[k].outcome)
    ensures states[k].mem.state !in {Starting, Stopping, Unknown}
  {
    ExecutionInv(cfg, states, events, k);
    QuietStateIsHonest(states[k]);
  }

  /** Start and stop calls never overlap. */
  lemma RuntimeCallsNeverOverlap(cfg: Config, states: seq<System>, events: seq<Event>, k: nat, i: nat, j: nat)
    requires Execution(cfg, states, events) && k < |states|
    requires i < |states[k].threads| && j < |states[k].threads|
    requires InRuntime(states[k].threads[i]) && InRuntime(states[k].threads[j])
    ensures i == j && states[k].operationLock == Some(i)
  {
    ExecutionInv(cfg, states, events, k);
    assert HoldsOperationLock(states[k].threads[i]) && HoldsOperationLock(states[k].threads[j]);
  }

  /** No execution reaches a deadlock. */
  lemma NoDeadlock(cfg: Config, states: seq<System>, events: seq<Event>, k: nat)
    requires Execution(cfg, states, events) && k < |states| && !Quiet(states[k])
    ensures exists i :: 0 <= i < |states[k].threads| && Enabled(states[k], i)
  {
    ExecutionInv(cfg, states, events, k);
    SomeThreadCanRun(states[k]);
  }

  // ------------------------------------------------------------------ rewake

  predicate OnRewakePath(t: Thread) {
    t == WakeEnter(true) || t == WakePersist(true) || t == WakeSpawn(true) || t == SleeperRelease(true)
  }

  lemma RewakePathStep(cfg: Config, s: System, i: nat, e: Event)
    requires i < |s.threads| && OnRewakePath(s.threads[i]) && !s.disabled
    requires Possible(s, e) && !e.Restart? && Apply(cfg, s, e).operationLock == Some(i)
    ensures i < |Apply(cfg, s, e).threads| && OnRewakePath(Apply(cfg, s, e).threads[i])
  {
  }

  lemma StopIsTurned(cfg: Config, s: System, i: nat, ok: bool)
    requires i < |s.threads| && s.threads[i].SleeperDecide? && LocksOwned(s) && RewakeDue(s.mem, s.clock, s.disabled)
    ensures i < |Next(cfg, s, i, ok).threads| && OnRewakePath(Next(cfg, s, i, ok).threads[i])
  {
  }

  /** A sleep worker that records its stop less than 30 s after the last activity
      lets go of the operation lock only with a wake outstanding, if the disabled
      file stays absent, whatever else happens in between. */
  lemma {:induction false} StopSoonAfterActivityIsReversed(
    cfg: Config, states: seq<System>, events: seq<Event>, k: nat, m: nat, i: nat, ok: bool)
    requires Execution(cfg, states, events) && k < m < |states|
    requires i < |states[k].threads| && states[k].threads[i].SleeperDecide? && events[k] == Run(i, ok)
    requires states[k].mem.lastActivity > states[k].clock - 30.0
    requires forall j | k <= j < m :: !states[j].disabled && !events[j].Restart?
    requires forall j | k <= j <= m :: states[j].operationLock == Some(i)
    ensures i < |states[m].threads| && OnRewakePath(states[m].threads[i])
    ensures states[m].threads[i].SleeperRelease? ==> WakeOutstanding(states[m])
  {
    StepOf(cfg, states, events, k);
    ExecutionInv(cfg, states, events, k);
    StopIsTurned(cfg, states[k], i, ok);
    RewakePathKept(cfg, states, events, k + 1, m, i);
    ExecutionInv(cfg, states, events, m);
  }

  /** The step from one state of an execution to the next. */
  lemma StepOf(cfg: Config, states: seq<System>, events: seq<Event>, k: nat)
    requires Execution(cfg, states, events) && k < |events|
    ensures Possible(states[k], events[k]) && states[k + 1] == Apply(cfg, states[k], events[k])
  {
  }

  lemma {:induction false} RewakePathKept(cfg: Config, states: seq<System>, events: seq<Event>, k: nat, m: nat, i: nat)
    requires Execution(cfg, states, events) && k <= m < |states|
    requires i < |states[k].threads| && OnRewakePath(states[k].threads[i])
    requires forall j | k <= j < m :: !states[j].disabled && !events[j].Restart?
    requires forall j | k <= j <= m :: states[j].operationLock == Some(i)
    ensures i < |states[m].threads| && OnRewakePath(states[m].threads[i])
  {
    if k < m {
      RewakePathKept(cfg, states, events, k, m - 1, i);
      StepOf(cfg, states, events, m - 1);
      RewakePathStep(cfg, states[m - 1], i, events[m - 1]);
    }
  }

  lemma StopIsKept(cfg: Config, s: System, i: nat, ok: bool)
    requires i < |s.threads| && s.threads[i].SleeperDecide? && LocksOwned(s) && !RewakeDue(s.mem, s.clock, s.disabled)
    ensures i < |Next(cfg, s, i, ok).threads| && Next(cfg, s, i, ok).threads[i] == SleeperRelease(false)
  {
  }

  lemma ReleaseStep(cfg: Config, s: System, i: nat, e: Event)
    requires i < |s.threads| && s.threads[i] == SleeperRelease(false)
    requires Possible(s, e) && !e.Restart? && Apply(cfg, s, e).operationLock == Some(i)
    ensures i < |Apply(cfg, s, e).threads| && Apply(cfg, s, e).threads[i] == SleeperRelease(false)
  {
  }

  /** A worker that will not ask for a wake keeps the operation lock until it releases it. */
  lemma {:induction false} ReleaseAwaits(cfg: Config, states: seq<System>, events: seq<Event>, k: nat, m: nat, i: nat)
    requires Execution(cfg, states, events) && k <= m < |states|
    requires i < |states[k].threads| && states[k].threads[i] == SleeperRelease(false)
    requires forall j | k <= j < m :: !events[j].Restart?
    requires forall j | k <= j <= m :: states[j].operationLock == Some(i)
    ensures i < |states[m].threads| && states[m].threads[i] == SleeperRelease(false)
  {
    if k < m {
      ReleaseAwaits(cfg, states, events, k, m - 1, i);
      StepOf(cfg, states, events, m - 1);
      ReleaseStep(cfg, states[m - 1], i, events[m - 1]);
    }
  }

  /** Over any execution in which the disabled file neither appears nor disappears
      meanwhile: a sleep worker that recorded its stop comes to the release of the
      operation lock with a wake asked for exactly when, at the decision, the last
      activity was younger than 30 s and the file was absent. */
  lemma StopIsReversedExactlyWhen(
    cfg: Config, states: seq<System>, events: seq<Event>, k: nat, m: nat, i: nat, ok: bool)
    requires Execution(cfg, states, events) && k < m < |states|
    requires i < |states[k].threads| && states[k].threads[i].SleeperDecide? && events[k] == Run(i, ok)
    requires forall j | k <= j < m :: states[j].disabled == states[k].disabled && !events[j].Restart?
    requires forall j | k <= j <= m :: states[j].operationLock == Some(i)
    requires i < |states[m].threads| ==> states[m].threads[i].SleeperRelease?
    ensures i < |states[m].threads|
    ensures states[m].threads[i] == SleeperRelease(true)
       <==> states[k].mem.lastActivity > states[k].clock - 30.0 && !states[k].disabled
    ensures states[m].threads[i] == SleeperRelease(true) ==> WakeOutstanding(states[m])
  {
    if RewakeDue(states[k].mem, states[k].clock, states[k].disabled) {
      StopSoonAfterActivityIsReversed(cfg, states, events, k, m, i, ok);
    } else {
      StepOf(cfg, states, events, k);
      ExecutionInv(cfg, states, events, k);
      StopIsKept(cfg, states[k], i, ok);
      ReleaseAwaits(cfg, states, events, k + 1, m, i);
    }
  }

  /** The release itself leaves the wake outstanding. */
  lemma ReleaseLeavesWakeOutstanding(cfg: Config, s: System, i: nat, ok: bool)
    requires Inv(s) && i < |s.threads| && s.threads[i] == SleeperRelease(true)
    ensures Next(cfg, s, i, ok).operationLock.None? && WakeOutstanding(Next(cfg, s, i, ok))
  {
    var w :| 0 <= w < |s.threads| && OwesWake(s.threads[w]);
    assert OwesWake(Next(cfg, s, i, ok).threads[w]);
  }

  // ------------------------------------------------------------- persistence

  /** Whenever the state lock is free the file holds the state and the wake time
      of memory, and every activity it does not know is less than 15 s younger
      than the file. */
  lemma FileMatchesUnlockedMemory(cfg: Config, states: seq<System>, events: seq<Event>, k: nat)
    requires Execution(cfg, states, events) && k < |states| && states[k].stateLock.None?
    ensures states[k].mem.disk.state == states[k].mem.state
    ensures states[k].mem.disk.lastWake == states[k].mem.lastWake
    ensures states[k].mem.lastActivity < states[k].mem.lastPersist + 15.0
    ensures states[k].mem.disk.lastActivity <= states[k].mem.lastPersist <= states[k].clock
  {
    ExecutionInv(cfg, states, events, k);
  }

  /** At step `j` worker `i` recorded a start that succeeded, and up to moment `k` it has not written the file. */
  ghost predicate Recording(states: seq<System>, events: seq<Event>, j: nat, k: nat, i: nat)
    requires |states| == |events| + 1
  {
    && j < k < |states| && events[j].Run? && events[j].thread == i
    && i < |states[j].threads| && states[j].threads[i] == WakerReturned(true)
    && forall m | j < m <= k :: i < |states[m].threads| && states[m].threads[i].WakerPersist?
  }

  /** Nobody changes memory or file while a wake worker stands in front of its write. */
  lemma WriteIsAwaited(cfg: Config, s: System, e: Event, i: nat)
    requires LocksOwned(s) && i < |s.threads| && s.threads[i].WakerPersist? && Possible(s, e) && !e.Restart?
    requires !(e.Run? && e.thread == i)
    ensures Apply(cfg, s, e).mem == s.mem
    ensures i < |Apply(cfg, s, e).threads| && Apply(cfg, s, e).threads[i].WakerPersist?
  {
    if e.Run? {
      assert HoldsStateLock(s.threads[i]) && !HoldsStateLock(s.threads[e.thread]);
    }
  }

  lemma ActFilesWake(cfg: Config, t: Thread, s: System, ok: bool)
    ensures var e := Act(cfg, t, s, ok);
      && (e.mem.lastWake != s.mem.lastWake ==> t == WakerReturned(true) && e.pc.WakerPersist?)
      && (e.mem.disk.lastWake == s.mem.disk.lastWake || e.mem.disk.lastWake == e.mem.lastWake)
      && (t.WakerPersist? ==> e.mem.disk.lastWake == e.mem.lastWake)
      && (t == WakerReturned(true) ==>
            e.mem.lastWake == s.clock && e.mem.state == Running && e.mem.disk == s.mem.disk)
  {
  }

  lemma StartIsRecorded(cfg: Config, s: System, e: Event)
    requires Possible(s, e) && e.Run? && s.threads[e.thread] == WakerReturned(true)
    ensures var m := Apply(cfg, s, e).mem; m.lastWake == s.clock && m.state == Running && m.disk == s.mem.disk
  {
    ActFilesWake(cfg, s.threads[e.thread], s, e.ok);
  }

  lemma RecordingBefore(states: seq<System>, events: seq<Event>, j: nat, k: nat, i: nat)
    requires |states| == |events| + 1 && Recording(states, events, j, k, i) && j + 1 < k
    ensures Recording(states, events, j, k - 1, i)
    ensures i < |states[k - 1].threads| && states[k - 1].threads[i].WakerPersist?
    ensures i < |states[k].threads| && states[k].threads[i].WakerPersist?
  {
  }

  lemma NothingChangesMeanwhile(cfg: Config, s: System, e: Event, after: System, i: nat)
    requires Inv(s) && Possible(s, e) && after == Apply(cfg, s, e)
    requires i < |s.threads| && s.threads[i].WakerPersist? && i < |after.threads| && after.threads[i].WakerPersist?
    ensures after.mem == s.mem
  {
    assert !(e.Run? && e.thread == i);
    WriteIsAwaited(cfg, s, e, i);
  }

  /** What is in memory meanwhile: the time of the record, and a running stack. */
  lemma {:induction false} RecordingHolds(
    cfg: Config, states: seq<System>, events: seq<Event>, j: nat, k: nat, i: nat)
    requires Execution(cfg, states, events) && Recording(states, events, j, k, i)
    ensures states[k].mem.lastWake == states[j].clock && states[k].mem.state == Running
  {
    if k == j + 1 {
      StepOf(cfg, states, events, j);
      StartIsRecorded(cfg, states[j], events[j]);
    } else {
      RecordingBefore(states, events, j, k, i);
      RecordingHolds(cfg, states, events, j, k - 1, i);
      RecordingStep(cfg, states, events, k - 1, i);
    }
  }

  lemma RecordingStep(cfg: Config, states: seq<System>, events: seq<Event>, k: nat, i: nat)
    requires Execution(cfg, states, events) && k < |events|
    requires i < |states[k].threads| && states[k].threads[i].WakerPersist?
    requires i < |states[k + 1].threads| && states[k + 1].threads[i].WakerPersist?
    ensures states[k + 1].mem == states[k].mem
  {
    StepOf(cfg, states, events, k);
    ExecutionInv(cfg, states, events, k);
    NothingChangesMeanwhile(cfg, states[k], events[k], states[k + 1], i);
  }

  /** How the file comes to lack the wake time, and stays without it. */
  lemma UnfiledStep(cfg: Config, s: System, e: Event)
    requires Possible(s, e)
    requires var m := Apply(cfg, s, e).mem; m.disk.lastWake != m.lastWake
    ensures !e.Restart? && (e.Run? ==> !s.threads[e.thread].WakerPersist?)
    ensures s.mem.disk.lastWake == s.mem.lastWake ==>
      && e.Run? && s.threads[e.thread] == WakerReturned(true)
      && e.thread < |Apply(cfg, s, e).threads| && Apply(cfg, s, e).threads[e.thread].WakerPersist?
  {
    if e.Run? {
      ActFilesWake(cfg, s.threads[e.thread], s, e.ok);
    }
  }

  lemma RecordingBegins(states: seq<System>, events: seq<Event>, j: nat)
    requires |states| == |events| + 1 && j < |events| && events[j].Run?
    requires var i := events[j].thread;
      && i < |states[j].threads| && states[j].threads[i] == WakerReturned(true)
      && i < |states[j + 1].threads| && states[j + 1].threads[i].WakerPersist?
    ensures Recording(states, events, j, j + 1, events[j].thread)
  {
  }

  lemma RecordingGoesOn(states: seq<System>, events: seq<Event>, j: nat, k: nat, i: nat)
    requires |states| == |events| + 1 && Recording(states, events, j, k, i) && k < |events|
    requires i < |states[k + 1].threads| && states[k + 1].threads[i].WakerPersist?
    ensures Recording(states, events, j, k + 1, i)
  {
  }

  lemma RecordingIsAwaited(cfg: Config, states: seq<System>, events: seq<Event>, j: nat, k: nat, i: nat)
    requires Execution(cfg, states, events) && Recording(states, events, j, k, i) && k < |events|
    requires !events[k].Restart? && (events[k].Run? ==> events[k].thread != i)
    ensures Recording(states, events, j, k + 1, i)
  {
    StepOf(cfg, states, events, k);
    ExecutionInv(cfg, states, events, k);
    WriteIsAwaited(cfg, states[k], events[k], i);
    RecordingGoesOn(states, events, j, k, i);
  }

  /** A file that lacks the wake time lacks it to a recording worker. */
  lemma {:induction false} UnfiledWakeIsRecorded(
    cfg: Config, states: seq<System>, events: seq<Event>, k: nat) returns (j: nat, i: nat)
    requires Execution(cfg, states, events) && k < |states|
    requires states[k].mem.disk.lastWake != states[k].mem.lastWake
    ensures Recording(states, events, j, k, i)
  {
    StepOf(cfg, states, events, k - 1);
    UnfiledStep(cfg, states[k - 1], events[k - 1]);
    if states[k - 1].mem.disk.lastWake == states[k - 1].mem.lastWake {
      j, i := k - 1, events[k - 1].thread;
      RecordingBegins(states, events, j);
    } else {
      j, i := UnfiledWakeIsRecorded(cfg, states, events, k - 1);
      RecordingIsAwaited(cfg, states, events, j, k - 1, i);
    }
  }

  /** A restart loads the wake time that protects the minimum uptime from the file, or
      takes the time of the restart when the file has none and the stack is up. What it
      loads is not what was in memory exactly when a worker had recorded a start, at a
      time other than the one in the file, and had not written the file since. */
  lemma RestartLosesWakeTimeExactlyWhen(cfg: Config, states: seq<System>, events: seq<Event>, k: nat)
    requires Execution(cfg, states, events) && k < |events| && events[k].Restart?
    ensures var before, after := states[k].mem, states[k + 1].mem;
      if events[k].probe == AllReady && before.disk.lastWake == 0.0 then after.lastWake == states[k].clock
      else after.lastWake != before.lastWake <==>
           exists j: nat, i: nat :: Recording(states, events, j, k, i) && states[j].clock != before.disk.lastWake
    ensures forall j: nat, i: nat | Recording(states, events, j, k, i) ::
      states[k].mem.lastWake == states[j].clock && states[k].mem.state == Running
    ensures states[k].stateLock.None? ==> states[k].mem.disk.lastWake == states[k].mem.lastWake
    ensures states[k + 1].threads == [] && states[k + 1].mem.state == ProbedState(events[k].probe)
  {
    ExecutionInv(cfg, states, events, k);
    forall j: nat, i: nat | Recording(states, events, j, k, i)
      ensures states[k].mem.lastWake == states[j].clock && states[k].mem.state == Running
    {
      RecordingHolds(cfg, states, events, j, k, i);
    }
    if states[k].mem.disk.lastWake != states[k].mem.lastWake {
      var j, i := UnfiledWakeIsRecorded(cfg, states, events, k);
    }
  }

  // -------------------------------------------- what the code does not promise

  /** `activity` reads the clock before it takes the lock, so a delayed call can
      move the activity time backwards. Otherwise only a restart can, when the file is
      older than memory. */
  lemma ActivityTimeGoesBackExactlyWhen(cfg: Config, s: System, e: Event)
    requires Inv(s) && Possible(s, e)
    ensures Apply(cfg, s, e).mem.lastActivity < s.mem.lastActivity <==>
      match e
      case Run(i, _) => s.threads[i].ActivityEnter? && s.threads[i].now < s.mem.lastActivity
      case Restart(probe) =>
        s.mem.disk.lastActivity < s.mem.lastActivity && !(probe == AllReady && s.mem.disk.lastActivity == 0.0)
      case _ => false
  {
  }
}
