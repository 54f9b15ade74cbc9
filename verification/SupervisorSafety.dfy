/** What every interleaving of the supervisor keeps. */
module SupervisorSafety {
  import opened Options
  import opened SupervisorMemory
  import opened SupervisorProtocol

  // ---------------------------------------------------------------- locks

  predicate HoldsStateLock(t: Thread) {
    t.ActivityPersist? || t.WakePersist? || t.WakerPersist? || t.SleepPersist? || t.SleeperPersist? || t.SleeperDecide?
  }

  predicate InRuntime(t: Thread) {
    t.WakerRunning? || t.SleeperRunning?
  }

  predicate Unsettled(t: Thread) {
    t.WakerReturned? || t.SleeperReturned?
  }

  predicate HoldsOperationLock(t: Thread) {
    || InRuntime(t) || Unsettled(t) || t.WakerPersist? || t.WakerRelease?
    || t.SleeperPersist? || t.SleeperDecide? || t.SleeperRelease?
    || (t.WakeEnter? && t.rewake) || (t.WakePersist? && t.rewake) || (t.WakeSpawn? && t.rewake)
  }

  ghost predicate LocksOwned(s: System) {
    && (s.stateLock.Some? ==> s.stateLock.value < |s.threads|)
    && (s.operationLock.Some? ==> s.operationLock.value < |s.threads|)
    && (forall i | 0 <= i < |s.threads| :: HoldsStateLock(s.threads[i]) <==> s.stateLock == Some(i))
    && (forall i | 0 <= i < |s.threads| :: HoldsOperationLock(s.threads[i]) <==> s.operationLock == Some(i))
  }

  // ------------------------------------------------- owed and live workers

  /** A wake worker that has not reported yet, or a thread bound to start one. */
  predicate OwesWake(t: Thread) {
    t.WakePersist? || t.WakeSpawn? || t.WakerWaiting? || t.WakerRunning? || t.WakerReturned?
  }

  predicate OwesSleep(t: Thread) {
    t.SleepPersist? || t.SleepSpawn? || t.SleeperWaiting? || t.SleeperRunning? || t.SleeperReturned?
  }

  ghost predicate WakeOutstanding(s: System) {
    exists i :: 0 <= i < |s.threads| && OwesWake(s.threads[i])
  }

  ghost predicate SleepOutstanding(s: System) {
    exists i :: 0 <= i < |s.threads| && OwesSleep(s.threads[i])
  }

  ghost predicate NoOrphan(s: System) {
    && (s.mem.state == Starting ==> WakeOutstanding(s))
    && (s.mem.state == Stopping ==> SleepOutstanding(s))
  }

  // ----------------------------------------------------------- honest state

  /** The state that reports an outcome truthfully. */
  function StateOf(outcome: Outcome): RunState {
    match outcome
    case Probed(probe) => ProbedState(probe)
    case StartCall(ok) => if ok then Running else Failed
    case StopCall(ok) => if ok then Sleeping else Failed
  }

  ghost predicate SomeUnsettled(s: System) {
    exists i :: 0 <= i < |s.threads| && Unsettled(s.threads[i])
  }

  ghost predicate Honest(s: System) {
    && s.mem.state != Unknown
    && (forall i | 0 <= i < |s.threads| :: s.threads[i].WakerReturned? ==> s.outcome == StartCall(s.threads[i].ok))
    && (forall i | 0 <= i < |s.threads| :: s.threads[i].SleeperReturned? ==> s.outcome == StopCall(s.threads[i].ok))
    && (s.mem.state == Starting || s.mem.state == Stopping || s.mem.state == StateOf(s.outcome) || SomeUnsettled(s))
  }

  // ------------------------------------------------------------------ rewake

  /** From the moment a successful stop is recorded until the worker has asked
      for a wake, nobody can report "running" or "error": that takes the operation lock. */
  predicate StopRecorded(t: Thread) {
    (t.SleeperPersist? && t.ok) || t.SleeperDecide? || (t.WakeEnter? && t.rewake)
  }

  ghost predicate RewakeKept(s: System) {
    && (forall i | 0 <= i < |s.threads| :: StopRecorded(s.threads[i]) ==>
          s.mem.state == Sleeping || s.mem.state == Starting || s.mem.state == Stopping)
    && (forall i | 0 <= i < |s.threads| :: s.threads[i] == SleeperRelease(true) ==> WakeOutstanding(s))
  }

  // ------------------------------------------------------------- persistence

  ghost predicate Timely(s: System) {
    && s.mem.lastActivity <= s.clock
    && s.mem.lastPersist <= s.clock
    && s.mem.disk.lastActivity <= s.mem.lastPersist
    && (forall i | 0 <= i < |s.threads| :: s.threads[i].ActivityEnter? ==> s.threads[i].now <= s.clock)
  }

  predicate FileAgrees(m: Memory) {
    m.disk.state == m.state && m.disk.lastWake == m.lastWake
  }

  predicate ActivityCovered(m: Memory) {
    m.lastActivity < m.lastPersist + PERSIST_INTERVAL
  }

  /** With the state lock free, and also while its owner has already written the
      file, memory and file agree; an activity update disturbs only the activity time. */
  ghost predicate FileCurrent(s: System) {
    && (s.stateLock.None? ==> FileAgrees(s.mem) && ActivityCovered(s.mem))
    && (forall i | 0 <= i < |s.threads| :: s.threads[i].SleeperDecide? ==> FileAgrees(s.mem) && ActivityCovered(s.mem))
    && (forall i | 0 <= i < |s.threads| :: s.threads[i].ActivityPersist? ==> FileAgrees(s.mem))
  }

  ghost predicate Inv(s: System) {
    LocksOwned(s) && NoOrphan(s) && Honest(s) && RewakeKept(s) && Timely(s) && FileCurrent(s)
  }

  // ------------------------------------------------- preservation, per part

  lemma BootedInv(loadedActivity: real, loadedWake: real, probe: Probe, clock: real, disabled: bool)
    requires loadedActivity <= clock
    ensures Inv(Booted(loadedActivity, loadedWake, probe, clock, disabled))
  {
  }

  /** The use of a lock matches what the program counters around it hold. */
  predicate UsedRightly(use: LockUse, before: bool, after: bool) {
    match use
    case Keep => after == before
    case Take => !before && after
    case Drop => before && !after
  }

  predicate StateLockDiscipline(t: Thread, e: Effect) {
    UsedRightly(e.stateLock, HoldsStateLock(t), HoldsStateLock(e.pc))
  }

  predicate OperationLockDiscipline(t: Thread, e: Effect) {
    UsedRightly(e.operationLock, HoldsOperationLock(t), HoldsOperationLock(e.pc))
  }

  predicate SpawnsWorkersOnly(e: Effect) {
    e.spawned == [] || e.spawned == [WakerWaiting] || e.spawned == [SleeperWaiting]
  }

  predicate Disciplined(t: Thread, e: Effect) {
    StateLockDiscipline(t, e) && OperationLockDiscipline(t, e) && SpawnsWorkersOnly(e)
  }

  lemma ActUsesStateLockRightly(cfg: Config, t: Thread, s: System, ok: bool)
    ensures StateLockDiscipline(t, Act(cfg, t, s, ok))
  {
  }

  lemma ActUsesOperationLockRightly(cfg: Config, t: Thread, s: System, ok: bool)
    ensures OperationLockDiscipline(t, Act(cfg, t, s, ok))
  {
  }

  lemma ActDisciplined(cfg: Config, t: Thread, s: System, ok: bool)
    ensures Disciplined(t, Act(cfg, t, s, ok))
  {
    ActUsesStateLockRightly(cfg, t, s, ok);
    ActUsesOperationLockRightly(cfg, t, s, ok);
  }

  lemma LocksOwnedKept(s: System, i: nat, e: Effect)
    requires LocksOwned(s) && i < |s.threads| && Disciplined(s.threads[i], e)
    requires e.stateLock == Take ==> MayTakeStateLock(s, i)
    requires e.operationLock == Take ==> s.operationLock.None?
    ensures LocksOwned(Perform(s, i, e))
  {
  }

  /** A thread that owes a wake keeps owing it, or starts the worker, until the worker reports. */
  predicate KeepsWake(t: Thread, e: Effect) {
    OwesWake(t) ==> OwesWake(e.pc) || t.WakerReturned? || (e.spawned != [] && OwesWake(e.spawned[0]))
  }

  predicate KeepsSleep(t: Thread, e: Effect) {
    OwesSleep(t) ==> OwesSleep(e.pc) || t.SleeperReturned? || (e.spawned != [] && OwesSleep(e.spawned[0]))
  }

  lemma WakeStaysOutstanding(s: System, i: nat, e: Effect)
    requires i < |s.threads| && KeepsWake(s.threads[i], e)
    requires WakeOutstanding(s) && !s.threads[i].WakerReturned?
    ensures WakeOutstanding(Perform(s, i, e))
  {
    var w :| 0 <= w < |s.threads| && OwesWake(s.threads[w]);
    var s' := Perform(s, i, e);
    if w == i && !OwesWake(e.pc) {
      assert OwesWake(s'.threads[|s.threads|]);
    } else {
      assert OwesWake(s'.threads[w]);
    }
  }

  lemma SleepStaysOutstanding(s: System, i: nat, e: Effect)
    requires i < |s.threads| && KeepsSleep(s.threads[i], e)
    requires SleepOutstanding(s) && !s.threads[i].SleeperReturned?
    ensures SleepOutstanding(Perform(s, i, e))
  {
    var w :| 0 <= w < |s.threads| && OwesSleep(s.threads[w]);
    var s' := Perform(s, i, e);
    if w == i && !OwesSleep(e.pc) {
      assert OwesSleep(s'.threads[|s.threads|]);
    } else {
      assert OwesSleep(s'.threads[w]);
    }
  }

  /** Only a request enters a transitional state, and then it owes the worker;
      a worker that reports leaves it. */
  predicate Transitions(t: Thread, before: RunState, e: Effect) {
    && KeepsWake(t, e) && KeepsSleep(t, e)
    && (e.mem.state == Starting ==> OwesWake(e.pc) || (before == Starting && !t.WakerReturned?))
    && (e.mem.state == Stopping ==> OwesSleep(e.pc) || (before == Stopping && !t.SleeperReturned?))
  }

  lemma ActTransitions(cfg: Config, t: Thread, s: System, ok: bool)
    ensures Transitions(t, s.mem.state, Act(cfg, t, s, ok))
  {
  }

  lemma NoOrphanKept(s: System, i: nat, e: Effect)
    requires NoOrphan(s) && i < |s.threads| && Transitions(s.threads[i], s.mem.state, e)
    ensures NoOrphan(Perform(s, i, e))
  {
    var s' := Perform(s, i, e);
    assert s'.threads[i] == e.pc;
    if e.mem.state == Starting && !OwesWake(e.pc) {
      WakeStaysOutstanding(s, i, e);
    }
    if e.mem.state == Stopping && !OwesSleep(e.pc) {
      SleepStaysOutstanding(s, i, e);
    }
  }

  /** What an action does to the state and to the outcome it has to report. */
  predicate Reports(t: Thread, s: System, e: Effect) {
    && (t.WakerRunning? ==> e.pc.WakerReturned? && e.outcome == StartCall(e.pc.ok))
    && (t.SleeperRunning? ==> e.pc.SleeperReturned? && e.outcome == StopCall(e.pc.ok))
    && (!InRuntime(t) ==> e.outcome == s.outcome && !Unsettled(e.pc))
    && (t.WakerReturned? ==> e.mem.state == StateOf(StartCall(t.ok)))
    && (t.SleeperReturned? ==> e.mem.state == StateOf(StopCall(t.ok)))
    && (!Unsettled(t) ==> e.mem.state == s.mem.state || e.mem.state == Starting || e.mem.state == Stopping)
    && (e.spawned != [] ==> !Unsettled(e.spawned[0]))
  }

  lemma ActReports(cfg: Config, t: Thread, s: System, ok: bool)
    ensures Reports(t, s, Act(cfg, t, s, ok))
  {
  }

  lemma HonestKept(s: System, i: nat, e: Effect)
    requires LocksOwned(s) && Honest(s) && i < |s.threads|
    requires Disciplined(s.threads[i], e) && Reports(s.threads[i], s, e)
    ensures Honest(Perform(s, i, e))
  {
    var s' := Perform(s, i, e);
    assert forall j | 0 <= j < |s.threads| && j != i :: s'.threads[j] == s.threads[j];
    assert s'.threads[i] == e.pc;
    if SomeUnsettled(s) {
      var u :| 0 <= u < |s.threads| && Unsettled(s.threads[u]);
      assert HoldsOperationLock(s.threads[u]);
      assert u != i ==> Unsettled(s'.threads[u]);
    }
  }

  /** How an action moves towards, along and out of the rewake after a stop. */
  predicate Rewakes(t: Thread, s: System, e: Effect) {
    && (t.SleeperReturned? && t.ok ==> e.mem.state == Sleeping)
    && (StopRecorded(e.pc) ==> StopRecorded(t) || (t.SleeperReturned? && t.ok))
    && (e.pc == SleeperRelease(true) ==>
          (t == WakeEnter(true) && (s.mem.state == Starting || s.mem.state == Running) && e.mem.state == s.mem.state)
          || (t == WakeSpawn(true) && e.spawned == [WakerWaiting]))
  }

  lemma ActRewakes(cfg: Config, t: Thread, s: System, ok: bool)
    ensures Rewakes(t, s, Act(cfg, t, s, ok))
  {
  }

  lemma RewakeStaysKept(s: System, i: nat, e: Effect)
    requires LocksOwned(s) && NoOrphan(s) && RewakeKept(s) && i < |s.threads|
    requires Disciplined(s.threads[i], e) && Transitions(s.threads[i], s.mem.state, e)
    requires Reports(s.threads[i], s, e) && Rewakes(s.threads[i], s, e)
    ensures RewakeKept(Perform(s, i, e))
  {
    var s' := Perform(s, i, e);
    forall j | 0 <= j < |s'.threads| && StopRecorded(s'.threads[j])
      ensures s'.mem.state == Sleeping || s'.mem.state == Starting || s'.mem.state == Stopping
    {
      if j != i {
        assert s'.threads[j] == s.threads[j] && HoldsOperationLock(s.threads[j]);
        assert !HoldsOperationLock(s.threads[i]);
      }
    }
    forall j | 0 <= j < |s'.threads| && s'.threads[j] == SleeperRelease(true)
      ensures WakeOutstanding(s')
    {
      if j != i {
        assert s'.threads[j] == s.threads[j] && HoldsOperationLock(s.threads[j]);
        assert !HoldsOperationLock(s.threads[i]);
        WakeStaysOutstanding(s, i, e);
      } else if s.threads[i].WakeEnter? {
        assert StopRecorded(s.threads[i]);
        WakeStaysOutstanding(s, i, e);
      } else {
        assert OwesWake(s'.threads[|s.threads|]);
      }
    }
  }

  /** What an action does to memory and file, given what its own program counter knows. */
  predicate Files(t: Thread, s: System, e: Effect) {
    var agrees := FileAgrees(s.mem) && ActivityCovered(s.mem);
    && e.mem.lastActivity <= s.clock && e.mem.lastPersist <= s.clock
    && e.mem.disk.lastActivity <= e.mem.lastPersist
    && (e.pc.ActivityEnter? ==> e.pc.now <= s.clock)
    && (e.stateLock == Keep && !HoldsStateLock(t) ==> e.mem == s.mem)
    && (e.stateLock == Drop ==> FileAgrees(e.mem) && ActivityCovered(e.mem))
    && (e.pc.SleeperDecide? ==> FileAgrees(e.mem) && ActivityCovered(e.mem))
    && (e.pc.ActivityPersist? ==> FileAgrees(e.mem))
  }

  lemma ActFiles(cfg: Config, t: Thread, s: System, ok: bool)
    requires s.mem.lastActivity <= s.clock && s.mem.lastPersist <= s.clock
    requires s.mem.disk.lastActivity <= s.mem.lastPersist
    requires t.ActivityEnter? ==> t.now <= s.clock && FileAgrees(s.mem)
    requires t.SleeperDecide? ==> FileAgrees(s.mem) && ActivityCovered(s.mem)
    requires t.ActivityPersist? ==> FileAgrees(s.mem)
    ensures Files(t, s, Act(cfg, t, s, ok))
  {
  }

  lemma FileKept(s: System, i: nat, e: Effect)
    requires LocksOwned(s) && Timely(s) && FileCurrent(s) && i < |s.threads|
    requires Disciplined(s.threads[i], e) && Files(s.threads[i], s, e)
    requires e.stateLock == Take ==> MayTakeStateLock(s, i)
    ensures Timely(Perform(s, i, e)) && FileCurrent(Perform(s, i, e))
  {
    var s' := Perform(s, i, e);
    assert forall j | 0 <= j < |s.threads| && j != i :: s'.threads[j] == s.threads[j];
    assert s'.threads[i] == e.pc;
    assert HoldsStateLock(s.threads[i]) ==> s.stateLock == Some(i);
  }

  lemma RunKeepsInv(cfg: Config, s: System, i: nat, ok: bool)
    requires Inv(s) && Enabled(s, i)
    ensures Inv(Next(cfg, s, i, ok))
  {
    var t := s.threads[i];
    var e := Act(cfg, t, s, ok);
    assert e.stateLock == Take ==> MayTakeStateLock(s, i);
    assert e.operationLock == Take ==> s.operationLock.None?;
    assert s.stateLock == Some(i) ==> HoldsStateLock(t);
    ActDisciplined(cfg, t, s, ok);
    ActTransitions(cfg, t, s, ok);
    ActReports(cfg, t, s, ok);
    ActRewakes(cfg, t, s, ok);
    ActFiles(cfg, t, s, ok);
    LocksOwnedKept(s, i, e);
    NoOrphanKept(s, i, e);
    HonestKept(s, i, e);
    RewakeStaysKept(s, i, e);
    FileKept(s, i, e);
  }

  /** The program counters at which calls arrive hold, owe and report nothing. */
  predicate JustArrived(t: Thread) {
    && !HoldsStateLock(t) && !HoldsOperationLock(t) && !OwesWake(t) && !OwesSleep(t) && !Unsettled(t)
    && !StopRecorded(t) && !t.SleeperRelease? && !t.ActivityEnter? && !t.SleeperDecide? && !t.ActivityPersist?
  }

  lemma ArrivalKeepsWorkers(s: System, call: Thread)
    ensures SomeUnsettled(s) ==> SomeUnsettled(s.(threads := s.threads + [call]))
    ensures WakeOutstanding(s) ==> WakeOutstanding(s.(threads := s.threads + [call]))
    ensures SleepOutstanding(s) ==> SleepOutstanding(s.(threads := s.threads + [call]))
  {
    assert forall j | 0 <= j < |s.threads| :: (s.threads + [call])[j] == s.threads[j];
  }

  lemma ArrivalKeepsLocks(s: System, call: Thread)
    requires LocksOwned(s) && JustArrived(call)
    ensures LocksOwned(s.(threads := s.threads + [call]))
  {
  }

  lemma ArrivalKeepsInv(s: System, call: Thread)
    requires Inv(s) && JustArrived(call)
    ensures Inv(s.(threads := s.threads + [call]))
  {
    ArrivalKeepsLocks(s, call);
    ArrivalKeepsWorkers(s, call);
    var s' := s.(threads := s.threads + [call]);
    assert Honest(s');
    assert RewakeKept(s');
    assert Timely(s') && FileCurrent(s');
  }

  lemma EnvironmentKeepsInv(s: System, s': System)
    requires Inv(s) && s.clock <= s'.clock
    requires s' == s.(clock := s'.clock, disabled := s'.disabled)
    ensures Inv(s')
  {
    assert SomeUnsettled(s) ==> SomeUnsettled(s');
    assert WakeOutstanding(s) ==> WakeOutstanding(s');
    assert SleepOutstanding(s) ==> SleepOutstanding(s');
  }

  lemma InvKept(cfg: Config, s: System, e: Event)
    requires Inv(s) && Possible(s, e)
    ensures Inv(Apply(cfg, s, e))
  {
    match e
    case Run(i, ok) => RunKeepsInv(cfg, s, i, ok);
    case Arrive(call) => ArrivalKeepsInv(s, call);
    case Restart(probe) =>
      BootedInv(s.mem.disk.lastActivity, s.mem.disk.lastWake, probe, s.clock, s.disabled);
    case Tick(_) => EnvironmentKeepsInv(s, Apply(cfg, s, e));
    case SetDisabled(_) => EnvironmentKeepsInv(s, Apply(cfg, s, e));
  }

  lemma {:induction false} ExecutionInv(cfg: Config, states: seq<System>, events: seq<Event>, k: nat)
    requires Execution(cfg, states, events) && k < |states|
    ensures Inv(states[k])
  {
    if k == 0 {
      var loadedActivity: real, loadedWake: real, probe :|
        loadedActivity <= states[0].clock &&
        states[0] == Booted(loadedActivity, loadedWake, probe, states[0].clock, states[0].disabled);
      BootedInv(loadedActivity, loadedWake, probe, states[0].clock, states[0].disabled);
    } else {
      ExecutionInv(cfg, states, events, k - 1);
      InvKept(cfg, states[k - 1], events[k - 1]);
    }
  }
}
