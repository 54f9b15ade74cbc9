/** The supervisor as a transition system.

    HTTP calls, the monitor and the wake and sleep workers are threads whose
    program counters stand between the atomic actions of the source: reading
    the clock, changing memory under the state lock, writing the file under
    the state lock, starting a thread, calling the container runtime. The two
    locks are explicit. Time, the disabled file, arriving calls, the results of
    container operations and restarts of the process are chosen by the
    environment. */
module SupervisorProtocol {
  import opened Options
  import opened SupervisorMemory

  datatype Config = Config(idleSeconds: real, minUpSeconds: real)

  /** What the container runtime last told the supervisor: the probe of the
      constructor, or a start or stop call that returned (ok) or raised. */
  datatype Outcome = Probed(probe: Probe) | StartCall(ok: bool) | StopCall(ok: bool)

  /** A program counter with its local variables. `rewake` marks a
      `request_wake` that a sleep worker runs while it holds the operation lock. */
  datatype Thread =
    | ActivityCall
    | ActivityEnter(now: real)
    | ActivityPersist(seen: RunState)
    | ActivityDecide(seen: RunState)
    | WakeEnter(rewake: bool)
    | WakePersist(rewake: bool)
    | WakeSpawn(rewake: bool)
    | WakerWaiting
    | WakerRunning
    | WakerReturned(ok: bool)
    | WakerPersist
    | WakerRelease
    | SleepEnter
    | SleepPersist
    | SleepSpawn
    | SleeperWaiting
    | SleeperRunning
    | SleeperReturned(ok: bool)
    | SleeperPersist(ok: bool)
    | SleeperDecide
    | SleeperRelease(rewoken: bool)
    | MonitorCall
    | MonitorEnter(now: real)
    | MonitorDecide(now: real, seen: RunState, lastActivity: real, lastWake: real)
    | Done

  datatype System = System(
    mem: Memory,
    threads: seq<Thread>,
    stateLock: Option<nat>,
    operationLock: Option<nat>,
    clock: real,
    disabled: bool,
    outcome: Outcome)

  datatype Event =
    | Tick(now: real)
    | SetDisabled(present: bool)
    | Arrive(call: Thread)
    | Run(thread: nat, ok: bool)
    | Restart(probe: Probe)

  /** A supervisor just constructed; the loaded times come from an earlier process. */
  ghost predicate Init(s: System) {
    exists loadedActivity: real, loadedWake: real, probe ::
      loadedActivity <= s.clock && s == Booted(loadedActivity, loadedWake, probe, s.clock, s.disabled)
  }

  function Booted(loadedActivity: real, loadedWake: real, probe: Probe, clock: real, disabled: bool): System {
    System(Constructed(loadedActivity, loadedWake, probe, clock, clock), [], None, None, clock, disabled, Probed(probe))
  }

  /** The state lock is reentrant: its owner may take it again, as `_persist` does through `status`. */
  predicate MayTakeStateLock(s: System, i: nat) {
    s.stateLock.None? || s.stateLock.value == i
  }

  predicate Enabled(s: System, i: nat) {
    && i < |s.threads|
    && match s.threads[i] {
         case ActivityCall | ActivityDecide(_) | WakeSpawn(_) | SleepSpawn => true
         case WakerRunning | SleeperRunning | WakerRelease | SleeperRelease(_) => true
         case MonitorCall | MonitorDecide(_, _, _, _) | SleeperDecide => true
         case ActivityEnter(_) | WakeEnter(_) | SleepEnter | MonitorEnter(_) => MayTakeStateLock(s, i)
         case WakerReturned(_) | SleeperReturned(_) => MayTakeStateLock(s, i)
         case ActivityPersist(_) | WakePersist(_) | SleepPersist => MayTakeStateLock(s, i)
         case WakerPersist | SleeperPersist(_) => MayTakeStateLock(s, i)
         case WakerWaiting | SleeperWaiting => s.operationLock.None?
         case Done => false
       }
  }

  /** What an action does to a lock. */
  datatype LockUse = Keep | Take | Drop

  /** What one atomic action does: the next program counter, the new memory,
      the use of the two locks, what the runtime said, and any thread started. */
  datatype Effect = Effect(
    pc: Thread,
    mem: Memory,
    stateLock: LockUse := Keep,
    operationLock: LockUse := Keep,
    outcome: Outcome,
    spawned: seq<Thread> := [])

  /** The next atomic action of a thread; `ok` is the result of a runtime call. */
  function Act(cfg: Config, t: Thread, s: System, ok: bool): Effect {
    var stay := Effect(t, s.mem, outcome := s.outcome);
    match t
    case ActivityCall => stay.(pc := ActivityEnter(s.clock))
    case ActivityEnter(now) =>
      stay.(pc := ActivityPersist(s.mem.state), mem := ActivityWritten(s.mem, now), stateLock := Take)
    case ActivityPersist(seen) =>
      stay.(pc := ActivityDecide(seen), mem := Persisted(s.mem, false, s.clock), stateLock := Drop)
    case ActivityDecide(seen) =>
      stay.(pc := if NeedsWake(seen) && !s.disabled then WakeEnter(false) else Done)
    case WakeEnter(rewake) =>
      if WakeRefused(s.mem, s.disabled) then stay.(pc := AfterWake(rewake, !s.disabled))
      else stay.(pc := WakePersist(rewake), mem := WakeWritten(s.mem, s.clock), stateLock := Take)
    case WakePersist(rewake) =>
      stay.(pc := WakeSpawn(rewake), mem := Persisted(s.mem, true, s.clock), stateLock := Drop)
    case WakeSpawn(rewake) => stay.(pc := AfterWake(rewake, true), spawned := [WakerWaiting])
    case WakerWaiting => stay.(pc := WakerRunning, operationLock := Take)
    case WakerRunning => stay.(pc := WakerReturned(ok), outcome := StartCall(ok))
    case WakerReturned(started) =>
      stay.(pc := WakerPersist, mem := StartSettled(s.mem, started, s.clock), stateLock := Take)
    case WakerPersist =>
      stay.(pc := WakerRelease, mem := Persisted(s.mem, true, s.clock), stateLock := Drop)
    case WakerRelease => stay.(pc := Done, operationLock := Drop)
    case SleepEnter =>
      if SleepRefused(s.mem) then stay.(pc := Done)
      else stay.(pc := SleepPersist, mem := SleepWritten(s.mem), stateLock := Take)
    case SleepPersist =>
      stay.(pc := SleepSpawn, mem := Persisted(s.mem, true, s.clock), stateLock := Drop)
    case SleepSpawn => stay.(pc := Done, spawned := [SleeperWaiting])
    case SleeperWaiting => stay.(pc := SleeperRunning, operationLock := Take)
    case SleeperRunning => stay.(pc := SleeperReturned(ok), outcome := StopCall(ok))
    case SleeperReturned(stopped) =>
      stay.(pc := SleeperPersist(stopped), mem := StopSettled(s.mem, stopped), stateLock := Take)
    case SleeperPersist(stopped) =>
      if stopped then stay.(pc := SleeperDecide, mem := Persisted(s.mem, true, s.clock))
      else stay.(pc := SleeperRelease(false), mem := Persisted(s.mem, true, s.clock), stateLock := Drop)
    case SleeperDecide =>
      stay.(pc := if RewakeDue(s.mem, s.clock, s.disabled) then WakeEnter(true) else SleeperRelease(false),
            stateLock := Drop)
    case SleeperRelease(_) => stay.(pc := Done, operationLock := Drop)
    case MonitorCall => stay.(pc := MonitorEnter(s.clock))
    case MonitorEnter(now) =>
      stay.(pc := MonitorDecide(now, s.mem.state, s.mem.lastActivity, s.mem.lastWake))
    case MonitorDecide(now, seen, lastActivity, lastWake) =>
      stay.(pc := if seen == Running && now - lastWake >= cfg.minUpSeconds && now - lastActivity >= cfg.idleSeconds
                  then SleepEnter else Done)
    case Done => stay
  }

  function Used(lock: Option<nat>, use: LockUse, i: nat): Option<nat> {
    match use
    case Keep => lock
    case Take => Some(i)
    case Drop => None
  }

  function Perform(s: System, i: nat, e: Effect): System
    requires i < |s.threads|
  {
    s.(threads := s.threads[i := e.pc] + e.spawned,
       mem := e.mem,
       stateLock := Used(s.stateLock, e.stateLock, i),
       operationLock := Used(s.operationLock, e.operationLock, i),
       outcome := e.outcome)
  }

  function Next(cfg: Config, s: System, i: nat, ok: bool): System
    requires Enabled(s, i)
  {
    Perform(s, i, Act(cfg, s.threads[i], s, ok))
  }

  predicate NeedsWake(seen: RunState) {
    seen == Sleeping || seen == Partial || seen == Failed || seen == Unknown
  }

  /** Where `request_wake` returns to; `consulted` records that the disabled file was absent when it looked. */
  function AfterWake(rewake: bool, consulted: bool): Thread {
    if rewake then SleeperRelease(consulted) else Done
  }

  predicate Possible(s: System, e: Event) {
    match e
    case Tick(now) => s.clock <= now
    case SetDisabled(_) => true
    case Arrive(call) => call == ActivityCall || call == SleepEnter || call == MonitorCall
    case Run(i, _) => Enabled(s, i)
    case Restart(_) => true
  }

  function Apply(cfg: Config, s: System, e: Event): System
    requires Possible(s, e)
  {
    match e
    case Tick(now) => s.(clock := now)
    case SetDisabled(present) => s.(disabled := present)
    case Arrive(call) => s.(threads := s.threads + [call])
    case Run(i, ok) => Next(cfg, s, i, ok)
    case Restart(probe) => Booted(s.mem.disk.lastActivity, s.mem.disk.lastWake, probe, s.clock, s.disabled)
  }

  /** A run: `states[k+1]` follows from `states[k]` by `events[k]`. */
  ghost predicate Follows(cfg: Config, states: seq<System>, events: seq<Event>) {
    && |states| == |events| + 1
    && forall k | 0 <= k < |events| ::
         Possible(states[k], events[k]) && states[k + 1] == Apply(cfg, states[k], events[k])
  }

  ghost predicate Execution(cfg: Config, states: seq<System>, events: seq<Event>) {
    Follows(cfg, states, events) && Init(states[0])
  }
}
