/** The fields an idle supervisor keeps, the file it persists them to, and the
    bodies of its lock-protected blocks.

    Every block of the source that runs under the state lock is a function on
    `Memory`; the class below performs the same block in place and is proved
    against that function. The protocol module interleaves these blocks. */
module SupervisorMemory {

  /** `Failed` is the state the source writes as "error". */
  datatype RunState = Unknown | Starting | Running | Stopping | Sleeping | Partial | Failed

  /** What the readiness probe of the container runtime told the constructor. */
  datatype Probe = AllReady | SomeRunning | NoneRunning | ProbeRaised

  /** The fields of the JSON document that change over time. */
  datatype Record = Record(state: RunState, lastActivity: real, lastWake: real)

  datatype Memory = Memory(
    state: RunState, lastActivity: real, lastWake: real, lastPersist: real, disk: Record)

  const PERSIST_INTERVAL := 15.0
  const REWAKE_WINDOW := 30.0

  /** The state the constructor derives from the probe. */
  function ProbedState(probe: Probe): RunState {
    match probe
    case AllReady => Running
    case SomeRunning => Partial
    case NoneRunning => Sleeping
    case ProbeRaised => Sleeping
  }

  function OrNow(loaded: real, now: real): real {
    if loaded == 0.0 then now else loaded
  }

  function Snapshot(m: Memory): Record {
    Record(m.state, m.lastActivity, m.lastWake)
  }

  function Persisted(m: Memory, force: bool, now: real): Memory {
    if !force && now - m.lastPersist < PERSIST_INTERVAL then m
    else m.(disk := Snapshot(m), lastPersist := now)
  }

  function Constructed(loadedActivity: real, loadedWake: real, probe: Probe, now: real, persistClock: real): Memory {
    var activity := if probe == AllReady then OrNow(loadedActivity, now) else loadedActivity;
    var wake := if probe == AllReady then OrNow(loadedWake, now) else loadedWake;
    var record := Record(ProbedState(probe), activity, wake);
    Memory(record.state, activity, wake, persistClock, record)
  }

  function ActivityWritten(m: Memory, now: real): Memory {
    m.(lastActivity := now)
  }

  predicate WakeRefused(m: Memory, disabled: bool) {
    m.state == Starting || m.state == Running || disabled
  }

  function WakeWritten(m: Memory, now: real): Memory {
    m.(state := Starting, lastActivity := now)
  }

  function StartSettled(m: Memory, ok: bool, now: real): Memory {
    if ok then m.(state := Running, lastWake := now, lastActivity := now)
    else m.(state := Failed)
  }

  predicate SleepRefused(m: Memory) {
    m.state == Sleeping || m.state == Stopping
  }

  function SleepWritten(m: Memory): Memory {
    m.(state := Stopping)
  }

  function StopSettled(m: Memory, ok: bool): Memory {
    m.(state := if ok then Sleeping else Failed)
  }

  predicate RewakeDue(m: Memory, now: real, disabled: bool) {
    m.lastActivity > now - REWAKE_WINDOW && !disabled
  }

  // --------------------------------------- the locked blocks, from lock to unlock

  /** The block of `activity`; `now` was read before the lock was taken. */
  function ActivityRecorded(m: Memory, now: real, persistClock: real): Memory {
    Persisted(ActivityWritten(m, now), false, persistClock)
  }

  /** The block of `request_wake`. */
  function WakeBegun(m: Memory, disabled: bool, now: real, persistClock: real): Memory {
    if WakeRefused(m, disabled) then m else Persisted(WakeWritten(m, now), true, persistClock)
  }

  /** The block with which `_wake` reports. */
  function StartReported(m: Memory, ok: bool, now: real, persistClock: real): Memory {
    Persisted(StartSettled(m, ok, now), true, persistClock)
  }

  /** The block of `request_sleep`. */
  function SleepBegun(m: Memory, persistClock: real): Memory {
    if SleepRefused(m) then m else Persisted(SleepWritten(m), true, persistClock)
  }

  /** The block with which `_sleep` reports. */
  function StopReported(m: Memory, ok: bool, persistClock: real): Memory {
    Persisted(StopSettled(m, ok), true, persistClock)
  }

  /** The supervisor object. Clock readings, the disabled file and the results
      of container operations are parameters. */
  class IdleSupervisor {
    var state: RunState
    var lastActivity: real
    var lastWake: real
    var lastPersist: real
    var disk: Record

    ghost function View(): Memory
      reads this
    {
      Memory(state, lastActivity, lastWake, lastPersist, disk)
    }

    constructor (loadedActivity: real, loadedWake: real, probe: Probe, now: real, persistClock: real)
      ensures View() == Constructed(loadedActivity, loadedWake, probe, now, persistClock)
    {
      lastActivity := loadedActivity;
      lastWake := loadedWake;
      lastPersist := 0.0;
      state := Unknown;
      disk := Record(Unknown, loadedActivity, loadedWake);
      new;
      if probe == AllReady {
        state := Running;
        lastActivity := if lastActivity == 0.0 then now else lastActivity;
        lastWake := if lastWake == 0.0 then now else lastWake;
      } else if probe == SomeRunning {
        state := Partial;
      } else {
        state := Sleeping;
      }
      Persist(true, persistClock);
    }

    method Persist(force: bool, now: real)
      modifies this
      ensures View() == Persisted(old(View()), force, now)
    {
      if !force && now - lastPersist < PERSIST_INTERVAL {
        return;
      }
      disk := Record(state, lastActivity, lastWake);
      lastPersist := now;
    }

    /** The locked block of `activity`; `now` was read before the lock was taken. */
    method RecordActivity(now: real, persistClock: real) returns (seen: RunState)
      modifies this
      ensures seen == old(state)
      ensures View() == ActivityRecorded(old(View()), now, persistClock)
    {
      lastActivity := now;
      seen := state;
      Persist(false, persistClock);
    }

    /** The locked block of `request_wake`; the result says whether a wake worker is owed. */
    method BeginWake(disabled: bool, now: real, persistClock: real) returns (owed: bool)
      modifies this
      ensures owed == !WakeRefused(old(View()), disabled)
      ensures View() == WakeBegun(old(View()), disabled, now, persistClock)
    {
      if state == Starting || state == Running || disabled {
        return false;
      }
      state := Starting;
      lastActivity := now;
      Persist(true, persistClock);
      return true;
    }

    /** The locked block with which `_wake` reports what `runtime.start` did. */
    method SettleStart(ok: bool, now: real, persistClock: real)
      modifies this
      ensures View() == StartReported(old(View()), ok, now, persistClock)
    {
      if !ok {
        state := Failed;
        Persist(true, persistClock);
        return;
      }
      state := Running;
      lastWake := now;
      lastActivity := now;
      Persist(true, persistClock);
    }

    /** The locked block of `request_sleep`; the result says whether a sleep worker is owed. */
    method BeginSleep(persistClock: real) returns (owed: bool)
      modifies this
      ensures owed == !SleepRefused(old(View()))
      ensures View() == SleepBegun(old(View()), persistClock)
    {
      if state == Sleeping || state == Stopping {
        return false;
      }
      state := Stopping;
      Persist(true, persistClock);
      return true;
    }

    /** The locked block with which `_sleep` reports what `runtime.stop` did. */
    method SettleStop(ok: bool, disabled: bool, persistClock: real, now: real) returns (wakeAgain: bool)
      modifies this
      ensures View() == StopReported(old(View()), ok, persistClock)
      ensures wakeAgain == (ok && RewakeDue(View(), now, disabled))
    {
      if !ok {
        state := Failed;
        Persist(true, persistClock);
        return false;
      }
      state := Sleeping;
      Persist(true, persistClock);
      wakeAgain := lastActivity > now - REWAKE_WINDOW && !disabled;
    }
  }
}
