/** Executions that show what the supervisor does not promise. */
module SupervisorLimits {
  import opened Options
  import opened SupervisorMemory
  import opened SupervisorProtocol
  import opened SupervisorSafety
  import opened SupervisorProgress

  /** The system after a list of events, if each is possible in its turn. */
  function After(cfg: Config, s: System, events: seq<Event>): Option<System> {
    if events == [] then Some(s)
    else
      var last := |events| - 1;
      match After(cfg, s, events[..last])
      case None => None
      case Some(m) => if Possible(m, events[last]) then Some(Apply(cfg, m, events[last])) else None
  }

  lemma Advance(cfg: Config, start: System, events: seq<Event>, s: System, e: Event, s': System)
    returns (more: seq<Event>)
    requires After(cfg, start, events) == Some(s) && Possible(s, e) && Apply(cfg, s, e) == s'
    requires forall x | x in events :: !x.SetDisabled?
    requires !e.SetDisabled?
    ensures After(cfg, start, more) == Some(s') && e in more && events <= more
    ensures forall x | x in more :: !x.SetDisabled?
  {
    more := events + [e];
    assert more[..|events|] == events && more[|events|] == e;
  }

  lemma {:induction false} AfterIsExecution(cfg: Config, start: System, events: seq<Event>)
    returns (states: seq<System>)
    requires Init(start) && After(cfg, start, events).Some?
    ensures Execution(cfg, states, events) && states[0] == start
    ensures states[|events|] == After(cfg, start, events).value
  {
    if events == [] {
      states := [start];
    } else {
      var last := |events| - 1;
      var shorter := AfterIsExecution(cfg, start, events[..last]);
      states := shorter + [After(cfg, start, events).value];
      forall k | 0 <= k < |events|
        ensures Possible(states[k], events[k]) && states[k + 1] == Apply(cfg, states[k], events[k])
      {
        if k < last {
          assert events[k] == events[..last][k] && states[k] == shorter[k] && states[k + 1] == shorter[k + 1];
        }
      }
    }
  }

  /** A stack up since time 100 whose stop, requested at time 200, is under way. */
  function MidStop(threads: seq<Thread>, activity: real): System {
    System(Memory(Stopping, activity, 100.0, 200.0, Record(Stopping, 100.0, 100.0)), threads, None, Some(1), 200.0,
           false, Probed(AllReady))
  }

  lemma SleepRequested(cfg: Config, start: System) returns (events: seq<Event>)
    requires start == Booted(100.0, 100.0, AllReady, 100.0, false)
    ensures After(cfg, start, events)
         == Some(start.(clock := 200.0, threads := [SleepPersist], stateLock := Some(0),
             mem := start.mem.(state := Stopping)))
    ensures forall x | x in events :: !x.SetDisabled?
  {
    var s1 := start.(clock := 200.0);
    events := Advance(cfg, start, [], start, Tick(200.0), s1);
    var s2 := s1.(threads := [SleepEnter]);
    events := Advance(cfg, start, events, s1, Arrive(SleepEnter), s2);
    var s3 := s2.(threads := [SleepPersist], stateLock := Some(0), mem := s2.mem.(state := Stopping));
    events := Advance(cfg, start, events, s2, Run(0, true), s3);
  }

  lemma SleepBegins(cfg: Config, start: System) returns (events: seq<Event>)
    requires start == Booted(100.0, 100.0, AllReady, 100.0, false)
    ensures After(cfg, start, events) == Some(MidStop([Done, SleeperRunning], 100.0))
    ensures forall x | x in events :: !x.SetDisabled?
  {
    events := SleepRequested(cfg, start);
    var s3 := start.(clock := 200.0, threads := [SleepPersist], stateLock := Some(0),
        mem := start.mem.(state := Stopping));
    var s4 := MidStop([SleepSpawn], 100.0).(operationLock := None);
    events := Advance(cfg, start, events, s3, Run(0, true), s4);
    var s5 := MidStop([Done, SleeperWaiting], 100.0).(operationLock := None);
    events := Advance(cfg, start, events, s4, Run(0, true), s5);
    events := Advance(cfg, start, events, s5, Run(1, true), MidStop([Done, SleeperRunning], 100.0));
  }

  /** An activity call arrives, is answered "stopping" and returns. */
  lemma ActivityWhileStopping(cfg: Config, start: System, before: seq<Event>) returns (events: seq<Event>)
    requires After(cfg, start, before) == Some(MidStop([Done, SleeperRunning], 100.0))
    requires forall x | x in before :: !x.SetDisabled?
    ensures After(cfg, start, events) == Some(MidStop([Done, SleeperRunning, Done], 200.0))
    ensures Arrive(ActivityCall) in events && forall x | x in events :: !x.SetDisabled?
  {
    var s1 := MidStop([Done, SleeperRunning, ActivityCall], 100.0);
    events := Advance(cfg, start, before, MidStop([Done, SleeperRunning], 100.0), Arrive(ActivityCall), s1);
    var s2 := MidStop([Done, SleeperRunning, ActivityEnter(200.0)], 100.0);
    events := Advance(cfg, start, events, s1, Run(2, true), s2);
    var s3 := MidStop([Done, SleeperRunning, ActivityPersist(Stopping)], 200.0).(stateLock := Some(2));
    events := Advance(cfg, start, events, s2, Run(2, true), s3);
    var s4 := MidStop([Done, SleeperRunning, ActivityDecide(Stopping)], 200.0);
    events := Advance(cfg, start, events, s3, Run(2, true), s4);
    events := Advance(cfg, start, events, s4, Run(2, true), MidStop([Done, SleeperRunning, Done], 200.0));
  }

  /** The stop takes 30 s more and is recorded; the sleep worker lets go. */
  lemma StopEnds(cfg: Config, start: System, before: seq<Event>) returns (events: seq<Event>, end: System)
    requires After(cfg, start, before) == Some(MidStop([Done, SleeperRunning, Done], 200.0))
    requires forall x | x in before :: !x.SetDisabled?
    ensures before <= events && After(cfg, start, events) == Some(end) && forall x | x in events :: !x.SetDisabled?
    ensures end.threads == [Done, Done, Done] && end.mem.state == Sleeping && end.outcome == StopCall(true)
    ensures end.mem.lastActivity == 200.0 && end.clock == 230.0
  {
    var s0 := MidStop([Done, SleeperRunning, Done], 200.0);
    var s1 := s0.(clock := 230.0);
    events := Advance(cfg, start, before, s0, Tick(230.0), s1);
    var s2 := s1.(threads := [Done, SleeperReturned(true), Done], outcome := StopCall(true));
    events := Advance(cfg, start, events, s1, Run(1, true), s2);
    var s3 := s2.(threads := [Done, SleeperPersist(true), Done], mem := s2.mem.(state := Sleeping),
        stateLock := Some(1));
    events := Advance(cfg, start, events, s2, Run(1, true), s3);
    var s4 := s3.(threads := [Done, SleeperDecide, Done], mem := Persisted(s3.mem, true, 230.0));
    events := Advance(cfg, start, events, s3, Run(1, true), s4);
    var s5 := s4.(threads := [Done, SleeperRelease(false), Done], stateLock := None);
    events := Advance(cfg, start, events, s4, Run(1, true), s5);
    end := s5.(threads := [Done, Done, Done], operationLock := None);
    events := Advance(cfg, start, events, s5, Run(1, true), end);
  }

  /** An activity that arrives while a stop is under way is forgotten when the
      stop takes 30 s more: no disabled file appears, yet nobody asks for a wake
      and the stack ends up asleep with every thread finished. */
  lemma ActivityDuringLongStopIsForgotten(cfg: Config) returns (states: seq<System>, events: seq<Event>)
    ensures Execution(cfg, states, events) && states[0].mem.state == Running && Arrive(ActivityCall) in events
    ensures !states[0].disabled && forall x | x in events :: !x.SetDisabled?
    ensures var end := states[|events|];
      Quiet(end) && end.mem.state == Sleeping && end.outcome == StopCall(true)
      && end.mem.lastActivity == end.clock - REWAKE_WINDOW > states[0].mem.lastActivity
  {
    var start := Booted(100.0, 100.0, AllReady, 100.0, false);
    assert Init(start);
    var before := SleepBegins(cfg, start);
    before := ActivityWhileStopping(cfg, start, before);
    var end;
    events, end := StopEnds(cfg, start, before);
    states := AfterIsExecution(cfg, start, events);
  }

  // ------------------------------------------------------------ a late clock reading

  /** A stack that is up, its file as old as `filed`. */
  function Up(threads: seq<Thread>, activity: real, filed: real, clock: real): System {
    System(Memory(Running, activity, 100.0, filed, Record(Running, filed, 100.0)), threads, None, None, clock, false,
           Probed(AllReady))
  }

  /** One call reads the clock at time 100; a second one comes and goes at time 200. */
  lemma LateReading(cfg: Config, start: System) returns (events: seq<Event>)
    requires start == Booted(100.0, 100.0, AllReady, 100.0, false)
    ensures After(cfg, start, events) == Some(Up([ActivityEnter(100.0), ActivityDecide(Running)], 200.0, 200.0, 200.0))
    ensures forall x | x in events :: !x.SetDisabled?
  {
    var s1 := Up([ActivityCall], 100.0, 100.0, 100.0);
    events := Advance(cfg, start, [], start, Arrive(ActivityCall), s1);
    var s2 := Up([ActivityEnter(100.0)], 100.0, 100.0, 100.0);
    events := Advance(cfg, start, events, s1, Run(0, true), s2);
    var s3 := Up([ActivityEnter(100.0)], 100.0, 100.0, 200.0);
    events := Advance(cfg, start, events, s2, Tick(200.0), s3);
    events := SecondCall(cfg, start, events);
  }

  lemma SecondCall(cfg: Config, start: System, before: seq<Event>) returns (events: seq<Event>)
    requires After(cfg, start, before) == Some(Up([ActivityEnter(100.0)], 100.0, 100.0, 200.0))
    requires forall x | x in before :: !x.SetDisabled?
    ensures After(cfg, start, events) == Some(Up([ActivityEnter(100.0), ActivityDecide(Running)], 200.0, 200.0, 200.0))
    ensures forall x | x in events :: !x.SetDisabled?
  {
    var s3 := Up([ActivityEnter(100.0)], 100.0, 100.0, 200.0);
    var s4 := Up([ActivityEnter(100.0), ActivityCall], 100.0, 100.0, 200.0);
    events := Advance(cfg, start, before, s3, Arrive(ActivityCall), s4);
    var s5 := Up([ActivityEnter(100.0), ActivityEnter(200.0)], 100.0, 100.0, 200.0);
    events := Advance(cfg, start, events, s4, Run(1, true), s5);
    var s6 := Up([ActivityEnter(100.0), ActivityPersist(Running)], 200.0, 100.0, 200.0).(stateLock := Some(1));
    events := Advance(cfg, start, events, s5, Run(1, true), s6);
    events := Advance(cfg, start, events, s6, Run(1, true),
                      Up([ActivityEnter(100.0), ActivityDecide(Running)], 200.0, 200.0, 200.0));
  }

  /** Two overlapping activity calls, no restart: the activity time goes from 200 back to 100. */
  lemma ActivityTimeGoesBack(cfg: Config) returns (states: seq<System>, events: seq<Event>)
    ensures Execution(cfg, states, events) && events != [] && events[|events| - 1].Run?
    ensures states[|events| - 1].mem.lastActivity == states[|events|].clock == 200.0
    ensures states[|events|].mem.lastActivity == 100.0
  {
    var start := Booted(100.0, 100.0, AllReady, 100.0, false);
    assert Init(start);
    var before := LateReading(cfg, start);
    var s := Up([ActivityEnter(100.0), ActivityDecide(Running)], 200.0, 200.0, 200.0);
    var end := Up([ActivityPersist(Running), ActivityDecide(Running)], 100.0, 200.0, 200.0).(stateLock := Some(0));
    var shorter := AfterIsExecution(cfg, start, before);
    states, events := Extended(cfg, shorter, before, Run(0, true));
    assert Apply(cfg, s, Run(0, true)).mem.lastActivity == 100.0;
  }

  lemma Extended(cfg: Config, shorter: seq<System>, before: seq<Event>, e: Event)
    returns (states: seq<System>, events: seq<Event>)
    requires Execution(cfg, shorter, before) && Possible(shorter[|before|], e)
    ensures Execution(cfg, states, events) && events == before + [e]
    ensures states == shorter + [Apply(cfg, shorter[|before|], e)]
  {
    events := before + [e];
    states := shorter + [Apply(cfg, shorter[|before|], e)];
    forall k | 0 <= k < |events|
      ensures Possible(states[k], events[k]) && states[k + 1] == Apply(cfg, states[k], events[k])
    {
      if k < |before| {
        assert events[k] == before[k] && states[k] == shorter[k] && states[k + 1] == shorter[k + 1];
      }
    }
  }

  // ----------------------------------------------- a crash before the file is written

  /** A stack that was asleep and is being woken at time 200; the last wake was at time 100. */
  function Waking(state: RunState, threads: seq<Thread>, disk: Record): System {
    System(Memory(state, 200.0, 100.0, 200.0, disk), threads, None, None, 200.0, false, Probed(NoneRunning))
  }

  lemma WakeRequested(cfg: Config, start: System) returns (events: seq<Event>)
    requires start == Booted(100.0, 100.0, NoneRunning, 200.0, false)
    ensures After(cfg, start, events) == Some(Waking(Sleeping, [WakeEnter(false)], Record(Sleeping, 100.0, 100.0)))
    ensures forall x | x in events :: !x.SetDisabled?
  {
    var s1 := start.(threads := [ActivityCall]);
    events := Advance(cfg, start, [], start, Arrive(ActivityCall), s1);
    var s2 := start.(threads := [ActivityEnter(200.0)]);
    events := Advance(cfg, start, events, s1, Run(0, true), s2);
    var disk := Record(Sleeping, 100.0, 100.0);
    var s3 := Waking(Sleeping, [ActivityPersist(Sleeping)], disk).(stateLock := Some(0));
    events := Advance(cfg, start, events, s2, Run(0, true), s3);
    var s4 := Waking(Sleeping, [ActivityDecide(Sleeping)], disk);
    events := Advance(cfg, start, events, s3, Run(0, true), s4);
    events := Advance(cfg, start, events, s4, Run(0, true), Waking(Sleeping, [WakeEnter(false)], disk));
  }

  lemma WakerRuns(cfg: Config, start: System, before: seq<Event>) returns (events: seq<Event>)
    requires After(cfg, start, before) == Some(Waking(Sleeping, [WakeEnter(false)], Record(Sleeping, 100.0, 100.0)))
    requires forall x | x in before :: !x.SetDisabled?
    ensures After(cfg, start, events)
         == Some(Waking(Starting, [Done, WakerRunning], Record(Starting, 200.0, 100.0)).(operationLock := Some(1)))
    ensures forall x | x in events :: !x.SetDisabled?
  {
    var disk := Record(Starting, 200.0, 100.0);
    var s5 := Waking(Sleeping, [WakeEnter(false)], Record(Sleeping, 100.0, 100.0));
    var s6 := Waking(Starting, [WakePersist(false)], Record(Sleeping, 100.0, 100.0)).(stateLock := Some(0));
    events := Advance(cfg, start, before, s5, Run(0, true), s6);
    var s7 := Waking(Starting, [WakeSpawn(false)], disk);
    events := Advance(cfg, start, events, s6, Run(0, true), s7);
    var s8 := Waking(Starting, [Done, WakerWaiting], disk);
    events := Advance(cfg, start, events, s7, Run(0, true), s8);
    events := Advance(cfg, start, events, s8, Run(1, true),
                      Waking(Starting, [Done, WakerRunning], disk).(operationLock := Some(1)));
  }

  /** A started stack, its wake time 200 in memory and not yet in the file. */
  function Recorded(): System {
    System(Memory(Running, 200.0, 200.0, 200.0, Record(Starting, 200.0, 100.0)), [Done, WakerPersist], Some(1), Some(1),
           200.0, false, StartCall(true))
  }

  lemma StartIsRecorded(cfg: Config, start: System, before: seq<Event>) returns (events: seq<Event>)
    requires After(cfg, start, before)
          == Some(Waking(Starting, [Done, WakerRunning], Record(Starting, 200.0, 100.0)).(operationLock := Some(1)))
    requires forall x | x in before :: !x.SetDisabled?
    ensures After(cfg, start, events) == Some(Recorded())
  {
    var disk := Record(Starting, 200.0, 100.0);
    var s9 := Waking(Starting, [Done, WakerRunning], disk).(operationLock := Some(1));
    var s10 := Waking(Starting, [Done, WakerReturned(true)], disk).(operationLock := Some(1),
        outcome := StartCall(true));
    events := Advance(cfg, start, before, s9, Run(1, true), s10);
    events := Advance(cfg, start, events, s10, Run(1, true), Recorded());
  }

  /** A start recorded at time 200, a crash before the file is written: the restarted
      process finds the stack up and takes the wake of time 100 for the last one. */
  lemma WakeTimeIsLost(cfg: Config) returns (states: seq<System>, events: seq<Event>)
    ensures Execution(cfg, states, events) && events != [] && events[|events| - 1] == Restart(AllReady)
    ensures states[|events| - 1].mem.lastWake == states[|events|].clock == 200.0
    ensures states[|events|].mem.lastWake == 100.0 && states[|events|].mem.state == Running
  {
    var start := Booted(100.0, 100.0, NoneRunning, 200.0, false);
    assert Init(start);
    var before := WakeRequested(cfg, start);
    before := WakerRuns(cfg, start, before);
    before := StartIsRecorded(cfg, start, before);
    var shorter := AfterIsExecution(cfg, start, before);
    states, events := Extended(cfg, shorter, before, Restart(AllReady));
    assert Apply(cfg, Recorded(), Restart(AllReady)).mem.lastWake == 100.0;
  }
}
