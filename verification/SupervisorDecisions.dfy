/** What the calls decide: when the monitor asks for a sleep, when an activity asks for
    a wake, what is done about it, and who changes the record at all. A thread takes
    its steps at moments of an execution; others may act between them. */
module SupervisorDecisions {
  import opened Options
  import opened SupervisorMemory
  import opened SupervisorProtocol
  import opened SupervisorSafety
  import opened SupervisorGuarantees

  predicate StepsAt(events: seq<Event>, k: nat, i: nat) {
    k < |events| && events[k].Run? && events[k].thread == i
  }

  /** Thread `i` does not step from moment `a` to moment `b`, and the process lives on. */
  ghost predicate Waits(events: seq<Event>, a: nat, b: nat, i: nat) {
    a <= b <= |events| && forall m | a <= m < b :: !events[m].Restart? && !StepsAt(events, m, i)
  }

  /** Thread `i` takes a step at moment `a` and the next at moment `b`. */
  ghost predicate StepsNext(events: seq<Event>, a: nat, b: nat, i: nat) {
    a < b && StepsAt(events, a, i) && Waits(events, a + 1, b, i) && StepsAt(events, b, i)
  }

  ghost predicate IsThread(states: seq<System>, k: nat, i: nat, t: Thread) {
    k < |states| && i < |states[k].threads| && states[k].threads[i] == t
  }

  lemma OthersLeaveThread(cfg: Config, s: System, e: Event, i: nat)
    requires Possible(s, e) && i < |s.threads| && !e.Restart? && !(e.Run? && e.thread == i)
    ensures i < |Apply(cfg, s, e).threads| && Apply(cfg, s, e).threads[i] == s.threads[i]
  {
  }

  lemma {:induction false} ThreadWaits(cfg: Config, states: seq<System>, events: seq<Event>, a: nat, b: nat, i: nat,
      t: Thread)
    requires Execution(cfg, states, events) && Waits(events, a, b, i) && IsThread(states, a, i, t)
    ensures IsThread(states, b, i, t)
  {
    if a < b {
      ThreadWaits(cfg, states, events, a, b - 1, i, t);
      StepOf(cfg, states, events, b - 1);
      OthersLeaveThread(cfg, states[b - 1], events[b - 1], i);
    }
  }

  // --------------------------------------------------------------- the monitor

  /** One pass of the monitor: it reads the clock at `c`, looks at the record under the
      lock at `l`, and decides at `d`. */
  ghost predicate Monitored(states: seq<System>, events: seq<Event>, c: nat, l: nat, d: nat, i: nat) {
    IsThread(states, c, i, MonitorCall) && StepsNext(events, c, l, i) && StepsNext(events, l, d, i)
  }

  lemma MonitorReadsClock(cfg: Config, s: System, i: nat, ok: bool)
    requires i < |s.threads| && s.threads[i] == MonitorCall
    ensures Next(cfg, s, i, ok).threads[i] == MonitorEnter(s.clock)
  {
  }

  lemma MonitorLooks(cfg: Config, s: System, i: nat, ok: bool, now: real)
    requires i < |s.threads| && s.threads[i] == MonitorEnter(now) && Enabled(s, i)
    ensures Next(cfg, s, i, ok).threads[i] == MonitorDecide(now, s.mem.state, s.mem.lastActivity, s.mem.lastWake)
  {
  }

  lemma MonitorDecides(cfg: Config, s: System, i: nat, ok: bool, t: Thread)
    requires i < |s.threads| && s.threads[i] == t && t.MonitorDecide?
    ensures Next(cfg, s, i, ok).threads[i] ==
      if t.seen == Running && t.now >= t.lastWake + cfg.minUpSeconds && t.now >= t.lastActivity + cfg.idleSeconds
      then SleepEnter else Done
  {
  }

  lemma MonitorSees(cfg: Config, states: seq<System>, events: seq<Event>, c: nat, l: nat, d: nat, i: nat)
    requires Execution(cfg, states, events) && Monitored(states, events, c, l, d, i)
    ensures IsThread(states, d, i,
              MonitorDecide(states[c].clock, states[l].mem.state, states[l].mem.lastActivity, states[l].mem.lastWake))
  {
    StepOf(cfg, states, events, c);
    MonitorReadsClock(cfg, states[c], i, events[c].ok);
    ThreadWaits(cfg, states, events, c + 1, l, i, MonitorEnter(states[c].clock));
    StepOf(cfg, states, events, l);
    MonitorLooks(cfg, states[l], i, events[l].ok, states[c].clock);
    ThreadWaits(cfg, states, events, l + 1, d, i,
      MonitorDecide(states[c].clock, states[l].mem.state, states[l].mem.lastActivity, states[l].mem.lastWake));
  }

  /** The monitor asks for a sleep exactly when the stack it saw was running, and the
      clock it had read was at least the minimum uptime past the wake it saw and at
      least the idle time past the activity it saw. Otherwise it is done. */
  lemma MonitorAsksForSleepExactlyWhen(
    cfg: Config, states: seq<System>, events: seq<Event>, c: nat, l: nat, d: nat, i: nat)
    requires Execution(cfg, states, events) && Monitored(states, events, c, l, d, i)
    ensures IsThread(states, d + 1, i, SleepEnter) <==>
      && states[l].mem.state == Running
      && states[c].clock >= states[l].mem.lastWake + cfg.minUpSeconds
      && states[c].clock >= states[l].mem.lastActivity + cfg.idleSeconds
    ensures IsThread(states, d + 1, i, SleepEnter) || IsThread(states, d + 1, i, Done)
  {
    MonitorSees(cfg, states, events, c, l, d, i);
    StepOf(cfg, states, events, d);
    MonitorDecides(cfg, states[d], i, events[d].ok, states[d].threads[i]);
  }

  // ------------------------------------------------- where a sleep comes from

  /** Thread `i` arrived at moment `a` as the given call. */
  ghost predicate ArrivedAs(states: seq<System>, events: seq<Event>, a: nat, i: nat, call: Thread) {
    a < |events| && a < |states| && events[a] == Arrive(call) && i == |states[a].threads|
  }

  ghost predicate Requested(states: seq<System>, events: seq<Event>, k: nat, i: nat) {
    exists a: nat :: ArrivedAs(states, events, a, i, SleepEnter) && Waits(events, a + 1, k, i)
  }

  /** A pass of the monitor that saw an idle stack led to moment `k`. */
  ghost predicate SeenIdle(cfg: Config, states: seq<System>, events: seq<Event>, k: nat, i: nat) {
    exists c: nat, l: nat, d: nat :: IdlePass(cfg, states, events, c, l, d, i) && Waits(events, d + 1, k, i)
  }

  ghost predicate IdlePass(cfg: Config, states: seq<System>, events: seq<Event>, c: nat, l: nat, d: nat, i: nat) {
    && Monitored(states, events, c, l, d, i) && d < |states| && l < |states|
    && states[l].mem.state == Running
    && states[c].clock >= states[l].mem.lastWake + cfg.minUpSeconds
    && states[c].clock >= states[l].mem.lastActivity + cfg.idleSeconds
  }

  ghost predicate Entered(states: seq<System>, events: seq<Event>, k: nat, i: nat, now: real) {
    exists c: nat :: IsThread(states, c, i, MonitorCall) && StepsAt(events, c, i) && Waits(events, c + 1, k, i)
      && states[c].clock == now
  }

  ghost predicate Looked(states: seq<System>, events: seq<Event>, k: nat, i: nat) {
    exists c: nat, l: nat ::
      IsThread(states, c, i, MonitorCall) && StepsNext(events, c, l, i) && Waits(events, l + 1, k, i)
  }

  /** How a thread comes to stand where it does in one event. */
  lemma HowThreadCame(cfg: Config, s: System, e: Event, i: nat)
    requires Possible(s, e) && i < |Apply(cfg, s, e).threads|
    ensures !e.Restart?
    ensures i < |s.threads| && !(e.Run? && e.thread == i) ==> Apply(cfg, s, e).threads[i] == s.threads[i]
    ensures i >= |s.threads| ==>
      || (e.Arrive? && i == |s.threads| && Apply(cfg, s, e).threads[i] == e.call)
      || (e.Run? && Apply(cfg, s, e).threads[i] in {WakerWaiting, SleeperWaiting})
  {
  }

  lemma MonitorStepsCome(cfg: Config, s: System, i: nat, ok: bool)
    requires Enabled(s, i)
    ensures Next(cfg, s, i, ok).threads[i].MonitorEnter? ==>
      s.threads[i] == MonitorCall && Next(cfg, s, i, ok).threads[i].now == s.clock
    ensures Next(cfg, s, i, ok).threads[i].MonitorDecide? ==> s.threads[i].MonitorEnter?
    ensures Next(cfg, s, i, ok).threads[i].SleepEnter? ==> s.threads[i].MonitorDecide?
    ensures !Next(cfg, s, i, ok).threads[i].MonitorCall? && !Next(cfg, s, i, ok).threads[i].ActivityCall?
  {
  }

  lemma WaitsOn(events: seq<Event>, a: nat, k: nat, i: nat)
    requires Waits(events, a, k, i) && k < |events| && !events[k].Restart? && !StepsAt(events, k, i)
    ensures Waits(events, a, k + 1, i)
  {
  }

  lemma NobodyAtFirst(cfg: Config, states: seq<System>, events: seq<Event>, k: nat, i: nat)
    requires Execution(cfg, states, events) && k < |states| && i < |states[k].threads|
    ensures k > 0
  {
  }

  /** Where a thread on the way of the monitor stood one event before. */
  lemma StoodBefore(cfg: Config, states: seq<System>, events: seq<Event>, k: nat, i: nat)
    requires Execution(cfg, states, events) && k < |events| && i < |states[k + 1].threads|
    requires var t := states[k + 1].threads[i]; t.MonitorEnter? || t.MonitorDecide? || t.SleepEnter?
    ensures var t := states[k + 1].threads[i];
      if StepsAt(events, k, i) then
        && i < |states[k].threads|
        && (t.MonitorEnter? ==> states[k].threads[i] == MonitorCall && t.now == states[k].clock)
        && (t.MonitorDecide? ==> states[k].threads[i].MonitorEnter?)
        && (t.SleepEnter? ==> states[k].threads[i].MonitorDecide?)
      else
        && !events[k].Restart?
        && (IsThread(states, k, i, t) || (t.SleepEnter? && ArrivedAs(states, events, k, i, SleepEnter)))
  {
    StepOf(cfg, states, events, k);
    HowThreadCame(cfg, states[k], events[k], i);
    if StepsAt(events, k, i) {
      MonitorStepsCome(cfg, states[k], i, events[k].ok);
    }
  }

  lemma {:induction false} EnterHistory(cfg: Config, states: seq<System>, events: seq<Event>, k: nat, i: nat)
    requires Execution(cfg, states, events) && k < |states| && i < |states[k].threads|
    requires states[k].threads[i].MonitorEnter?
    ensures Entered(states, events, k, i, states[k].threads[i].now)
  {
    NobodyAtFirst(cfg, states, events, k, i);
    StoodBefore(cfg, states, events, k - 1, i);
    if StepsAt(events, k - 1, i) {
      assert Waits(events, k - 1 + 1, k, i);
    } else {
      EnterHistory(cfg, states, events, k - 1, i);
      EnteredStays(states, events, k - 1, i, states[k].threads[i].now);
    }
  }

  lemma EnteredStays(states: seq<System>, events: seq<Event>, k: nat, i: nat, now: real)
    requires Entered(states, events, k, i, now) && k < |events| && !events[k].Restart? && !StepsAt(events, k, i)
    ensures Entered(states, events, k + 1, i, now)
  {
    var c: nat :| IsThread(states, c, i, MonitorCall) && StepsAt(events, c, i) && Waits(events, c + 1, k, i)
      && states[c].clock == now;
    WaitsOn(events, c + 1, k, i);
  }

  lemma EnteredLooks(states: seq<System>, events: seq<Event>, k: nat, i: nat, now: real)
    requires Entered(states, events, k, i, now) && StepsAt(events, k, i)
    ensures Looked(states, events, k + 1, i)
  {
    var c: nat :| IsThread(states, c, i, MonitorCall) && StepsAt(events, c, i) && Waits(events, c + 1, k, i)
      && states[c].clock == now;
    assert StepsNext(events, c, k, i) && Waits(events, k + 1, k + 1, i);
  }

  lemma LookedStays(states: seq<System>, events: seq<Event>, k: nat, i: nat)
    requires Looked(states, events, k, i) && k < |events| && !events[k].Restart? && !StepsAt(events, k, i)
    ensures Looked(states, events, k + 1, i)
  {
    var c: nat, l: nat :| IsThread(states, c, i, MonitorCall) && StepsNext(events, c, l, i)
      && Waits(events, l + 1, k, i);
    WaitsOn(events, l + 1, k, i);
  }

  lemma JustLooked(cfg: Config, states: seq<System>, events: seq<Event>, k: nat, i: nat)
    requires Execution(cfg, states, events) && k < |events| && StepsAt(events, k, i)
    requires i < |states[k].threads| && states[k].threads[i].MonitorEnter?
    ensures Looked(states, events, k + 1, i)
  {
    EnterHistory(cfg, states, events, k, i);
    EnteredLooks(states, events, k, i, states[k].threads[i].now);
  }

  lemma {:induction false} DecideHistory(cfg: Config, states: seq<System>, events: seq<Event>, k: nat, i: nat,
      t: Thread)
    requires Execution(cfg, states, events) && IsThread(states, k, i, t) && t.MonitorDecide?
    ensures Looked(states, events, k, i)
  {
    NobodyAtFirst(cfg, states, events, k, i);
    var before := k - 1;
    StoodBefore(cfg, states, events, before, i);
    if StepsAt(events, before, i) {
      JustLooked(cfg, states, events, before, i);
    } else {
      DecideHistory(cfg, states, events, before, i, t);
      LookedStays(states, events, before, i);
    }
  }

  lemma LookedDecides(cfg: Config, states: seq<System>, events: seq<Event>, k: nat, i: nat)
    requires Execution(cfg, states, events) && Looked(states, events, k, i) && StepsAt(events, k, i)
    requires IsThread(states, k + 1, i, SleepEnter)
    ensures SeenIdle(cfg, states, events, k + 1, i)
  {
    var c: nat, l: nat :| IsThread(states, c, i, MonitorCall) && StepsNext(events, c, l, i)
      && Waits(events, l + 1, k, i);
    assert Monitored(states, events, c, l, k, i);
    MonitorAsksForSleepExactlyWhen(cfg, states, events, c, l, k, i);
    assert IdlePass(cfg, states, events, c, l, k, i) && Waits(events, k + 1, k + 1, i);
  }

  lemma ReasonStays(cfg: Config, states: seq<System>, events: seq<Event>, k: nat, i: nat)
    requires Requested(states, events, k, i) || SeenIdle(cfg, states, events, k, i)
    requires k < |events| && !events[k].Restart? && !StepsAt(events, k, i)
    ensures Requested(states, events, k + 1, i) || SeenIdle(cfg, states, events, k + 1, i)
  {
    if Requested(states, events, k, i) {
      var a: nat :| ArrivedAs(states, events, a, i, SleepEnter) && Waits(events, a + 1, k, i);
      WaitsOn(events, a + 1, k, i);
    } else {
      var c: nat, l: nat, d: nat :| IdlePass(cfg, states, events, c, l, d, i) && Waits(events, d + 1, k, i);
      WaitsOn(events, d + 1, k, i);
    }
  }

  /** Whoever is about to put the stack to sleep was asked to by a call of
      `request_sleep` of its own, or is a monitor that saw the stack idle. */
  lemma {:induction false} SleepIsRequestedOrIdle(
    cfg: Config, states: seq<System>, events: seq<Event>, k: nat, i: nat)
    requires Execution(cfg, states, events) && IsThread(states, k, i, SleepEnter)
    ensures Requested(states, events, k, i) || SeenIdle(cfg, states, events, k, i)
  {
    NobodyAtFirst(cfg, states, events, k, i);
    StoodBefore(cfg, states, events, k - 1, i);
    if StepsAt(events, k - 1, i) {
      DecideHistory(cfg, states, events, k - 1, i, states[k - 1].threads[i]);
      LookedDecides(cfg, states, events, k - 1, i);
    } else if IsThread(states, k - 1, i, SleepEnter) {
      SleepIsRequestedOrIdle(cfg, states, events, k - 1, i);
      ReasonStays(cfg, states, events, k - 1, i);
    } else {
      assert Waits(events, k - 1 + 1, k, i);
    }
  }

  // -------------------------------------------------- who changes the record

  /** What one event makes of the state that is shown. */
  lemma StateChangesExactlyWhen(cfg: Config, s: System, e: Event)
    requires Possible(s, e)
    ensures Apply(cfg, s, e).mem.state ==
      match e
      case Restart(probe) => if probe == AllReady then Running else if probe == SomeRunning then Partial else Sleeping
      case Run(i, _) =>
        (match s.threads[i]
         case WakeEnter(_) => if s.mem.state !in {Starting, Running} && !s.disabled then Starting else s.mem.state
         case SleepEnter => if s.mem.state !in {Sleeping, Stopping} then Stopping else s.mem.state
         case WakerReturned(ok) => if ok then Running else Failed
         case SleeperReturned(ok) => if ok then Sleeping else Failed
         case _ => s.mem.state)
      case _ => s.mem.state
  {
  }

  /** What one event makes of the two times. */
  lemma TimesChangeExactlyWhen(cfg: Config, s: System, e: Event)
    requires Possible(s, e)
    ensures Apply(cfg, s, e).mem.lastActivity ==
      match e
      case Restart(probe) =>
        if probe == AllReady && s.mem.disk.lastActivity == 0.0 then s.clock else s.mem.disk.lastActivity
      case Run(i, _) =>
        (match s.threads[i]
         case ActivityEnter(now) => now
         case WakeEnter(_) => if s.mem.state !in {Starting, Running} && !s.disabled then s.clock else s.mem.lastActivity
         case WakerReturned(ok) => if ok then s.clock else s.mem.lastActivity
         case _ => s.mem.lastActivity)
      case _ => s.mem.lastActivity
    ensures Apply(cfg, s, e).mem.lastWake ==
      match e
      case Restart(probe) => if probe == AllReady && s.mem.disk.lastWake == 0.0 then s.clock else s.mem.disk.lastWake
      case Run(i, _) => if s.threads[i] == WakerReturned(true) then s.clock else s.mem.lastWake
      case _ => s.mem.lastWake
  {
  }

  /** What one event makes of the file: a snapshot of memory, taken at every write that is
      forced, and after an activity when the last write is 15 s old. */
  lemma FileChangesExactlyWhen(cfg: Config, s: System, e: Event)
    requires Possible(s, e)
    ensures var m, after := s.mem, Apply(cfg, s, e).mem;
      after.disk ==
        match e
        case Restart(_) => Record(after.state, after.lastActivity, after.lastWake)
        case Run(i, _) =>
          (match s.threads[i]
           case WakePersist(_) | WakerPersist | SleepPersist | SleeperPersist(_) =>
             Record(m.state, m.lastActivity, m.lastWake)
           case ActivityPersist(_) =>
             if s.clock - m.lastPersist >= 15.0 then Record(m.state, m.lastActivity, m.lastWake) else m.disk
           case _ => m.disk)
        case _ => m.disk
  {
  }

  /** The stack begins to stop only at the hands of a thread that was asked to, or that
      saw it running, up for the minimum time and without activity for the idle time. */
  lemma StackStopsOnlyWhenRequestedOrIdle(cfg: Config, states: seq<System>, events: seq<Event>, k: nat)
    requires Execution(cfg, states, events) && k < |events|
    requires states[k].mem.state != Stopping && states[k + 1].mem.state == Stopping
    ensures events[k].Run? && IsThread(states, k, events[k].thread, SleepEnter) && states[k].mem.state != Sleeping
    ensures Requested(states, events, k, events[k].thread) || SeenIdle(cfg, states, events, k, events[k].thread)
  {
    StepOf(cfg, states, events, k);
    StateChangesExactlyWhen(cfg, states[k], events[k]);
    SleepIsRequestedOrIdle(cfg, states, events, k, events[k].thread);
  }

  // ---------------------------------------------------------------- an activity

  /** One call of `activity`: it reads the clock at `c`, records it under the lock at `l`,
      lets go of the lock at `p`, and decides at `d`. */
  ghost predicate Called(states: seq<System>, events: seq<Event>, c: nat, l: nat, p: nat, d: nat, i: nat) {
    && IsThread(states, c, i, ActivityCall)
    && StepsNext(events, c, l, i) && StepsNext(events, l, p, i) && StepsNext(events, p, d, i)
  }

  lemma ActivityReadsClock(cfg: Config, s: System, i: nat, ok: bool)
    requires i < |s.threads| && s.threads[i] == ActivityCall
    ensures Next(cfg, s, i, ok).threads[i] == ActivityEnter(s.clock)
  {
  }

  lemma ActivityLooks(cfg: Config, s: System, i: nat, ok: bool, now: real)
    requires i < |s.threads| && s.threads[i] == ActivityEnter(now) && Enabled(s, i)
    ensures Next(cfg, s, i, ok).threads[i] == ActivityPersist(s.mem.state)
    ensures Next(cfg, s, i, ok).mem.lastActivity == now
  {
  }

  lemma ActivityLetsGo(cfg: Config, s: System, i: nat, ok: bool, seen: RunState)
    requires i < |s.threads| && s.threads[i] == ActivityPersist(seen) && Enabled(s, i)
    ensures Next(cfg, s, i, ok).threads[i] == ActivityDecide(seen)
  {
  }

  lemma ActivityDecides(cfg: Config, s: System, i: nat, ok: bool, seen: RunState)
    requires i < |s.threads| && s.threads[i] == ActivityDecide(seen)
    ensures Next(cfg, s, i, ok).threads[i]
         == if seen !in {Starting, Running, Stopping} && !s.disabled then WakeEnter(false) else Done
  {
  }

  lemma ActivitySees(cfg: Config, states: seq<System>, events: seq<Event>, c: nat, l: nat, p: nat, d: nat, i: nat)
    requires Execution(cfg, states, events) && Called(states, events, c, l, p, d, i)
    ensures states[l + 1].mem.lastActivity == states[c].clock
    ensures IsThread(states, d, i, ActivityDecide(states[l].mem.state))
  {
    StepOf(cfg, states, events, c);
    ActivityReadsClock(cfg, states[c], i, events[c].ok);
    ThreadWaits(cfg, states, events, c + 1, l, i, ActivityEnter(states[c].clock));
    StepOf(cfg, states, events, l);
    ActivityLooks(cfg, states[l], i, events[l].ok, states[c].clock);
    ThreadWaits(cfg, states, events, l + 1, p, i, ActivityPersist(states[l].mem.state));
    StepOf(cfg, states, events, p);
    ActivityLetsGo(cfg, states[p], i, events[p].ok, states[l].mem.state);
    ThreadWaits(cfg, states, events, p + 1, d, i, ActivityDecide(states[l].mem.state));
  }

  /** An activity is recorded with the clock its call began at. It asks for a wake
      exactly when it saw a stack that was neither up nor on its way up or down, and
      the disabled file was absent when it looked. */
  lemma ActivityAsksForWakeExactlyWhen(
    cfg: Config, states: seq<System>, events: seq<Event>, c: nat, l: nat, p: nat, d: nat, i: nat)
    requires Execution(cfg, states, events) && Called(states, events, c, l, p, d, i)
    ensures states[l + 1].mem.lastActivity == states[c].clock
    ensures IsThread(states, d + 1, i, WakeEnter(false)) <==>
      states[l].mem.state !in {Starting, Running, Stopping} && !states[d].disabled
    ensures IsThread(states, d + 1, i, WakeEnter(false)) || IsThread(states, d + 1, i, Done)
  {
    ActivitySees(cfg, states, events, c, l, p, d, i);
    StepOf(cfg, states, events, d);
    ActivityDecides(cfg, states[d], i, events[d].ok, states[l].mem.state);
  }

  // ------------------------------------------------- from a request to its worker

  lemma WakeIsTaken(cfg: Config, s: System, i: nat, ok: bool, rewake: bool)
    requires i < |s.threads| && s.threads[i] == WakeEnter(rewake) && Enabled(s, i)
    ensures Next(cfg, s, i, ok).threads[i] == WakePersist(rewake)
       <==> s.mem.state !in {Starting, Running} && !s.disabled
    ensures Next(cfg, s, i, ok).threads[i] != WakePersist(rewake) ==> Next(cfg, s, i, ok).mem == s.mem
  {
  }

  lemma WakeIsWritten(cfg: Config, s: System, i: nat, ok: bool, rewake: bool)
    requires i < |s.threads| && s.threads[i] == WakePersist(rewake) && Enabled(s, i)
    ensures Next(cfg, s, i, ok).threads[i] == WakeSpawn(rewake) && |Next(cfg, s, i, ok).threads| == |s.threads|
  {
  }

  lemma WakerIsStarted(cfg: Config, s: System, i: nat, ok: bool, rewake: bool)
    requires i < |s.threads| && s.threads[i] == WakeSpawn(rewake)
    ensures Next(cfg, s, i, ok).threads[|s.threads|..] == [WakerWaiting]
  {
  }

  /** A request for a wake that takes the lock at `l`, writes at `p` and goes on at `w`
      turns the state to "starting" and starts one worker exactly when the stack was
      neither starting nor running and the disabled file absent. */
  lemma WakeStartsWorkerExactlyWhen(
    cfg: Config, states: seq<System>, events: seq<Event>, l: nat, p: nat, w: nat, i: nat, rewake: bool)
    requires Execution(cfg, states, events) && IsThread(states, l, i, WakeEnter(rewake)) && StepsAt(events, l, i)
    ensures IsThread(states, l + 1, i, WakePersist(rewake)) <==>
      states[l].mem.state !in {Starting, Running} && !states[l].disabled
    ensures IsThread(states, l + 1, i, WakePersist(rewake)) ==> states[l + 1].mem.state == Starting
    ensures !IsThread(states, l + 1, i, WakePersist(rewake)) ==> states[l + 1].mem == states[l].mem
    ensures IsThread(states, l + 1, i, WakePersist(rewake)) && StepsNext(events, l, p, i) && StepsNext(events, p, w, i)
      ==> states[w + 1].threads[|states[w].threads|..] == [WakerWaiting]
  {
    StepOf(cfg, states, events, l);
    WakeIsTaken(cfg, states[l], i, events[l].ok, rewake);
    StateChangesExactlyWhen(cfg, states[l], events[l]);
    if IsThread(states, l + 1, i, WakePersist(rewake)) && StepsNext(events, l, p, i) && StepsNext(events, p, w, i) {
      ThreadWaits(cfg, states, events, l + 1, p, i, WakePersist(rewake));
      StepOf(cfg, states, events, p);
      WakeIsWritten(cfg, states[p], i, events[p].ok, rewake);
      ThreadWaits(cfg, states, events, p + 1, w, i, WakeSpawn(rewake));
      StepOf(cfg, states, events, w);
      WakerIsStarted(cfg, states[w], i, events[w].ok, rewake);
    }
  }

  lemma SleepIsTaken(cfg: Config, s: System, i: nat, ok: bool)
    requires i < |s.threads| && s.threads[i] == SleepEnter && Enabled(s, i)
    ensures Next(cfg, s, i, ok).threads[i] == SleepPersist <==> s.mem.state !in {Sleeping, Stopping}
    ensures Next(cfg, s, i, ok).threads[i] != SleepPersist ==> Next(cfg, s, i, ok).mem == s.mem
  {
  }

  lemma SleepIsWritten(cfg: Config, s: System, i: nat, ok: bool)
    requires i < |s.threads| && s.threads[i] == SleepPersist && Enabled(s, i)
    ensures Next(cfg, s, i, ok).threads[i] == SleepSpawn
  {
  }

  lemma SleeperIsStarted(cfg: Config, s: System, i: nat, ok: bool)
    requires i < |s.threads| && s.threads[i] == SleepSpawn
    ensures Next(cfg, s, i, ok).threads[|s.threads|..] == [SleeperWaiting]
  {
  }

  /** The same for a request for a sleep: refused exactly when the stack sleeps or stops. */
  lemma SleepStartsWorkerExactlyWhen(
    cfg: Config, states: seq<System>, events: seq<Event>, l: nat, p: nat, w: nat, i: nat)
    requires Execution(cfg, states, events) && IsThread(states, l, i, SleepEnter) && StepsAt(events, l, i)
    ensures IsThread(states, l + 1, i, SleepPersist) <==> states[l].mem.state !in {Sleeping, Stopping}
    ensures IsThread(states, l + 1, i, SleepPersist) ==> states[l + 1].mem.state == Stopping
    ensures !IsThread(states, l + 1, i, SleepPersist) ==> states[l + 1].mem == states[l].mem
    ensures IsThread(states, l + 1, i, SleepPersist) && StepsNext(events, l, p, i) && StepsNext(events, p, w, i)
      ==> states[w + 1].threads[|states[w].threads|..] == [SleeperWaiting]
  {
    StepOf(cfg, states, events, l);
    SleepIsTaken(cfg, states[l], i, events[l].ok);
    StateChangesExactlyWhen(cfg, states[l], events[l]);
    if IsThread(states, l + 1, i, SleepPersist) && StepsNext(events, l, p, i) && StepsNext(events, p, w, i) {
      ThreadWaits(cfg, states, events, l + 1, p, i, SleepPersist);
      StepOf(cfg, states, events, p);
      SleepIsWritten(cfg, states[p], i, events[p].ok);
      ThreadWaits(cfg, states, events, p + 1, w, i, SleepSpawn);
      StepOf(cfg, states, events, w);
      SleeperIsStarted(cfg, states[w], i, events[w].ok);
    }
  }
}
