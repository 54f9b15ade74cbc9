/** Deadlock freedom and termination of the supervisor: whatever has arrived is
    worked off, and the number of container operations still to come is bounded. */
module SupervisorProgress {
  import opened Options
  import opened SupervisorMemory
  import opened SupervisorProtocol
  import opened SupervisorSafety

  ghost predicate Quiet(s: System) {
    forall i | 0 <= i < |s.threads| :: s.threads[i].Done?
  }

  predicate WaitsForOperationLock(t: Thread) {
    t.WakerWaiting? || t.SleeperWaiting?
  }

  /** The locks are always taken in the order operation lock, state lock. */
  lemma StateLockOwnerNeverWaits(s: System, i: nat)
    requires LocksOwned(s) && s.stateLock == Some(i)
    ensures Enabled(s, i) && !WaitsForOperationLock(s.threads[i])
  {
    assert HoldsStateLock(s.threads[i]);
  }

  /** No deadlock: while some thread is unfinished, some thread can act. */
  lemma SomeThreadCanRun(s: System)
    requires LocksOwned(s) && !Quiet(s)
    ensures exists i :: 0 <= i < |s.threads| && Enabled(s, i)
  {
    var u :| 0 <= u < |s.threads| && !s.threads[u].Done?;
    if s.stateLock.Some? {
      StateLockOwnerNeverWaits(s, s.stateLock.value);
    } else if s.operationLock.Some? {
      assert HoldsOperationLock(s.threads[s.operationLock.value]);
      assert Enabled(s, s.operationLock.value);
    } else {
      assert Enabled(s, u);
    }
  }

  // ------------------------------------------------------------ work left

  function Total(ts: seq<Thread>, weight: Thread -> nat): nat {
    if ts == [] then 0 else Total(ts[..|ts| - 1], weight) + weight(ts[|ts| - 1])
  }

  lemma {:induction false} TotalUpdate(ts: seq<Thread>, i: nat, t: Thread, weight: Thread -> nat)
    requires i < |ts|
    ensures Total(ts[i := t], weight) == Total(ts, weight) - weight(ts[i]) + weight(t)
  {
    var last := |ts| - 1;
    if i == last {
      assert ts[i := t][..last] == ts[..last];
    } else {
      TotalUpdate(ts[..last], i, t, weight);
      assert ts[i := t][..last] == ts[..last][i := t];
    }
  }

  lemma {:induction false} TotalAppend(ts: seq<Thread>, more: seq<Thread>, weight: Thread -> nat)
    ensures Total(ts + more, weight) == Total(ts, weight) + Total(more, weight)
  {
    if more == [] {
      assert ts + more == ts;
    } else {
      var last := |more| - 1;
      TotalAppend(ts, more[..last], weight);
      assert (ts + more)[..|ts + more| - 1] == ts + more[..last];
    }
  }

  lemma TotalPerform(s: System, i: nat, e: Effect, weight: Thread -> nat)
    requires i < |s.threads|
    ensures Total(Perform(s, i, e).threads, weight)
         == Total(s.threads, weight) - weight(s.threads[i]) + weight(e.pc) + Total(e.spawned, weight)
  {
    TotalUpdate(s.threads, i, e.pc, weight);
    TotalAppend(s.threads[i := e.pc], e.spawned, weight);
  }

  /** An upper bound on the actions a thread and the workers it starts still take. */
  function Steps(t: Thread): nat {
    match t
    case Done => 0
    case WakerRelease => 1
    case WakerPersist => 2
    case WakerReturned(_) => 3
    case WakerRunning => 4
    case WakerWaiting => 5
    case WakeSpawn(rewake) => if rewake then 7 else 6
    case WakePersist(rewake) => if rewake then 8 else 7
    case WakeEnter(rewake) => if rewake then 9 else 8
    case ActivityDecide(_) => 9
    case ActivityPersist(_) => 10
    case ActivityEnter(_) => 11
    case ActivityCall => 12
    case SleeperRelease(_) => 1
    case SleeperDecide => 10
    case SleeperPersist(_) => 11
    case SleeperReturned(_) => 12
    case SleeperRunning => 13
    case SleeperWaiting => 14
    case SleepSpawn => 15
    case SleepPersist => 16
    case SleepEnter => 17
    case MonitorDecide(_, _, _, _) => 18
    case MonitorEnter(_) => 19
    case MonitorCall => 20
  }

  function Work(s: System): nat {
    Total(s.threads, t => Steps(t))
  }

  lemma ActDoesWork(cfg: Config, t: Thread, s: System, ok: bool)
    requires !t.Done?
    ensures var e := Act(cfg, t, s, ok);
      Steps(t) > Steps(e.pc) + (if e.spawned == [] then 0 else Steps(e.spawned[0])) && |e.spawned| <= 1
  {
  }

  lemma RunDoesWork(cfg: Config, s: System, i: nat, ok: bool)
    requires Enabled(s, i)
    ensures Work(Next(cfg, s, i, ok)) < Work(s)
  {
    var e := Act(cfg, s.threads[i], s, ok);
    var weight := t => Steps(t);
    ActDoesWork(cfg, s.threads[i], s, ok);
    TotalPerform(s, i, e, weight);
    if e.spawned != [] {
      assert e.spawned == [] + [e.spawned[0]];
      TotalAppend([], [e.spawned[0]], weight);
      assert Total([e.spawned[0]][..0], weight) == 0;
    }
  }

  // ------------------------------------- operations owed: 2 per sleep, 1 per wake

  /** Container operations a thread may still cause: a sleep worker at most its
      stop and one more start, a wake worker its start, and a request what the
      worker it may start causes. The last unit is paid when the worker lets go
      of the operation lock. */
  function Operations(t: Thread): nat {
    match t
    case Done => 0
    case ActivityCall | ActivityEnter(_) | ActivityPersist(_) | ActivityDecide(_) => 1
    case WakeEnter(rewake) => if rewake then 2 else 1
    case WakePersist(rewake) => if rewake then 2 else 1
    case WakeSpawn(rewake) => if rewake then 2 else 1
    case WakerWaiting | WakerRunning | WakerReturned(_) | WakerPersist | WakerRelease => 1
    case SleepEnter | SleepPersist | SleepSpawn => 2
    case SleeperWaiting | SleeperRunning | SleeperReturned(_) | SleeperPersist(_) | SleeperDecide => 2
    case SleeperRelease(_) => 1
    case MonitorCall | MonitorEnter(_) | MonitorDecide(_, _, _, _) => 2
  }

  function Debt(s: System): nat {
    Total(s.threads, t => Operations(t))
  }

  predicate Completes(t: Thread) {
    t.WakerRelease? || t.SleeperRelease?
  }

  lemma ActPaysDebt(cfg: Config, t: Thread, s: System, ok: bool)
    ensures var e := Act(cfg, t, s, ok);
      |e.spawned| <= 1 &&
      Operations(e.pc) + (if e.spawned == [] then 0 else Operations(e.spawned[0])) + (if Completes(t) then 1 else 0)
      <= Operations(t)
  {
  }

  lemma RunPaysDebt(cfg: Config, s: System, i: nat, ok: bool)
    requires Enabled(s, i)
    ensures Debt(Next(cfg, s, i, ok)) + (if Completes(s.threads[i]) then 1 else 0) <= Debt(s)
  {
    var e := Act(cfg, s.threads[i], s, ok);
    var weight := t => Operations(t);
    ActPaysDebt(cfg, s.threads[i], s, ok);
    TotalPerform(s, i, e, weight);
    if e.spawned != [] {
      assert e.spawned == [e.spawned[0]];
      assert Total([e.spawned[0]][..0], weight) == 0;
    }
  }

  // -------------------------------------------------------- runs left alone

  /** No call arrives and the process is not restarted. */
  ghost predicate LeftAlone(events: seq<Event>) {
    forall k | 0 <= k < |events| :: !events[k].Arrive? && !events[k].Restart?
  }

  function Actions(events: seq<Event>): nat {
    if events == [] then 0
    else Actions(events[..|events| - 1]) + if events[|events| - 1].Run? then 1 else 0
  }

  function Completions(states: seq<System>, events: seq<Event>): nat
    requires |states| == |events| + 1
  {
    if events == [] then 0
    else
      var last := |events| - 1;
      Completions(states[..last + 1], events[..last]) +
      if events[last].Run? && events[last].thread < |states[last].threads|
          && Completes(states[last].threads[events[last].thread])
      then 1 else 0
  }

  /** Left alone, the supervisor takes at most `Work` more actions and completes
      at most `Debt` more container operations, however its threads interleave. */
  lemma {:induction false} LeftAloneIsBounded(cfg: Config, states: seq<System>, events: seq<Event>)
    requires Follows(cfg, states, events) && LeftAlone(events)
    ensures Actions(events) + Work(states[|events|]) <= Work(states[0])
    ensures Completions(states, events) + Debt(states[|events|]) <= Debt(states[0])
  {
    if events != [] {
      var last := |events| - 1;
      var states0, events0 := states[..last + 1], events[..last];
      forall k | 0 <= k < |events0|
        ensures Possible(states0[k], events0[k]) && states0[k + 1] == Apply(cfg, states0[k], events0[k])
      {
        assert events0[k] == events[k] && states0[k] == states[k] && states0[k + 1] == states[k + 1];
      }
      LeftAloneIsBounded(cfg, states0, events0);
      if events[last].Run? {
        RunDoesWork(cfg, states[last], events[last].thread, events[last].ok);
        RunPaysDebt(cfg, states[last], events[last].thread, events[last].ok);
      }
    }
  }

  /** A run left alone that can go no further has finished everything, and then
      the state tells the truth about the last thing the runtime said. */
  lemma LeftAloneSettles(cfg: Config, states: seq<System>, events: seq<Event>, from: nat)
    requires Execution(cfg, states, events) && from <= |events| && LeftAlone(events[from..])
    requires forall i :: !Enabled(states[|events|], i)
    ensures Quiet(states[|events|])
    ensures states[|events|].mem.state == StateOf(states[|events|].outcome)
    ensures Actions(events[from..]) <= Work(states[from])
  {
    ExecutionInv(cfg, states, events, |events|);
    if !Quiet(states[|events|]) {
      SomeThreadCanRun(states[|events|]);
    }
    QuietStateIsHonest(states[|events|]);
    var tail := states[from..];
    forall k | 0 <= k < |events[from..]|
      ensures Possible(tail[k], events[from..][k]) && tail[k + 1] == Apply(cfg, tail[k], events[from..][k])
    {
      assert events[from..][k] == events[from + k];
      assert tail[k] == states[from + k] && tail[k + 1] == states[from + k + 1];
    }
    LeftAloneIsBounded(cfg, tail, events[from..]);
  }

  lemma QuietStateIsHonest(s: System)
    requires Inv(s) && Quiet(s)
    ensures s.mem.state == StateOf(s.outcome)
    ensures s.mem.state != Starting && s.mem.state != Stopping && s.mem.state != Unknown
  {
    assert forall i | 0 <= i < |s.threads| ::
        !OwesWake(s.threads[i]) && !OwesSleep(s.threads[i]) && !Unsettled(s.threads[i]);
  }
}
