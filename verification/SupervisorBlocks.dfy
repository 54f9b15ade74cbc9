/** The methods of the supervisor object as runs of the transition system: the steps
    of one locked block, taken without interruption, do to memory what the method does. */
module SupervisorBlocks {
  import opened Options
  import opened SupervisorMemory
  import opened SupervisorProtocol

  /** Two steps of one thread on end. */
  function Twice(cfg: Config, s: System, i: nat, ok: bool): System
    requires Enabled(s, i) && Enabled(Next(cfg, s, i, ok), i)
  {
    Next(cfg, Next(cfg, s, i, ok), i, ok)
  }

  /** `RecordActivity` */
  lemma ActivityBlock(cfg: Config, s: System, i: nat, ok: bool)
    requires Enabled(s, i) && s.threads[i].ActivityEnter?
    ensures Enabled(Next(cfg, s, i, ok), i)
    ensures var after := Twice(cfg, s, i, ok);
      && after.mem == ActivityRecorded(s.mem, s.threads[i].now, s.clock)
      && after.threads == s.threads[i := ActivityDecide(s.mem.state)]
      && after.stateLock.None? && after.operationLock == s.operationLock
  {
    assert Next(cfg, s, i, ok).threads[i] == ActivityPersist(s.mem.state);
  }

  /** `BeginWake`: a refused request takes one step, a granted one two, and then a worker is owed. */
  lemma WakeBlock(cfg: Config, s: System, i: nat, ok: bool)
    requires Enabled(s, i) && s.threads[i].WakeEnter?
    ensures WakeRefused(s.mem, s.disabled) ==>
      && Next(cfg, s, i, ok).mem == WakeBegun(s.mem, s.disabled, s.clock, s.clock)
      && !Next(cfg, s, i, ok).threads[i].WakeSpawn?
    ensures !WakeRefused(s.mem, s.disabled) ==>
      && Enabled(Next(cfg, s, i, ok), i)
      && Twice(cfg, s, i, ok).mem == WakeBegun(s.mem, s.disabled, s.clock, s.clock)
      && Twice(cfg, s, i, ok).threads == s.threads[i := WakeSpawn(s.threads[i].rewake)]
      && Twice(cfg, s, i, ok).stateLock.None?
  {
    if !WakeRefused(s.mem, s.disabled) {
      assert Next(cfg, s, i, ok).threads[i] == WakePersist(s.threads[i].rewake);
    }
  }

  /** `SettleStart` */
  lemma StartBlock(cfg: Config, s: System, i: nat, ok: bool)
    requires Enabled(s, i) && s.threads[i].WakerReturned?
    ensures Enabled(Next(cfg, s, i, ok), i)
    ensures var after := Twice(cfg, s, i, ok);
      && after.mem == StartReported(s.mem, s.threads[i].ok, s.clock, s.clock)
      && after.threads == s.threads[i := WakerRelease]
      && after.stateLock.None? && after.operationLock == s.operationLock
  {
    assert Next(cfg, s, i, ok).threads[i] == WakerPersist;
  }

  /** `BeginSleep` */
  lemma SleepBlock(cfg: Config, s: System, i: nat, ok: bool)
    requires Enabled(s, i) && s.threads[i].SleepEnter?
    ensures SleepRefused(s.mem) ==>
      Next(cfg, s, i, ok).mem == SleepBegun(s.mem, s.clock) && Next(cfg, s, i, ok).threads[i] == Done
    ensures !SleepRefused(s.mem) ==>
      && Enabled(Next(cfg, s, i, ok), i)
      && Twice(cfg, s, i, ok).mem == SleepBegun(s.mem, s.clock)
      && Twice(cfg, s, i, ok).threads == s.threads[i := SleepSpawn]
      && Twice(cfg, s, i, ok).stateLock.None?
  {
    if !SleepRefused(s.mem) {
      assert Next(cfg, s, i, ok).threads[i] == SleepPersist;
    }
  }

  /** `SettleStop`: a stop that raised is reported in two steps, one that returned in three. */
  lemma StopBlock(cfg: Config, s: System, i: nat, ok: bool)
    requires Enabled(s, i) && s.threads[i].SleeperReturned?
    ensures Enabled(Next(cfg, s, i, ok), i)
    ensures Twice(cfg, s, i, ok).mem == StopReported(s.mem, s.threads[i].ok, s.clock)
    ensures var after := Twice(cfg, s, i, ok);
      if s.threads[i].ok then
        && Enabled(after, i)
        && Next(cfg, after, i, ok).mem == after.mem && Next(cfg, after, i, ok).stateLock.None?
        && (Next(cfg, after, i, ok).threads[i] == WakeEnter(true) <==> RewakeDue(after.mem, s.clock, s.disabled))
      else after.threads == s.threads[i := SleeperRelease(false)] && after.stateLock.None?
  {
    assert Next(cfg, s, i, ok).threads[i] == SleeperPersist(s.threads[i].ok);
    assert s.threads[i].ok ==> Twice(cfg, s, i, ok).threads[i] == SleeperDecide;
  }
}
