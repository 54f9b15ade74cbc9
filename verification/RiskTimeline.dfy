/** Rises in the ordered timeline of one asset: what they are, and the two-cursor
    scan that finds them. */
module RiskTimeline {
  import opened RiskContracts

  predicate GapOk(t: seq<Point>, k: nat, p: Policy)
    requires 1 <= k < |t|
  {
    HoursBetween(t[k - 1].observedAt, t[k].observedAt) <= p.maximumGapHours
  }

  /** The pair (k-1, k) belongs to a rising stretch. */
  predicate Linked(t: seq<Point>, k: nat, p: Policy)
    requires 1 <= k < |t|
  {
    GapOk(t, k, p) && t[k - 1].probability < t[k].probability
  }

  /** The pair (k-1, k) is a step large enough to start an event. */
  predicate Triggers(t: seq<Point>, k: nat, p: Policy)
    requires 1 <= k < |t|
  {
    GapOk(t, k, p) && t[k].probability - t[k - 1].probability >= p.minimumStep
  }

  /** All pairs from row `a` to row `b` rise. */
  predicate Climb(t: seq<Point>, a: nat, b: nat, p: Policy) {
    a <= b < |t| && forall k | a < k <= b :: Linked(t, k, p)
  }

  /** Row `i` is the baseline of an event: its successor is the first trigger of the rising stretch. */
  predicate StartsRun(t: seq<Point>, i: nat, p: Policy) {
    && i + 1 < |t| && Triggers(t, i + 1, p)
    && forall j | 0 <= j < i :: Triggers(t, j + 1, p) ==> !Climb(t, j, i, p)
  }

  /** The last row of the rising stretch that contains row `i`. */
  function PeakOf(t: seq<Point>, i: nat, p: Policy): nat
    requires i < |t|
    ensures i <= PeakOf(t, i, p) < |t|
    decreases |t| - i
  {
    if i + 1 < |t| && Linked(t, i + 1, p) then PeakOf(t, i + 1, p) else i
  }

  function TerminationAt(t: seq<Point>, peak: nat, p: Policy): Termination
    requires peak < |t|
  {
    if peak + 1 == |t| then EndOfTimeline
    else if !GapOk(t, peak + 1, p) then Gap
    else NonIncrease
  }

  /** One past the last row that an event with this peak cites. */
  function SourceStop(t: seq<Point>, peak: nat, p: Policy): (stop: nat)
    requires peak < |t|
    ensures peak < stop <= |t|
  {
    if TerminationAt(t, peak, p) == NonIncrease then peak + 2 else peak + 1
  }

  function Ids(t: seq<Point>): seq<string> {
    seq(|t|, i requires 0 <= i < |t| => t[i].predictionId)
  }

  /** The record the source fills in for a run that ended at row `ended`. */
  function MakeEvent(t: seq<Point>, start: nat, peak: nat, ended: nat, terminatedBy: Termination, stop: nat,
                     p: Policy, iso: int -> string): RiseEvent
    requires start < peak <= ended < |t| && start <= stop <= |t|
  {
    RiseEvent(
      "RISK-RISE#" + t[start].assetId + "#" + iso(t[start].observedAt),
      t[start].assetId,
      t[start].assetType,
      t[start].observedAt,
      t[peak].observedAt,
      t[ended].observedAt,
      t[start].probability,
      t[peak].probability,
      t[peak].probability - t[start].probability,
      HoursBetween(t[start].observedAt, t[peak].observedAt),
      HoursBetween(t[start].observedAt, t[ended].observedAt),
      terminatedBy,
      p.policyVersion,
      t[start].modelVersion,
      Ids(t[start..stop]))
  }

  function EventOf(t: seq<Point>, start: nat, peak: nat, p: Policy, iso: int -> string): RiseEvent
    requires start < peak < |t|
  {
    var stop := SourceStop(t, peak, p);
    MakeEvent(t, start, peak, stop - 1, TerminationAt(t, peak, p), stop, p, iso)
  }

  /** Row `i` is the baseline of an event whose total rise is large enough. */
  predicate Reports(t: seq<Point>, i: nat, p: Policy) {
    StartsRun(t, i, p) && t[PeakOf(t, i, p)].probability - t[i].probability >= p.minimumTotal
  }

  lemma StartBelowPeak(t: seq<Point>, i: nat, p: Policy)
    requires StartsRun(t, i, p) && 0.0 < p.minimumStep
    ensures i < PeakOf(t, i, p)
  {
  }

  /** The events of a timeline whose baseline lies before row `n`. */
  function EventsBefore(t: seq<Point>, n: nat, p: Policy, iso: int -> string): seq<RiseEvent>
    requires n <= |t| && 0.0 < p.minimumStep
  {
    if n == 0 then []
    else EventsBefore(t, n - 1, p, iso) +
         if Reports(t, n - 1, p) then
           StartBelowPeak(t, n - 1, p);
           [EventOf(t, n - 1, PeakOf(t, n - 1, p), p, iso)]
         else []
  }

  function TimelineEvents(t: seq<Point>, p: Policy, iso: int -> string): seq<RiseEvent>
    requires 0.0 < p.minimumStep
  {
    EventsBefore(t, |t|, p, iso)
  }

  // -------------------------------------------------------- rising stretches

  lemma {:induction false} PeakEndsClimb(t: seq<Point>, i: nat, p: Policy)
    requires i < |t|
    ensures var peak := PeakOf(t, i, p);
      Climb(t, i, peak, p) && (peak + 1 < |t| ==> !Linked(t, peak + 1, p))
    decreases |t| - i
  {
    if i + 1 < |t| && Linked(t, i + 1, p) {
      PeakEndsClimb(t, i + 1, p);
    }
  }

  lemma {:induction false} ClimbSharesPeak(t: seq<Point>, i: nat, j: nat, p: Policy)
    requires Climb(t, i, j, p)
    ensures PeakOf(t, i, p) == PeakOf(t, j, p)
    decreases j - i
  {
    if i < j {
      assert Linked(t, i + 1, p);
      ClimbSharesPeak(t, i + 1, j, p);
    }
  }

  lemma {:induction false} ClimbRises(t: seq<Point>, i: nat, j: nat, p: Policy)
    requires Climb(t, i, j, p)
    ensures t[i].probability <= t[j].probability
    ensures i < j ==> t[i].probability < t[j].probability
    decreases j - i
  {
    if i < j {
      assert Linked(t, i + 1, p);
      ClimbRises(t, i + 1, j, p);
    }
  }

  /** A maximal rising stretch [a .. b] of a timeline. */
  predicate MaximalRise(t: seq<Point>, a: nat, b: nat, p: Policy) {
    && Climb(t, a, b, p)
    && (a > 0 ==> !Linked(t, a, p))
    && (b + 1 < |t| ==> !Linked(t, b + 1, p))
  }

  function RiseBegin(t: seq<Point>, i: nat, p: Policy): nat
    requires i < |t|
    ensures RiseBegin(t, i, p) <= i
  {
    if i > 0 && Linked(t, i, p) then RiseBegin(t, i - 1, p) else i
  }

  lemma {:induction false} RiseBeginBegins(t: seq<Point>, i: nat, p: Policy)
    requires i < |t|
    ensures var a := RiseBegin(t, i, p);
      Climb(t, a, i, p) && (a > 0 ==> !Linked(t, a, p))
  {
    if i > 0 && Linked(t, i, p) {
      RiseBeginBegins(t, i - 1, p);
    }
  }

  /** `start` is the baseline of the first trigger of the maximal rise [a .. b]. */
  ghost predicate FirstTrigger(t: seq<Point>, a: nat, b: nat, start: nat, p: Policy) {
    && MaximalRise(t, a, b, p) && a <= start < b
    && Triggers(t, start + 1, p)
    && forall k | a < k <= start :: !Triggers(t, k, p)
  }

  /** Runs are exactly the maximal rising stretches that contain a trigger, cut at
      the first trigger. */
  lemma RunsAreCutMaximalRises(t: seq<Point>, start: nat, peak: nat, p: Policy)
    requires 0.0 < p.minimumStep
    ensures StartsRun(t, start, p) && peak == PeakOf(t, start, p)
       <==> exists a: nat :: FirstTrigger(t, a, peak, start, p)
  {
    if StartsRun(t, start, p) && peak == PeakOf(t, start, p) {
      var a := RiseBegin(t, start, p);
      RiseBeginBegins(t, start, p);
      PeakEndsClimb(t, start, p);
      StartBelowPeak(t, start, p);
      forall k | a < k <= start
        ensures !Triggers(t, k, p)
      {
        assert Climb(t, k - 1, start, p);
      }
      assert FirstTrigger(t, a, peak, start, p);
    }
    if exists a: nat :: FirstTrigger(t, a, peak, start, p) {
      var a: nat :| FirstTrigger(t, a, peak, start, p);
      forall j: nat | j < start && Climb(t, j, start, p)
        ensures !Triggers(t, j + 1, p)
      {
        if a > 0 {
          assert !Linked(t, a, p);
        }
        assert a <= j;
      }
      assert Climb(t, start, peak, p);
      ClimbSharesPeak(t, start, peak, p);
      assert PeakOf(t, peak, p) == peak;
    }
  }

  // ------------------------------------------------------------------ the scan

  /** No event that started before row `i` is still rising there. */
  ghost predicate NothingOpen(t: seq<Point>, i: nat, p: Policy) {
    forall j | 0 <= j < i && j + 1 < |t| :: Triggers(t, j + 1, p) ==> !Climb(t, j, i, p)
  }

  /** A pair that is no trigger neither starts nor keeps open an event. */
  lemma PairIsPassed(t: seq<Point>, i: nat, p: Policy, iso: int -> string)
    requires 0.0 < p.minimumStep && i + 1 < |t| && NothingOpen(t, i, p) && !Triggers(t, i + 1, p)
    ensures NothingOpen(t, i + 1, p)
    ensures EventsBefore(t, i + 1, p, iso) == EventsBefore(t, i, p, iso)
  {
    var next := i + 1;
    forall j: nat | j < next && Climb(t, j, next, p)
      ensures !Triggers(t, j + 1, p)
    {
      if j < i {
        assert Climb(t, j, i, p);
      }
    }
  }

  /** Nothing starts inside a run: the rows after its baseline, up to its peak, are skipped. */
  lemma {:induction false} RunIsSkipped(t: seq<Point>, start: nat, n: nat, p: Policy, iso: int -> string)
    requires 0.0 < p.minimumStep && StartsRun(t, start, p)
    requires start < n <= PeakOf(t, start, p) + 1
    ensures EventsBefore(t, n, p, iso) == EventsBefore(t, start + 1, p, iso)
  {
    if n > start + 1 {
      RunIsSkipped(t, start, n - 1, p, iso);
      PeakEndsClimb(t, start, p);
      assert Climb(t, start, n - 1, p);
      assert !StartsRun(t, n - 1, p);
    }
  }

  lemma {:induction false} LinksReachPeak(t: seq<Point>, i: nat, j: nat, p: Policy)
    requires Climb(t, i, j, p) && (j + 1 < |t| ==> !Linked(t, j + 1, p))
    ensures PeakOf(t, i, p) == j
  {
    ClimbSharesPeak(t, i, j, p);
  }

  /** The inner loop of the scan: `cursor` follows the rise that the pair
      (start, start+1) began until a gap, a non-increase or the end stops it. */
  method FollowRise(t: seq<Point>, start: nat, p: Policy)
    returns (peak: nat, cursor: nat, terminatedBy: Termination)
    requires 0.0 < p.minimumStep && start + 1 < |t| && Triggers(t, start + 1, p)
    ensures peak == PeakOf(t, start, p) && cursor == peak + 1 <= |t|
    ensures terminatedBy == TerminationAt(t, peak, p)
  {
    peak := start + 1;
    cursor := start + 2;
    terminatedBy := EndOfTimeline;
    while cursor < |t|
      invariant peak == cursor - 1 && start + 1 < cursor <= |t|
      invariant Climb(t, start, peak, p)
      invariant terminatedBy == EndOfTimeline
    {
      if !GapOk(t, cursor, p) {
        terminatedBy := Gap;
        break;
      }
      if t[cursor].probability <= t[cursor - 1].probability {
        terminatedBy := NonIncrease;
        break;
      }
      peak := cursor;
      cursor := cursor + 1;
    }
    LinksReachPeak(t, start, peak, p);
  }

  lemma EventIsMade(t: seq<Point>, start: nat, peak: nat, cursor: nat, terminatedBy: Termination, p: Policy,
      iso: int -> string)
    requires start < peak < |t| && cursor == peak + 1 && terminatedBy == TerminationAt(t, peak, p)
    ensures var stop := if terminatedBy == NonIncrease then cursor + 1 else cursor;
      var ended := if terminatedBy == NonIncrease then cursor else peak;
      && peak <= ended < |t| && stop <= |t|
      && MakeEvent(t, start, peak, ended, terminatedBy, stop, p, iso) == EventOf(t, start, peak, p, iso)
  {
  }

  /** The scan: `index` looks for a trigger, `FollowRise` finds where its rise
      ends, and the search resumes behind the pair that ended it. */
  method Scan(t: seq<Point>, p: Policy, iso: int -> string) returns (events: seq<RiseEvent>)
    requires 0.0 < p.minimumStep
    ensures events == TimelineEvents(t, p, iso)
  {
    events := [];
    var index := 1;
    ghost var passed: nat := 0;
    while index < |t|
      invariant passed <= |t| && (|t| <= index ==> |t| - 1 <= passed)
      invariant index < |t| ==> passed + 1 == index && NothingOpen(t, passed, p)
      invariant events == EventsBefore(t, passed, p, iso)
      decreases |t| - index
    {
      if !GapOk(t, index, p) || t[index].probability - t[index - 1].probability < p.minimumStep {
        PairIsPassed(t, index - 1, p, iso);
        passed := index;
        index := index + 1;
        continue;
      }
      var start := index - 1;
      var peak, cursor, terminatedBy := FollowRise(t, start, p);
      var sourceStop := if terminatedBy == NonIncrease then cursor + 1 else cursor;
      var ended := if terminatedBy == NonIncrease then cursor else peak;
      RunIsHandled(t, start, p, iso);
      EventIsMade(t, start, peak, cursor, terminatedBy, p, iso);
      if t[peak].probability - t[start].probability >= p.minimumTotal {
        events := events + [MakeEvent(t, start, peak, ended, terminatedBy, sourceStop, p, iso)];
      }
      passed := cursor;
      index := cursor + 1;
    }
    LastRowStartsNothing(t, p, iso);
  }

  /** After a run the scan has produced all events before the row behind its peak, and nothing is open. */
  lemma RunIsHandled(t: seq<Point>, start: nat, p: Policy, iso: int -> string)
    requires 0.0 < p.minimumStep && start + 1 < |t| && Triggers(t, start + 1, p) && NothingOpen(t, start, p)
    ensures var peak := PeakOf(t, start, p);
      && start < peak
      && EventsBefore(t, peak + 1, p, iso) == EventsBefore(t, start, p, iso) +
           (if t[peak].probability - t[start].probability >= p.minimumTotal
            then [EventOf(t, start, peak, p, iso)] else [])
      && NothingOpen(t, peak + 1, p)
  {
    assert StartsRun(t, start, p);
    StartBelowPeak(t, start, p);
    RunIsSkipped(t, start, PeakOf(t, start, p) + 1, p, iso);
    PeakEndsClimb(t, start, p);
  }

  lemma LastRowStartsNothing(t: seq<Point>, p: Policy, iso: int -> string)
    requires 0.0 < p.minimumStep
    ensures |t| > 0 ==> TimelineEvents(t, p, iso) == EventsBefore(t, |t| - 1, p, iso)
  {
  }
}
