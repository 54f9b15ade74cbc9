/** What a detected event tells about the points it was detected in, and which rises
    are reported, in terms of the points alone. */
module RiskEvents {
  import opened Options
  import opened Orders
  import opened RiskContracts
  import opened RiskTimeline
  import opened RiskDetect
  import opened RiskLaws
  import RiskRanking

  /** A row of an asset that the policy considers. */
  predicate RowOf(points: seq<Point>, p: Policy, asset: string, x: Point) {
    x in points && x.assetType in p.eligibleAssetTypes && x.assetId == asset
  }

  /** Two observations are at most the allowed gap apart. */
  predicate Near(x: Point, y: Point, p: Policy) {
    (y.observedAt - x.observedAt) as real <= p.maximumGapHours * 3_600_000_000.0
  }

  /** The rows are those of the asset from start to end of the event, in time order. */
  ghost predicate Covers(points: seq<Point>, p: Policy, e: RiseEvent, rows: seq<Point>) {
    && (forall i, j | 0 <= i < j < |rows| :: rows[i].observedAt < rows[j].observedAt)
    && forall x :: x in rows <==> RowOf(points, p, e.assetId, x) && e.startedAt <= x.observedAt <= e.endedAt
  }

  /** From the first row to row `k` the probability rises, over allowed gaps, first by a large step. */
  ghost predicate Rises(rows: seq<Point>, k: nat, p: Policy) {
    && 1 <= k < |rows| && rows[1].probability - rows[0].probability >= p.minimumStep
    && forall j | 1 <= j <= k :: rows[j - 1].probability < rows[j].probability && Near(rows[j - 1], rows[j], p)
  }

  /** The fields of the event are those of its first row, of the row of its peak, and of its last row. */
  ghost predicate Describes(e: RiseEvent, rows: seq<Point>, k: nat, p: Policy, iso: int -> string)
    requires k < |rows|
  {
    && e.startedAt == rows[0].observedAt && e.peakAt == rows[k].observedAt && e.endedAt == rows[|rows| - 1].observedAt
    && e.assetType == rows[0].assetType && e.modelVersion == rows[0].modelVersion
    && e.baselineProbability == rows[0].probability && e.peakProbability == rows[k].probability
    && e.probabilityDelta == rows[k].probability - rows[0].probability >= p.minimumTotal
    && e.timeToPeakHours * 3_600_000_000.0 == (rows[k].observedAt - rows[0].observedAt) as real
    && e.durationHours * 3_600_000_000.0 == (rows[|rows| - 1].observedAt - rows[0].observedAt) as real
    && e.policyVersion == p.policyVersion
    && e.eventId == "RISK-RISE#" + e.assetId + "#" + iso(rows[0].observedAt)
    && |e.sourcePredictionIds| == |rows|
    && forall j | 0 <= j < |rows| :: e.sourcePredictionIds[j] == rows[j].predictionId
  }

  ghost predicate LaterRow(points: seq<Point>, p: Policy, e: RiseEvent, x: Point) {
    RowOf(points, p, e.assetId, x) && x.observedAt > e.peakAt
  }

  /** Why the event ended: what follows its peak. */
  ghost predicate EndsRightly(points: seq<Point>, p: Policy, e: RiseEvent, rows: seq<Point>, k: nat)
    requires k < |rows|
  {
    && (e.terminatedBy == EndOfTimeline <==> forall x :: !LaterRow(points, p, e, x))
    && (e.terminatedBy == Gap <==>
          (exists x :: LaterRow(points, p, e, x)) && forall x | LaterRow(points, p, e, x) :: !Near(rows[k], x, p))
    && (e.terminatedBy == NonIncrease ==>
          k + 2 == |rows| && rows[k + 1].probability <= rows[k].probability && Near(rows[k], rows[k + 1], p))
    && (e.terminatedBy != NonIncrease ==> k + 1 == |rows|)
  }

  // ------------------------------------------------------------- one timeline

  /** The rows of an event lie together in the timeline. */
  ghost predicate Lies(points: seq<Point>, p: Policy, asset: string, t: seq<Point>) {
    && StrictlyAscending(t, Earlier)
    && forall x :: x in t <==> RowOf(points, p, asset, x)
  }

  lemma SliceCovers(points: seq<Point>, p: Policy, t: seq<Point>, i: nat, stop: nat, e: RiseEvent)
    requires Lies(points, p, e.assetId, t) && i < stop <= |t|
    requires e.startedAt == t[i].observedAt && e.endedAt == t[stop - 1].observedAt
    ensures Covers(points, p, e, t[i..stop])
  {
    var rows := t[i..stop];
    forall a, b | 0 <= a < b < |rows|
      ensures rows[a].observedAt < rows[b].observedAt
    {
      assert Earlier(t[i + a], t[i + b]);
    }
    forall x
      ensures x in rows <==> RowOf(points, p, e.assetId, x) && e.startedAt <= x.observedAt <= e.endedAt
    {
      if x in t {
        var n :| 0 <= n < |t| && t[n] == x;
        InSliceExactlyWhen(t, i, stop, n);
      }
      assert x in rows ==> x in t;
    }
  }

  lemma StrictIndex(t: seq<Point>, a: nat, b: nat)
    requires StrictlyAscending(t, Earlier) && a < |t| && b < |t|
    ensures t[a].observedAt < t[b].observedAt <==> a < b
  {
    assert a < b ==> Earlier(t[a], t[b]);
    assert b < a ==> Earlier(t[b], t[a]);
  }

  lemma InSliceExactlyWhen(t: seq<Point>, i: nat, stop: nat, n: nat)
    requires StrictlyAscending(t, Earlier) && i < stop <= |t| && n < |t|
    ensures t[n] in t[i..stop] <==> t[i].observedAt <= t[n].observedAt <= t[stop - 1].observedAt
  {
    StrictIndex(t, n, i);
    StrictIndex(t, stop - 1, n);
    if i <= n < stop {
      assert t[i..stop][n - i] == t[n];
    }
    if t[n] in t[i..stop] {
      var m :| i <= m < stop && t[m] == t[n];
      StrictIndex(t, m, n);
      StrictIndex(t, n, m);
    }
  }

  lemma GapIsNear(t: seq<Point>, k: nat, p: Policy)
    requires 1 <= k < |t|
    ensures GapOk(t, k, p) <==> Near(t[k - 1], t[k], p)
  {
    HoursAre(t[k - 1].observedAt, t[k].observedAt);
    HoursCompare(HoursBetween(t[k - 1].observedAt, t[k].observedAt), p.maximumGapHours);
  }

  lemma HoursAre(from: int, to: int)
    ensures HoursBetween(from, to) * 3_600_000_000.0 == (to - from) as real
  {
  }

  lemma HoursCompare(a: real, b: real)
    ensures a <= b <==> a * 3_600_000_000.0 <= b * 3_600_000_000.0
  {
  }

  lemma SliceRises(t: seq<Point>, i: nat, peak: nat, stop: nat, p: Policy)
    requires i < peak < stop <= |t| && Climb(t, i, peak, p) && Triggers(t, i + 1, p)
    ensures Rises(t[i..stop], peak - i, p)
  {
    var rows := t[i..stop];
    forall j | 1 <= j <= peak - i
      ensures rows[j - 1].probability < rows[j].probability && Near(rows[j - 1], rows[j], p)
    {
      assert Linked(t, i + j, p);
      GapIsNear(t, i + j, p);
    }
  }

  lemma SliceDescribes(t: seq<Point>, i: nat, peak: nat, p: Policy, iso: int -> string, e: RiseEvent)
    requires i < peak < |t| && e == EventOf(t, i, peak, p, iso)
    requires t[peak].probability - t[i].probability >= p.minimumTotal
    ensures Describes(e, t[i..SourceStop(t, peak, p)], peak - i, p, iso)
  {
    var stop := SourceStop(t, peak, p);
    HoursAre(t[i].observedAt, t[peak].observedAt);
    HoursAre(t[i].observedAt, t[stop - 1].observedAt);
  }

  /** Behind the last row of a timeline nothing is near, and behind another the next is nearest. */
  lemma NextIsNearest(points: seq<Point>, p: Policy, t: seq<Point>, peak: nat, e: RiseEvent)
    requires Lies(points, p, e.assetId, t) && peak < |t| && e.peakAt == t[peak].observedAt
    ensures (forall x :: !LaterRow(points, p, e, x)) <==> peak + 1 == |t|
    ensures peak + 1 < |t| ==>
      ((forall x | LaterRow(points, p, e, x) :: !Near(t[peak], x, p)) <==> !Near(t[peak], t[peak + 1], p))
  {
    forall x | LaterRow(points, p, e, x)
      ensures peak + 1 < |t| && t[peak + 1].observedAt <= x.observedAt
    {
      assert x in t;
      var n :| 0 <= n < |t| && t[n] == x;
      assert n < peak ==> Earlier(t[n], t[peak]);
      assert n > peak + 1 ==> Earlier(t[peak + 1], t[n]);
    }
    if peak + 1 < |t| {
      assert Earlier(t[peak], t[peak + 1]) && t[peak + 1] in t;
      assert LaterRow(points, p, e, t[peak + 1]);
    }
  }

  lemma SliceEndsRightly(points: seq<Point>, p: Policy, t: seq<Point>, i: nat, peak: nat, e: RiseEvent)
    requires Lies(points, p, e.assetId, t) && i < peak < |t| && e.peakAt == t[peak].observedAt
    requires e.terminatedBy == TerminationAt(t, peak, p) && (peak + 1 < |t| ==> !Linked(t, peak + 1, p))
    ensures EndsRightly(points, p, e, t[i..SourceStop(t, peak, p)], peak - i)
  {
    NextIsNearest(points, p, t, peak, e);
    if peak + 1 < |t| {
      GapIsNear(t, peak + 1, p);
      assert Earlier(t[peak], t[peak + 1]) && t[peak + 1] in t;
      assert LaterRow(points, p, e, t[peak + 1]);
    }
  }

  // ---------------------------------------------------------------- the detector

  lemma TimelineLies(points: seq<Point>, asset: string, p: Policy)
    requires Clean(Timeline(points, asset, p))
    ensures Lies(points, p, asset, Timeline(points, asset, p))
  {
    TimelineIs(points, asset, p);
    CleanIsStrict(Timeline(points, asset, p));
  }

  lemma EventLies(points: seq<Point>, p: Policy, iso: int -> string, e: RiseEvent) returns (t: seq<Point>, i: nat)
    requires 0.0 < p.minimumStep && Detect(points, p, iso).Detected? && e in Detect(points, p, iso).events
    ensures Lies(points, p, e.assetId, t) && i < |t| && EventAt(t, i, p, iso, e)
  {
    DetectIs(points, p, iso);
    var a :| a in Assets(points, p) && EventOfAsset(points, a, p, iso, e);
    EventNamesItsAsset(points, a, p, iso, e);
    TimelineLies(points, a, p);
    t := Timeline(points, a, p);
    i :| i < |t| && EventAt(t, i, p, iso, e);
  }

  lemma RunFacts(t: seq<Point>, i: nat, p: Policy, iso: int -> string, e: RiseEvent)
    requires i < |t| && EventAt(t, i, p, iso, e)
    ensures var peak := PeakOf(t, i, p);
      && i < peak && Climb(t, i, peak, p) && Triggers(t, i + 1, p) && (peak + 1 < |t| ==> !Linked(t, peak + 1, p))
      && e == EventOf(t, i, peak, p, iso) && t[peak].probability - t[i].probability >= p.minimumTotal
  {
    PeakEndsClimb(t, i, p);
  }

  lemma EventTimes(t: seq<Point>, i: nat, peak: nat, p: Policy, iso: int -> string)
    requires i < peak < |t|
    ensures var e := EventOf(t, i, peak, p, iso);
      && e.startedAt == t[i].observedAt && e.peakAt == t[peak].observedAt
      && e.endedAt == t[SourceStop(t, peak, p) - 1].observedAt && e.terminatedBy == TerminationAt(t, peak, p)
  {
  }

  lemma RunCovers(points: seq<Point>, p: Policy, t: seq<Point>, i: nat, peak: nat, iso: int -> string, e: RiseEvent)
    requires Lies(points, p, e.assetId, t) && i < |t| && EventAt(t, i, p, iso, e) && peak == PeakOf(t, i, p)
    ensures i < peak && Covers(points, p, e, t[i..SourceStop(t, peak, p)])
  {
    RunFacts(t, i, p, iso, e);
    EventTimes(t, i, peak, p, iso);
    SliceCovers(points, p, t, i, SourceStop(t, peak, p), e);
  }

  lemma RunRises(t: seq<Point>, i: nat, peak: nat, p: Policy, iso: int -> string, e: RiseEvent)
    requires i < |t| && EventAt(t, i, p, iso, e) && peak == PeakOf(t, i, p)
    ensures i < peak && Rises(t[i..SourceStop(t, peak, p)], peak - i, p)
  {
    RunFacts(t, i, p, iso, e);
    SliceRises(t, i, peak, SourceStop(t, peak, p), p);
  }

  lemma RunDescribes(t: seq<Point>, i: nat, peak: nat, p: Policy, iso: int -> string, e: RiseEvent)
    requires i < |t| && EventAt(t, i, p, iso, e) && peak == PeakOf(t, i, p)
    ensures i < peak && Describes(e, t[i..SourceStop(t, peak, p)], peak - i, p, iso)
  {
    RunFacts(t, i, p, iso, e);
    SliceDescribes(t, i, peak, p, iso, e);
  }

  lemma RunEnds(points: seq<Point>, p: Policy, t: seq<Point>, i: nat, peak: nat, iso: int -> string, e: RiseEvent)
    requires Lies(points, p, e.assetId, t) && i < |t| && EventAt(t, i, p, iso, e) && peak == PeakOf(t, i, p)
    ensures i < peak && EndsRightly(points, p, e, t[i..SourceStop(t, peak, p)], peak - i)
  {
    RunFacts(t, i, p, iso, e);
    EventTimes(t, i, peak, p, iso);
    SliceEndsRightly(points, p, t, i, peak, e);
  }

  /** What every event tells about the points: the rows of its asset from start to end,
      where they rise, what the fields say of them, and why the event ended. */
  lemma EventTells(points: seq<Point>, p: Policy, iso: int -> string, e: RiseEvent) returns (rows: seq<Point>, k: nat)
    requires 0.0 < p.minimumStep && Detect(points, p, iso).Detected? && e in Detect(points, p, iso).events
    ensures Covers(points, p, e, rows) && Rises(rows, k, p) && Describes(e, rows, k, p, iso)
    ensures EndsRightly(points, p, e, rows, k)
  {
    var t, i := EventLies(points, p, iso, e);
    var peak := PeakOf(t, i, p);
    RunCovers(points, p, t, i, peak, iso, e);
    RunRises(t, i, peak, p, iso, e);
    RunDescribes(t, i, peak, p, iso, e);
    RunEnds(points, p, t, i, peak, iso, e);
    rows, k := t[i..SourceStop(t, peak, p)], peak - i;
  }

  // ------------------------------------------------------------ nothing is missed

  /** `y` is the next row of the asset behind `x`. */
  ghost predicate Next(points: seq<Point>, p: Policy, asset: string, x: Point, y: Point) {
    && RowOf(points, p, asset, x) && RowOf(points, p, asset, y) && x.observedAt < y.observedAt
    && forall z | RowOf(points, p, asset, z) :: z.observedAt <= x.observedAt || y.observedAt <= z.observedAt
  }

  lemma NextIsBehind(points: seq<Point>, p: Policy, asset: string, t: seq<Point>, x: Point, y: Point) returns (i: nat)
    requires Lies(points, p, asset, t) && Next(points, p, asset, x, y)
    ensures i + 1 < |t| && t[i] == x && t[i + 1] == y
  {
    assert x in t && y in t;
    i :| 0 <= i < |t| && t[i] == x;
    var j: nat :| j < |t| && t[j] == y;
    StrictIndex(t, i, j);
    StrictIndex(t, i, i + 1);
    StrictIndex(t, i + 1, j);
    assert t[i + 1] in t;
  }

  lemma ClimbsJoin(t: seq<Point>, a: nat, b: nat, c: nat, p: Policy)
    requires Climb(t, a, b, p) && Climb(t, b, c, p)
    ensures Climb(t, a, c, p)
  {
  }

  /** The first trigger of a rise starts a run, and a trigger belongs to the run of the first. */
  lemma {:induction false} TriggerIsInRun(t: seq<Point>, i: nat, j: nat, p: Policy) returns (start: nat)
    requires Climb(t, j, i, p) && j + 1 < |t| && Triggers(t, j + 1, p) && i < |t|
    ensures start <= i && Climb(t, start, i, p) && StartsRun(t, start, p)
    decreases j
  {
    if n: nat :| n < j && Triggers(t, n + 1, p) && Climb(t, n, j, p) {
      ClimbsJoin(t, n, j, i, p);
      start := TriggerIsInRun(t, i, n, p);
    } else {
      start := j;
    }
  }

  /** A step between neighbouring rows that is large enough alone lies in an event. */
  lemma LargeStepIsReported(points: seq<Point>, p: Policy, iso: int -> string, asset: string, x: Point, y: Point)
    returns (e: RiseEvent)
    requires 0.0 < p.minimumStep && Detect(points, p, iso).Detected? && Next(points, p, asset, x, y) && Near(x, y, p)
    requires y.probability - x.probability >= p.minimumStep && y.probability - x.probability >= p.minimumTotal
    ensures e in Detect(points, p, iso).events && e.assetId == asset
    ensures e.startedAt <= x.observedAt && y.observedAt <= e.peakAt
  {
    DetectIs(points, p, iso);
    AssetsAre(points, p, asset);
    assert Eligible(x, p);
    TimelineLies(points, asset, p);
    var t := Timeline(points, asset, p);
    var i := NextIsBehind(points, p, asset, t, x, y);
    GapIsNear(t, i + 1, p);
    var start := TriggerIsInRun(t, i, i, p);
    StepIsInside(t, start, i, p);
    e := EventOf(t, start, PeakOf(t, start, p), p, iso);
    assert EventAt(t, start, p, iso, e);
    assert EventOfAsset(points, asset, p, iso, e);
    assert t[start] in t;
    assert start < i ==> Earlier(t[start], t[i]);
    assert i + 1 < PeakOf(t, start, p) ==> Earlier(t[i + 1], t[PeakOf(t, start, p)]);
  }

  lemma StepIsInside(t: seq<Point>, start: nat, i: nat, p: Policy)
    requires 0.0 < p.minimumStep && Climb(t, start, i, p) && StartsRun(t, start, p)
    requires i + 1 < |t| && Triggers(t, i + 1, p) && t[i + 1].probability - t[i].probability >= p.minimumTotal
    ensures i + 1 <= PeakOf(t, start, p) && Reports(t, start, p)
  {
    assert Linked(t, i + 1, p);
    assert Climb(t, start, i + 1, p);
    ClimbSharesPeak(t, start, i + 1, p);
    ClimbRises(t, start, i, p);
    PeakEndsClimb(t, i + 1, p);
    ClimbRises(t, i + 1, PeakOf(t, i + 1, p), p);
  }

  // ---------------------------------------------------------- the order of events

  /** Of two events of one list the earlier is of a smaller asset, or ends its rise before
      the later begins. */
  predicate ComesBefore(e: RiseEvent, f: RiseEvent) {
    StrLess(e.assetId, f.assetId) || (e.assetId == f.assetId && e.peakAt < f.startedAt)
  }

  predicate InOrder(events: seq<RiseEvent>) {
    forall i, j | 0 <= i < j < |events| :: ComesBefore(events[i], events[j])
  }

  lemma OrderedConcat(a: seq<RiseEvent>, b: seq<RiseEvent>)
    requires InOrder(a) && InOrder(b) && forall e, f | e in a && f in b :: ComesBefore(e, f)
    ensures InOrder(a + b)
  {
    var c := a + b;
    forall i, j | 0 <= i < j < |c|
      ensures ComesBefore(c[i], c[j])
    {
      if i < |a| <= j {
        assert a[i] in a && b[j - |a|] in b;
      }
    }
  }

  lemma RunComesBefore(t: seq<Point>, i: nat, j: nat, p: Policy, iso: int -> string, e: RiseEvent, f: RiseEvent)
    requires StrictlyAscending(t, Earlier) && (forall x | x in t :: x.assetId == t[0].assetId)
    requires i < j < |t| && EventAt(t, i, p, iso, e) && EventAt(t, j, p, iso, f)
    ensures ComesBefore(e, f)
  {
    RunsShareAtMostTheTerminatingRow(t, i, j, p);
    assert Earlier(t[PeakOf(t, i, p)], t[j]);
    assert t[i] in t && t[j] in t;
  }

  lemma {:induction false} TimelineInOrder(t: seq<Point>, n: nat, p: Policy, iso: int -> string)
    requires StrictlyAscending(t, Earlier) && (forall x | x in t :: x.assetId == t[0].assetId)
    requires 0.0 < p.minimumStep && n <= |t|
    ensures InOrder(EventsBefore(t, n, p, iso))
  {
    if n > 0 {
      TimelineInOrder(t, n - 1, p, iso);
      if Reports(t, n - 1, p) {
        StartBelowPeak(t, n - 1, p);
        var f := EventOf(t, n - 1, PeakOf(t, n - 1, p), p, iso);
        forall e | e in EventsBefore(t, n - 1, p, iso)
          ensures ComesBefore(e, f)
        {
          EventsBeforeAre(t, n - 1, p, iso, e);
          var i: nat :| i < n - 1 && EventAt(t, i, p, iso, e);
          RunComesBefore(t, i, n - 1, p, iso, e, f);
        }
        OrderedConcat(EventsBefore(t, n - 1, p, iso), [f]);
      }
    }
  }

  lemma AssetsComeBefore(points: seq<Point>, p: Policy, iso: int -> string, assets: seq<string>, asset: string,
      e: RiseEvent, f: RiseEvent)
    requires 0.0 < p.minimumStep && (forall a | a in assets :: StrLess(a, asset))
    requires DetectIn(assets, points, p, iso).Detected? && e in DetectIn(assets, points, p, iso).events
    requires f in TimelineEvents(Timeline(points, asset, p), p, iso)
    ensures ComesBefore(e, f)
  {
    DetectInIs(assets, points, p, iso);
    var a :| a in assets && EventOfAsset(points, a, p, iso, e);
    EventNamesItsAsset(points, a, p, iso, e);
    var t := Timeline(points, asset, p);
    EventsBeforeAre(t, |t|, p, iso, f);
    EventNamesItsAsset(points, asset, p, iso, f);
  }

  lemma {:induction false} DetectInInOrder(assets: seq<string>, points: seq<Point>, p: Policy, iso: int -> string)
    requires 0.0 < p.minimumStep && DetectIn(assets, points, p, iso).Detected? && StrictlyAscending(assets, StrLess)
    ensures InOrder(DetectIn(assets, points, p, iso).events)
  {
    if assets != [] {
      var last := |assets| - 1;
      var asset := assets[last];
      DetectInInOrder(assets[..last], points, p, iso);
      DetectInIs(assets, points, p, iso);
      var t := Timeline(points, asset, p);
      TimelineLies(points, asset, p);
      assert t != [] ==> t[0] in t;
      TimelineInOrder(t, |t|, p, iso);
      var before := DetectIn(assets[..last], points, p, iso).events;
      var added := TimelineEvents(t, p, iso);
      forall e, f | e in before && f in added
        ensures ComesBefore(e, f)
      {
        AssetsComeBefore(points, p, iso, assets[..last], asset, e, f);
      }
      OrderedConcat(before, added);
    }
  }

  /** The detector lists the events by asset, in the order of ids, and those of an asset in
      the order of time, each rise over before the next event begins. */
  lemma EventsAreOrdered(points: seq<Point>, p: Policy, iso: int -> string)
    requires 0.0 < p.minimumStep && Detect(points, p, iso).Detected?
    ensures InOrder(Detect(points, p, iso).events)
  {
    AssetsAre(points, p, "");
    DistinctSortStrict(Assets(points, p));
    DetectInInOrder(Sorted(Assets(points, p), StrLess), points, p, iso);
  }

  // ------------------------------------------------------ what detection rejects

  /** Rows of one asset agree on type and model version and are of different times. */
  predicate Agree(x: Point, y: Point) {
    x.assetId == y.assetId ==>
      x.assetType == y.assetType && x.modelVersion == y.modelVersion && x.observedAt != y.observedAt
  }

  ghost predicate AllAgree(points: seq<Point>, p: Policy) {
    forall i, j | 0 <= i < j < |points| ::
      points[i].assetType in p.eligibleAssetTypes && points[j].assetType in p.eligibleAssetTypes ==>
        Agree(points[i], points[j])
  }

  lemma TwoPlaces<T>(s: seq<T>, i: nat, j: nat, t: seq<T>) returns (a: nat, b: nat)
    requires i < j < |s| && multiset(s)[s[i]] <= multiset(t)[s[i]] && multiset(s)[s[j]] <= multiset(t)[s[j]]
    ensures a < |t| && b < |t| && a != b && t[a] == s[i] && t[b] == s[j]
  {
    assert s[i] in multiset(t) && s[j] in multiset(t);
    a :| a < |t| && t[a] == s[i];
    if s[i] == s[j] {
      RiskRanking.TwiceCounts(s, i, j);
      var before, behind := t[..a], t[a + 1..];
      assert t == before + [s[i]] + behind;
      assert s[i] in before || s[i] in behind;
      if s[i] in before {
        b :| b < |before| && before[b] == s[i];
      } else {
        var k: nat :| k < |behind| && behind[k] == s[i];
        b := a + 1 + k;
      }
    } else {
      b :| b < |t| && t[b] == s[j];
    }
  }

  lemma AgreeingIsClean(points: seq<Point>, p: Policy, asset: string)
    requires AllAgree(points, p)
    ensures Clean(Timeline(points, asset, p))
  {
    var t := Timeline(points, asset, p);
    TimelineIs(points, asset, p);
    forall k | 1 <= k < |t|
      ensures CleanPair(t, k)
    {
      assert t[k - 1] in t && t[k] in t;
      RowCount(points, asset, p, t[k - 1]);
      RowCount(points, asset, p, t[k]);
      var a, b := TwoPlaces(t, k - 1, k, points);
      assert Agree(points[a], points[b]) || Agree(points[b], points[a]);
    }
  }

  lemma CleanAgrees(points: seq<Point>, p: Policy, i: nat, j: nat)
    requires i < j < |points| && Eligible(points[i], p) && Eligible(points[j], p)
    requires points[i].assetId == points[j].assetId && Clean(Timeline(points, points[i].assetId, p))
    ensures Agree(points[i], points[j])
  {
    var t := Timeline(points, points[i].assetId, p);
    TimelineIs(points, points[i].assetId, p);
    RiskRanking.CleanKeysDiffer(points, p, i, j);
    assert points[i] in t && points[j] in t;
    var a: nat :| a < |t| && t[a] == points[i];
    var b: nat :| b < |t| && t[b] == points[j];
    if a < b {
      CleanIsUniform(t, a, b);
    } else if b < a {
      CleanIsUniform(t, b, a);
    }
  }

  /** The detector raises exactly when two eligible rows of one asset differ in type or
      model version, or have the same time. */
  lemma RejectsExactlyWhen(points: seq<Point>, p: Policy, iso: int -> string)
    requires 0.0 < p.minimumStep
    ensures Detect(points, p, iso).Rejected? <==> !AllAgree(points, p)
  {
    DetectIs(points, p, iso);
    if AllAgree(points, p) {
      forall a | a in Assets(points, p)
        ensures Clean(Timeline(points, a, p))
      {
        AgreeingIsClean(points, p, a);
      }
    } else {
      var i, j :| 0 <= i < j < |points| && Eligible(points[i], p) && Eligible(points[j], p) &&
        !Agree(points[i], points[j]);
      AssetsAre(points, p, points[i].assetId);
      assert points[i] in points;
      if Clean(Timeline(points, points[i].assetId, p)) {
        CleanAgrees(points, p, i, j);
      }
    }
  }

  /** The rows at two places are of the asset the fault names and differ as it says. */
  ghost predicate Disagree(points: seq<Point>, p: Policy, f: Fault, i: nat, j: nat) {
    && i < |points| && j < |points| && i != j
    && RowOf(points, p, f.asset, points[i]) && RowOf(points, p, f.asset, points[j])
    && match f
       case AssetTypeChanged(_) => points[i].assetType != points[j].assetType
       case ModelVersionChanged(_) => points[i].modelVersion != points[j].modelVersion
       case DuplicateTime(_) => points[i].observedAt == points[j].observedAt
  }

  lemma {:induction false} FaultIsAPair(t: seq<Point>, asset: string, n: nat) returns (k: nat)
    requires 1 <= n <= |t| && FaultBefore(t, asset, n).Some?
    ensures 1 <= k < n && PairFault(asset, t[k - 1], t[k]) == FaultBefore(t, asset, n)
  {
    if FaultBefore(t, asset, n - 1).Some? {
      k := FaultIsAPair(t, asset, n - 1);
    } else {
      k := n - 1;
    }
  }

  lemma FaultOfTimeline(points: seq<Point>, p: Policy, asset: string, f: Fault)
    requires FaultIn(Timeline(points, asset, p), asset) == Some(f)
    ensures f.asset == asset && exists i, j: nat :: Disagree(points, p, f, i, j)
  {
    var t := Timeline(points, asset, p);
    var k := FaultIsAPair(t, asset, |t|);
    TimelineIs(points, asset, p);
    RowCount(points, asset, p, t[k - 1]);
    RowCount(points, asset, p, t[k]);
    assert t[k - 1] in t && t[k] in t;
    var i, j := TwoPlaces(t, k - 1, k, points);
    assert Disagree(points, p, f, i, j);
  }

  lemma {:induction false} FirstFault(assets: seq<string>, points: seq<Point>, p: Policy, iso: int -> string)
    returns (n: nat)
    requires 0.0 < p.minimumStep && DetectIn(assets, points, p, iso).Rejected?
    ensures n < |assets| && DetectIn(assets[..n], points, p, iso).Detected?
    ensures FaultIn(Timeline(points, assets[n], p), assets[n]) == Some(DetectIn(assets, points, p, iso).fault)
  {
    var last := |assets| - 1;
    if DetectIn(assets[..last], points, p, iso).Rejected? {
      n := FirstFault(assets[..last], points, p, iso);
      assert assets[..last][..n] == assets[..n];
    } else {
      n := last;
    }
  }

  lemma SmallerStandsBefore(assets: seq<string>, n: nat, a: string)
    requires StrictlyAscending(assets, StrLess) && n < |assets| && a in assets && StrLess(a, assets[n])
    ensures a in assets[..n]
  {
    var k: nat :| k < |assets| && assets[k] == a;
    if n < k {
      assert StrLess(assets[n], assets[k]);
      StrLessTransitive(a, assets[n], a);
    }
    StrLessIrreflexive(a);
    assert k < n && assets[..n][k] == a;
  }

  /** The exception tells how rows of an asset disagree, and those of assets with smaller ids agree. */
  lemma FaultTells(points: seq<Point>, p: Policy, iso: int -> string)
    requires 0.0 < p.minimumStep && Detect(points, p, iso).Rejected?
    ensures exists i, j: nat :: Disagree(points, p, Detect(points, p, iso).fault, i, j)
    ensures forall i, j | 0 <= i < j < |points| && Eligible(points[i], p) && Eligible(points[j], p) ::
      StrLess(points[i].assetId, Detect(points, p, iso).fault.asset) ==> Agree(points[i], points[j])
  {
    var assets, fault := Sorted(Assets(points, p), StrLess), Detect(points, p, iso).fault;
    var n := FirstFault(assets, points, p, iso);
    FaultOfTimeline(points, p, assets[n], fault);
    DetectInIs(assets[..n], points, p, iso);
    AssetsAre(points, p, "");
    SortedKeepsMembers(Assets(points, p));
    DistinctSortStrict(Assets(points, p));
    forall i, j | 0 <= i < j < |points| && Eligible(points[i], p) && Eligible(points[j], p)
      ensures StrLess(points[i].assetId, fault.asset) ==> Agree(points[i], points[j])
    {
      if StrLess(points[i].assetId, fault.asset) && points[i].assetId == points[j].assetId {
        AssetsAre(points, p, points[i].assetId);
        assert points[i] in points;
        SmallerStandsBefore(assets, n, points[i].assetId);
        CleanAgrees(points, p, i, j);
      }
    }
  }
}
