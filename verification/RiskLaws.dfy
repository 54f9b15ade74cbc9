/** Laws of the detector over all inputs: validators, row sharing, identifiers,
    thresholds, and independence of input order. */
module RiskLaws {
  import opened Orders
  import opened RiskContracts
  import opened RiskTimeline
  import opened RiskDetect

  // -------------------------------------------------------------- validators

  lemma EventAtIsValid(t: seq<Point>, i: nat, p: Policy, iso: int -> string, e: RiseEvent)
    requires ValidPolicy(p) && (forall x | x in t :: ValidPoint(x))
    requires Ascending(t, Earlier) && Clean(t) && i < |t| && EventAt(t, i, p, iso, e)
    ensures ValidEvent(e)
    ensures e.terminatedBy == NonIncrease <==> e.peakAt < e.endedAt
  {
    var peak := PeakOf(t, i, p);
    PeakEndsClimb(t, i, p);
    ClimbRises(t, i, peak, p);
    CleanIsStrict(t);
    assert Earlier(t[i], t[peak]);
    assert t[i] in t && t[peak] in t;
    var stop := SourceStop(t, peak, p);
    assert peak < stop - 1 ==> Earlier(t[peak], t[stop - 1]);
  }

  /** Whatever the detector emits from valid rows passes every validator of the event model. */
  lemma EventsAreValid(points: seq<Point>, p: Policy, iso: int -> string, e: RiseEvent)
    requires ValidPolicy(p) && (forall x | x in points :: ValidPoint(x))
    requires Detect(points, p, iso).Detected? && e in Detect(points, p, iso).events
    ensures ValidEvent(e)
    ensures e.terminatedBy == NonIncrease <==> e.peakAt < e.endedAt
    ensures e.probabilityDelta >= p.minimumTotal
  {
    DetectIs(points, p, iso);
    var a :| a in Assets(points, p) && EventOfAsset(points, a, p, iso, e);
    TimelineIs(points, a, p);
    var t := Timeline(points, a, p);
    var i: nat :| i < |t| && EventAt(t, i, p, iso, e);
    EventAtIsValid(t, i, p, iso, e);
  }

  // ------------------------------------------------------------- row sharing

  /** Of two runs of one timeline the later begins behind the peak of the earlier;
      they share at most the row that ended the earlier one. */
  lemma RunsShareAtMostTheTerminatingRow(t: seq<Point>, i: nat, j: nat, p: Policy)
    requires i < j < |t| && StartsRun(t, i, p) && StartsRun(t, j, p)
    ensures PeakOf(t, i, p) < j
    ensures SourceStop(t, PeakOf(t, i, p), p) <= j + 1
    ensures SourceStop(t, PeakOf(t, i, p), p) == j + 1 ==>
      j == PeakOf(t, i, p) + 1 && TerminationAt(t, PeakOf(t, i, p), p) == NonIncrease
  {
    PeakEndsClimb(t, i, p);
    assert Climb(t, i, PeakOf(t, i, p), p) && Triggers(t, i + 1, p) && !Climb(t, i, j, p);
  }

  // ------------------------------------------------------------- identifiers

  /** What is assumed of `isoformat`: different times print differently, and never with a '#'. */
  ghost predicate IsoFormat(iso: int -> string) {
    && (forall x, y :: iso(x) == iso(y) ==> x == y)
    && (forall x :: '#' !in iso(x))
  }

  lemma LastHashSplits(x: string, u: string, y: string, v: string)
    requires x + "#" + u == y + "#" + v && '#' !in u && '#' !in v
    ensures x == y && u == v
  {
    var s := x + "#" + u;
    assert s[|x|] == '#' && s[|y|] == '#';
    assert forall k | |x| < k < |s| :: s[k] == u[k - |x| - 1];
    assert forall k | |y| < k < |s| :: s[k] == v[k - |y| - 1];
    assert x == s[..|x|] && y == s[..|y|];
    assert u == s[|x| + 1..] && v == s[|y| + 1..];
  }

  function EventId(asset: string, at: int, iso: int -> string): string {
    "RISK-RISE#" + asset + "#" + iso(at)
  }

  lemma EventIdDetermines(a: string, s: int, b: string, t: int, iso: int -> string)
    requires IsoFormat(iso) && EventId(a, s, iso) == EventId(b, t, iso)
    ensures a == b && s == t
  {
    LastHashSplits("RISK-RISE#" + a, iso(s), "RISK-RISE#" + b, iso(t));
    assert a == ("RISK-RISE#" + a)[10..] && b == ("RISK-RISE#" + b)[10..];
  }

  predicate DistinctIds(events: seq<RiseEvent>) {
    forall k, m | 0 <= k < m < |events| :: events[k].eventId != events[m].eventId
  }

  lemma EventOfId(t: seq<Point>, start: nat, peak: nat, p: Policy, iso: int -> string)
    requires start < peak < |t|
    ensures EventOf(t, start, peak, p, iso).eventId == EventId(t[start].assetId, t[start].observedAt, iso)
  {
  }

  /** An event begun before row `n` has another id than one begun there. */
  lemma EarlierIdDiffers(t: seq<Point>, n: nat, p: Policy, iso: int -> string, e: RiseEvent)
    requires IsoFormat(iso) && 0.0 < p.minimumStep && n < |t| && StrictlyAscending(t, Earlier)
    requires e in EventsBefore(t, n, p, iso)
    ensures e.eventId != EventId(t[n].assetId, t[n].observedAt, iso)
  {
    EventsBeforeAre(t, n, p, iso, e);
    var i: nat :| i < n && EventAt(t, i, p, iso, e);
    EventOfId(t, i, PeakOf(t, i, p), p, iso);
    assert Earlier(t[i], t[n]);
    if e.eventId == EventId(t[n].assetId, t[n].observedAt, iso) {
      EventIdDetermines(t[i].assetId, t[i].observedAt, t[n].assetId, t[n].observedAt, iso);
    }
  }

  lemma {:induction false} TimelineIdsDistinct(t: seq<Point>, n: nat, p: Policy, iso: int -> string)
    requires IsoFormat(iso) && 0.0 < p.minimumStep && n <= |t| && StrictlyAscending(t, Earlier)
    ensures DistinctIds(EventsBefore(t, n, p, iso))
  {
    if n > 0 {
      var last := n - 1;
      TimelineIdsDistinct(t, last, p, iso);
      if Reports(t, last, p) {
        var before := EventsBefore(t, last, p, iso);
        StartBelowPeak(t, last, p);
        EventOfId(t, last, PeakOf(t, last, p), p, iso);
        forall k | 0 <= k < |before|
          ensures before[k].eventId != EventId(t[last].assetId, t[last].observedAt, iso)
        {
          EarlierIdDiffers(t, last, p, iso, before[k]);
        }
      }
    }
  }

  lemma EventNamesItsAsset(points: seq<Point>, asset: string, p: Policy, iso: int -> string, e: RiseEvent)
    requires EventOfAsset(points, asset, p, iso, e)
    ensures e.assetId == asset && e.eventId == EventId(asset, e.startedAt, iso)
  {
    TimelineIs(points, asset, p);
    var t := Timeline(points, asset, p);
    var i: nat :| i < |t| && EventAt(t, i, p, iso, e);
    assert t[i] in t;
  }

  lemma {:induction false} DetectInIdsDistinct(assets: seq<string>, points: seq<Point>, p: Policy, iso: int -> string)
    requires IsoFormat(iso) && 0.0 < p.minimumStep && DetectIn(assets, points, p, iso).Detected?
    requires Distinct(assets)
    ensures DistinctIds(DetectIn(assets, points, p, iso).events)
  {
    if assets != [] {
      var last := |assets| - 1;
      var asset := assets[last];
      DetectInIdsDistinct(assets[..last], points, p, iso);
      DetectInIs(assets, points, p, iso);
      DetectInIs(assets[..last], points, p, iso);
      var t := Timeline(points, asset, p);
      TimelineIs(points, asset, p);
      CleanIsStrict(t);
      TimelineIdsDistinct(t, |t|, p, iso);
      var before := DetectIn(assets[..last], points, p, iso).events;
      var added := TimelineEvents(t, p, iso);
      forall e, f | e in before && f in added
        ensures e.eventId != f.eventId
      {
        var a :| a in assets[..last] && EventOfAsset(points, a, p, iso, e);
        EventNamesItsAsset(points, a, p, iso, e);
        EventsBeforeAre(t, |t|, p, iso, f);
        EventNamesItsAsset(points, asset, p, iso, f);
        if e.eventId == f.eventId {
          EventIdDetermines(a, e.startedAt, asset, f.startedAt, iso);
        }
      }
    }
  }

  lemma DistinctSortStrict(keys: seq<string>)
    requires Distinct(keys)
    ensures StrictlyAscending(Sorted(keys, StrLess), StrLess)
    ensures Distinct(Sorted(keys, StrLess))
  {
    StringsOrdered();
    SortedSorts(keys, StrLess);
    var s := Sorted(keys, StrLess);
    SameElements(s, keys);
    forall i, j | 0 <= i < j < |s|
      ensures s[i] != s[j] && StrLess(s[i], s[j])
    {
      if s[i] == s[j] {
        DistinctHasNoTwice(keys, s, i, j);
      }
      StrLessTotal(s[i], s[j]);
      assert !StrLess(s[j], s[i]);
    }
  }

  lemma DistinctHasNoTwice<T>(keys: seq<T>, s: seq<T>, i: nat, j: nat)
    requires Distinct(keys)
    requires multiset(keys) == multiset(s) && i < j < |s|
    ensures s[i] != s[j]
  {
    var rest := s[..i] + s[i + 1..];
    assert s == s[..i] + [s[i]] + s[i + 1..];
    assert multiset(s) == multiset(rest) + multiset{s[i]};
    assert rest[j - 1] == s[j];
    assert s[j] in multiset(rest);
    DistinctCounts(keys, s[i]);
  }

  lemma {:induction false} DistinctCounts<T>(keys: seq<T>, x: T)
    requires Distinct(keys)
    ensures multiset(keys)[x] == if x in keys then 1 else 0
  {
    if keys != [] {
      var last := |keys| - 1;
      DistinctCounts(keys[..last], x);
      assert keys == keys[..last] + [keys[last]];
    }
  }

  /** Event identifiers are unique across all assets. */
  lemma EventIdsAreUnique(points: seq<Point>, p: Policy, iso: int -> string)
    requires IsoFormat(iso) && 0.0 < p.minimumStep && Detect(points, p, iso).Detected?
    ensures DistinctIds(Detect(points, p, iso).events)
  {
    AssetsAre(points, p, "");
    DistinctSortStrict(Assets(points, p));
    DetectInIdsDistinct(Sorted(Assets(points, p), StrLess), points, p, iso);
  }

  // -------------------------------------------------------------- thresholds

  /** Two policies that differ at most in their two probability thresholds. */
  predicate SameButThresholds(p: Policy, q: Policy) {
    p == q.(minimumStep := p.minimumStep, minimumTotal := p.minimumTotal)
  }

  lemma {:induction false} SameRows(points: seq<Point>, asset: string, p: Policy, q: Policy)
    requires SameButThresholds(p, q)
    ensures Rows(points, asset, p) == Rows(points, asset, q)
  {
    if points != [] {
      SameRows(points[..|points| - 1], asset, p, q);
    }
  }

  lemma {:induction false} SameAssets(points: seq<Point>, p: Policy, q: Policy)
    requires SameButThresholds(p, q)
    ensures Assets(points, p) == Assets(points, q)
  {
    if points != [] {
      SameAssets(points[..|points| - 1], p, q);
    }
  }

  lemma {:induction false} SamePeak(t: seq<Point>, i: nat, p: Policy, q: Policy)
    requires SameButThresholds(p, q) && i < |t|
    ensures PeakOf(t, i, p) == PeakOf(t, i, q)
    decreases |t| - i
  {
    if i + 1 < |t| {
      SamePeak(t, i + 1, p, q);
    }
  }

  /** With a lower step the same rise triggers at the same row or earlier. */
  lemma {:induction false} LowerStepStartsNoLater(t: seq<Point>, i: nat, p: Policy, q: Policy) returns (start: nat)
    requires SameButThresholds(p, q) && 0.0 < p.minimumStep <= q.minimumStep
    requires i + 1 < |t| && Triggers(t, i + 1, q)
    ensures start <= i && StartsRun(t, start, p) && Climb(t, start, i, p)
  {
    start := EarliestTrigger(t, i, p);
  }

  lemma {:induction false} EarliestTrigger(t: seq<Point>, i: nat, p: Policy) returns (start: nat)
    requires i + 1 < |t| && Triggers(t, i + 1, p)
    ensures start <= i && StartsRun(t, start, p) && Climb(t, start, i, p)
  {
    if StartsRun(t, i, p) {
      start := i;
    } else {
      var j :| 0 <= j < i && Triggers(t, j + 1, p) && Climb(t, j, i, p);
      start := EarliestTrigger(t, j, p);
    }
  }

  /** `long` covers `short`: same asset, peak, end and cause, begun no later, risen
      at least as far, and the rows of `short` are the last rows of `long`. */
  ghost predicate Covers(long: RiseEvent, short: RiseEvent) {
    && long.assetId == short.assetId && long.peakAt == short.peakAt && long.endedAt == short.endedAt
    && long.peakProbability == short.peakProbability && long.terminatedBy == short.terminatedBy
    && long.startedAt <= short.startedAt && long.probabilityDelta >= short.probabilityDelta
    && |short.sourcePredictionIds| <= |long.sourcePredictionIds|
    && short.sourcePredictionIds == long.sourcePredictionIds[|long.sourcePredictionIds| - |short.sourcePredictionIds|..]
  }

  lemma IdsOfSuffix(t: seq<Point>, a: nat, b: nat, c: nat)
    requires a <= b <= c <= |t|
    ensures |Ids(t[a..c])| == c - a && |Ids(t[b..c])| == c - b && Ids(t[b..c]) == Ids(t[a..c])[b - a..]
  {
  }

  lemma EventsCover(t: seq<Point>, start: nat, i: nat, peak: nat, p: Policy, q: Policy, iso: int -> string)
    requires start <= i < peak < |t| && TerminationAt(t, peak, p) == TerminationAt(t, peak, q)
    requires t[start].assetId == t[i].assetId && t[start].observedAt <= t[i].observedAt
    requires t[start].probability <= t[i].probability
    ensures Covers(EventOf(t, start, peak, p, iso), EventOf(t, i, peak, q, iso))
  {
    IdsOfSuffix(t, start, i, SourceStop(t, peak, p));
  }

  lemma LongerRunCovers(t: seq<Point>, start: nat, i: nat, p: Policy, q: Policy, iso: int -> string)
    requires SameButThresholds(p, q) && Climb(t, start, i, p) && i < PeakOf(t, i, q)
    requires StrictlyAscending(t, Earlier) && forall x, y | x in t && y in t :: x.assetId == y.assetId
    ensures PeakOf(t, start, p) == PeakOf(t, i, q)
    ensures Covers(EventOf(t, start, PeakOf(t, start, p), p, iso), EventOf(t, i, PeakOf(t, i, q), q, iso))
  {
    SamePeak(t, i, p, q);
    ClimbSharesPeak(t, start, i, p);
    ClimbRises(t, start, i, p);
    var peak := PeakOf(t, i, q);
    assert TerminationAt(t, peak, p) == TerminationAt(t, peak, q);
    assert start < i ==> Earlier(t[start], t[i]);
    assert t[start] in t && t[i] in t;
    EventsCover(t, start, i, peak, p, q, iso);
  }

  lemma SameCleanliness(points: seq<Point>, p: Policy, q: Policy, iso: int -> string)
    requires SameButThresholds(p, q) && 0.0 < p.minimumStep && 0.0 < q.minimumStep
    ensures Detect(points, p, iso).Detected? <==> Detect(points, q, iso).Detected?
  {
    DetectIs(points, p, iso);
    DetectIs(points, q, iso);
    SameAssets(points, p, q);
    forall a
      ensures Timeline(points, a, p) == Timeline(points, a, q)
    {
      SameRows(points, a, p, q);
    }
  }

  /** Raising the minimum step never invents a peak: every event found with the
      higher step is covered by an event found with the lower one. */
  lemma RaisingStepOnlyShortens(points: seq<Point>, p: Policy, q: Policy, iso: int -> string, short: RiseEvent)
    returns (long: RiseEvent)
    requires SameButThresholds(p, q) && 0.0 < p.minimumStep <= q.minimumStep && p.minimumTotal <= q.minimumTotal
    requires Detect(points, q, iso).Detected? && short in Detect(points, q, iso).events
    ensures Detect(points, p, iso).Detected? && long in Detect(points, p, iso).events
    ensures Covers(long, short)
  {
    SameCleanliness(points, p, q, iso);
    DetectIs(points, p, iso);
    DetectIs(points, q, iso);
    SameAssets(points, p, q);
    var a :| a in Assets(points, q) && EventOfAsset(points, a, q, iso, short);
    SameRows(points, a, p, q);
    TimelineIs(points, a, p);
    var t := Timeline(points, a, p);
    CleanIsStrict(t);
    var i: nat :| i < |t| && EventAt(t, i, q, iso, short);
    var start := LowerStepStartsNoLater(t, i, p, q);
    StartBelowPeak(t, start, p);
    LongerRunCovers(t, start, i, p, q, iso);
    long := EventOf(t, start, PeakOf(t, start, p), p, iso);
    assert EventAt(t, start, p, iso, long);
    assert EventOfAsset(points, a, p, iso, long);
  }

  /** The events whose total rise reaches a threshold, in order. */
  function AtLeast(events: seq<RiseEvent>, total: real): seq<RiseEvent> {
    if events == [] then []
    else
      var last := |events| - 1;
      AtLeast(events[..last], total) + if events[last].probabilityDelta >= total then [events[last]] else []
  }

  lemma {:induction false} AtLeastConcat(a: seq<RiseEvent>, b: seq<RiseEvent>, total: real)
    ensures AtLeast(a + b, total) == AtLeast(a, total) + AtLeast(b, total)
  {
    if b == [] {
      assert a + b == a;
    } else {
      var last := |b| - 1;
      AtLeastConcat(a, b[..last], total);
      assert (a + b)[..|a + b| - 1] == a + b[..last];
    }
  }

  lemma AtLeastOfOne(e: RiseEvent, total: real)
    ensures AtLeast([e], total) == if e.probabilityDelta >= total then [e] else []
  {
    assert AtLeast([e][..0], total) == [];
  }

  lemma SameStarts(t: seq<Point>, i: nat, p: Policy, q: Policy)
    requires q == p.(minimumTotal := q.minimumTotal)
    ensures StartsRun(t, i, p) == StartsRun(t, i, q)
  {
    forall j: nat
      ensures Climb(t, j, i, p) == Climb(t, j, i, q)
    {
      if j <= i < |t| {
        assert forall k | j < k <= i :: Linked(t, k, p) == Linked(t, k, q);
      }
    }
  }

  /** With a higher total a row reports the same event or none. */
  lemma RaisedReport(t: seq<Point>, i: nat, p: Policy, q: Policy, iso: int -> string)
    requires i < |t| && 0.0 < p.minimumStep && q == p.(minimumTotal := q.minimumTotal)
    requires p.minimumTotal <= q.minimumTotal
    ensures Reports(t, i, q) ==> Reports(t, i, p)
    ensures Reports(t, i, p) ==> i < PeakOf(t, i, p) == PeakOf(t, i, q)
    ensures Reports(t, i, p) ==> var e := EventOf(t, i, PeakOf(t, i, p), p, iso);
      e == EventOf(t, i, PeakOf(t, i, q), q, iso) && (Reports(t, i, q) <==> e.probabilityDelta >= q.minimumTotal)
  {
    SamePeak(t, i, p, q);
    SameStarts(t, i, p, q);
    if StartsRun(t, i, p) {
      StartBelowPeak(t, i, p);
    }
  }

  lemma {:induction false} TimelineFiltersByTotal(t: seq<Point>, n: nat, p: Policy, q: Policy, iso: int -> string)
    requires n <= |t| && 0.0 < p.minimumStep && q == p.(minimumTotal := q.minimumTotal)
    requires p.minimumTotal <= q.minimumTotal
    ensures EventsBefore(t, n, q, iso) == AtLeast(EventsBefore(t, n, p, iso), q.minimumTotal)
  {
    if n > 0 {
      TimelineFiltersByTotal(t, n - 1, p, q, iso);
      RaisedReport(t, n - 1, p, q, iso);
      if Reports(t, n - 1, p) {
        var e := EventOf(t, n - 1, PeakOf(t, n - 1, p), p, iso);
        AtLeastConcat(EventsBefore(t, n - 1, p, iso), [e], q.minimumTotal);
        AtLeastOfOne(e, q.minimumTotal);
        assert EventsBefore(t, n, p, iso) == EventsBefore(t, n - 1, p, iso) + [e];
      } else {
        assert EventsBefore(t, n, p, iso) == EventsBefore(t, n - 1, p, iso);
      }
    }
  }

  lemma {:induction false} DetectInFiltersByTotal(assets: seq<string>, points: seq<Point>, p: Policy, q: Policy,
      iso: int -> string)
    requires 0.0 < p.minimumStep && q == p.(minimumTotal := q.minimumTotal) && p.minimumTotal <= q.minimumTotal
    ensures DetectIn(assets, points, q, iso) ==
      match DetectIn(assets, points, p, iso)
      case Detected(events) => Detected(AtLeast(events, q.minimumTotal))
      case Rejected(f) => Rejected(f)
  {
    if assets != [] {
      var last := |assets| - 1;
      DetectInFiltersByTotal(assets[..last], points, p, q, iso);
      SameRows(points, assets[last], p, q);
      var t := Timeline(points, assets[last], p);
      TimelineFiltersByTotal(t, |t|, p, q, iso);
      if DetectIn(assets[..last], points, p, iso).Detected? {
        AtLeastConcat(DetectIn(assets[..last], points, p, iso).events, TimelineEvents(t, p, iso), q.minimumTotal);
      }
    }
  }

  /** Raising the minimum total filters the former output, and rejects the same inputs in the same way. */
  lemma RaisingTotalFilters(points: seq<Point>, p: Policy, q: Policy, iso: int -> string)
    requires 0.0 < p.minimumStep && q == p.(minimumTotal := q.minimumTotal) && p.minimumTotal <= q.minimumTotal
    ensures Detect(points, q, iso) ==
      match Detect(points, p, iso)
      case Detected(events) => Detected(AtLeast(events, q.minimumTotal))
      case Rejected(f) => Rejected(f)
  {
    SameAssets(points, p, q);
    DetectInFiltersByTotal(Sorted(Assets(points, p), StrLess), points, p, q, iso);
  }

  // ------------------------------------------------------- input order

  lemma {:induction false} RowCount(points: seq<Point>, asset: string, p: Policy, x: Point)
    ensures multiset(Rows(points, asset, p))[x]
         == if Eligible(x, p) && x.assetId == asset then multiset(points)[x] else 0
  {
    if points != [] {
      var last := |points| - 1;
      RowCount(points[..last], asset, p, x);
      assert points == points[..last] + [points[last]];
    }
  }

  lemma ShuffledTimeline(points: seq<Point>, shuffled: seq<Point>, asset: string, p: Policy)
    requires multiset(points) == multiset(shuffled) && Clean(Timeline(points, asset, p))
    ensures Timeline(points, asset, p) == Timeline(shuffled, asset, p)
  {
    TimelineIs(points, asset, p);
    TimelineIs(shuffled, asset, p);
    forall x
      ensures multiset(Rows(points, asset, p))[x] == multiset(Rows(shuffled, asset, p))[x]
    {
      RowCount(points, asset, p, x);
      RowCount(shuffled, asset, p, x);
    }
    assert multiset(Rows(points, asset, p)) == multiset(Rows(shuffled, asset, p));
    CleanIsStrict(Timeline(points, asset, p));
    SortedIsUnique(Timeline(points, asset, p), Timeline(shuffled, asset, p), Earlier);
  }

  lemma ShuffledAssets(points: seq<Point>, shuffled: seq<Point>, p: Policy)
    requires multiset(points) == multiset(shuffled)
    ensures Sorted(Assets(points, p), StrLess) == Sorted(Assets(shuffled, p), StrLess)
  {
    var a, b := Assets(points, p), Assets(shuffled, p);
    SameElements(points, shuffled);
    forall x
      ensures multiset(a)[x] == multiset(b)[x]
    {
      AssetsAre(points, p, x);
      AssetsAre(shuffled, p, x);
      DistinctCounts(a, x);
      DistinctCounts(b, x);
    }
    assert multiset(a) == multiset(b);
    AssetsAre(points, p, "");
    DistinctSortStrict(a);
    StringsOrdered();
    SortedSorts(a, StrLess);
    SortedSorts(b, StrLess);
    SortedIsUnique(Sorted(a, StrLess), Sorted(b, StrLess), StrLess);
  }

  lemma {:induction false} ShuffledDetectIn(assets: seq<string>, points: seq<Point>, shuffled: seq<Point>, p: Policy,
      iso: int -> string)
    requires 0.0 < p.minimumStep && multiset(points) == multiset(shuffled)
    requires DetectIn(assets, points, p, iso).Detected?
    ensures DetectIn(assets, shuffled, p, iso) == DetectIn(assets, points, p, iso)
  {
    if assets != [] {
      var last := |assets| - 1;
      ShuffledDetectIn(assets[..last], points, shuffled, p, iso);
      var t := Timeline(points, assets[last], p);
      FaultBeforeFindsFault(t, assets[last], |t|);
      ShuffledTimeline(points, shuffled, assets[last], p);
    }
  }

  /** Permuting the input either leaves the events as they are or fails both times. */
  lemma DetectionIgnoresOrder(points: seq<Point>, shuffled: seq<Point>, p: Policy, iso: int -> string)
    requires 0.0 < p.minimumStep && multiset(points) == multiset(shuffled)
    ensures Detect(points, p, iso) == Detect(shuffled, p, iso)
         || (Detect(points, p, iso).Rejected? && Detect(shuffled, p, iso).Rejected?)
  {
    ShuffledAssets(points, shuffled, p);
    var order := Sorted(Assets(points, p), StrLess);
    if DetectIn(order, points, p, iso).Detected? {
      ShuffledDetectIn(order, points, shuffled, p, iso);
    } else if DetectIn(order, shuffled, p, iso).Detected? {
      ShuffledDetectIn(order, shuffled, points, p, iso);
    }
  }
}
