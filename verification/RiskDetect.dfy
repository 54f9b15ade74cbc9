/** Detection over all assets: grouping, the checks on each timeline, and the
    events of every timeline in asset order. */
module RiskDetect {
  import opened Options
  import opened Orders
  import opened RiskContracts
  import opened RiskTimeline

  /** The exceptions the detector raises, with the asset they name. */
  datatype Fault =
    | AssetTypeChanged(asset: string)
    | ModelVersionChanged(asset: string)
    | DuplicateTime(asset: string)

  datatype Detection = Detected(events: seq<RiseEvent>) | Rejected(fault: Fault)

  predicate Eligible(x: Point, p: Policy) {
    x.assetType in p.eligibleAssetTypes
  }

  predicate Earlier(x: Point, y: Point) {
    x.observedAt < y.observedAt
  }

  /** The eligible rows of one asset, in input order. */
  function Rows(points: seq<Point>, asset: string, p: Policy): seq<Point> {
    if points == [] then []
    else
      var last := |points| - 1;
      Rows(points[..last], asset, p) +
      if Eligible(points[last], p) && points[last].assetId == asset then [points[last]] else []
  }

  /** The assets with eligible rows, in order of first appearance. */
  function Assets(points: seq<Point>, p: Policy): seq<string> {
    if points == [] then []
    else
      var last := |points| - 1;
      var before := Assets(points[..last], p);
      if Eligible(points[last], p) && points[last].assetId !in before then before + [points[last].assetId] else before
  }

  function Timeline(points: seq<Point>, asset: string, p: Policy): seq<Point> {
    Sorted(Rows(points, asset, p), Earlier)
  }

  function PairFault(asset: string, previous: Point, current: Point): Option<Fault> {
    if previous.assetType != current.assetType then Some(AssetTypeChanged(asset))
    else if previous.modelVersion != current.modelVersion then Some(ModelVersionChanged(asset))
    else if previous.observedAt == current.observedAt then Some(DuplicateTime(asset))
    else None
  }

  /** The first fault among the adjacent pairs up to row `n`. */
  function FaultBefore(t: seq<Point>, asset: string, n: nat): Option<Fault>
    requires 1 <= n <= |t| || n == 0 == |t|
  {
    if n <= 1 then None
    else
      match FaultBefore(t, asset, n - 1)
      case Some(f) => Some(f)
      case None => PairFault(asset, t[n - 2], t[n - 1])
  }

  function FaultIn(t: seq<Point>, asset: string): Option<Fault> {
    FaultBefore(t, asset, |t|)
  }

  function DetectIn(assets: seq<string>, points: seq<Point>, p: Policy, iso: int -> string): Detection
    requires 0.0 < p.minimumStep
  {
    if assets == [] then Detected([])
    else
      var last := |assets| - 1;
      match DetectIn(assets[..last], points, p, iso)
      case Rejected(f) => Rejected(f)
      case Detected(events) =>
        var t := Timeline(points, assets[last], p);
        match FaultIn(t, assets[last])
        case Some(f) => Rejected(f)
        case None => Detected(events + TimelineEvents(t, p, iso))
  }

  function Detect(points: seq<Point>, p: Policy, iso: int -> string): Detection
    requires 0.0 < p.minimumStep
  {
    DetectIn(Sorted(Assets(points, p), StrLess), points, p, iso)
  }

  // --------------------------------------------------------------- the method

  /** The grouping loop: a dictionary of lists and its keys in insertion order. */
  method Group(points: seq<Point>, p: Policy) returns (grouped: map<string, seq<Point>>, keys: seq<string>)
    ensures keys == Assets(points, p)
    ensures forall a :: a in grouped <==> a in keys
    ensures forall a | a in grouped :: grouped[a] == Rows(points, a, p)
  {
    grouped, keys := map[], [];
    for n := 0 to |points|
      invariant keys == Assets(points[..n], p)
      invariant forall a :: a in grouped <==> a in keys
      invariant forall a :: Rows(points[..n], a, p) == if a in grouped then grouped[a] else []
    {
      var point := points[n];
      assert points[..n + 1][..n] == points[..n];
      if point.assetType in p.eligibleAssetTypes {
        if point.assetId !in grouped {
          keys := keys + [point.assetId];
          grouped := grouped[point.assetId := [point]];
        } else {
          grouped := grouped[point.assetId := grouped[point.assetId] + [point]];
        }
      }
    }
    assert points[..|points|] == points;
  }

  /** The loop over adjacent pairs, which stops at the first fault. */
  method CheckTimeline(t: seq<Point>, asset: string) returns (fault: Option<Fault>)
    ensures fault == FaultIn(t, asset)
  {
    var n := 1;
    while n < |t|
      invariant 1 <= n && (|t| > 0 ==> n <= |t| && FaultBefore(t, asset, n).None?)
    {
      if t[n - 1].assetType != t[n].assetType {
        FaultStays(t, asset, n + 1);
        return Some(AssetTypeChanged(asset));
      }
      if t[n - 1].modelVersion != t[n].modelVersion {
        FaultStays(t, asset, n + 1);
        return Some(ModelVersionChanged(asset));
      }
      if t[n - 1].observedAt == t[n].observedAt {
        FaultStays(t, asset, n + 1);
        return Some(DuplicateTime(asset));
      }
      n := n + 1;
    }
    return None;
  }

  /** One asset more. */
  lemma DetectInNext(
    order: seq<string>, k: nat, points: seq<Point>, p: Policy, iso: int -> string, events: seq<RiseEvent>)
    requires 0.0 < p.minimumStep && k < |order| && DetectIn(order[..k], points, p, iso) == Detected(events)
    ensures var t := Timeline(points, order[k], p);
      DetectIn(order[..k + 1], points, p, iso)
      == match FaultIn(t, order[k])
         case Some(f) => Rejected(f)
         case None => Detected(events + TimelineEvents(t, p, iso))
  {
    assert order[..k + 1][..k] == order[..k];
  }

  /** `detect_risk_rise_events`: group the rows, then walk the assets in key order. */
  method DetectRiskRiseEvents(points: seq<Point>, p: Policy, iso: int -> string) returns (r: Detection)
    requires 0.0 < p.minimumStep
    ensures r == Detect(points, p, iso)
  {
    var grouped, keys := Group(points, p);
    var order := Sorted(keys, StrLess);
    SortedKeepsMembers(keys);
    var events := [];
    for k := 0 to |order|
      invariant DetectIn(order[..k], points, p, iso) == Detected(events)
    {
      DetectInNext(order, k, points, p, iso, events);
      var asset := order[k];
      assert asset in keys;
      var ordered := Sorted(grouped[asset], Earlier);
      assert ordered == Timeline(points, asset, p);
      var fault := CheckTimeline(ordered, asset);
      if fault.Some? {
        RejectionStays(order, k + 1, points, p, iso);
        return Rejected(fault.value);
      }
      var found := Scan(ordered, p, iso);
      events := events + found;
    }
    assert order[..|order|] == order;
    return Detected(events);
  }

  lemma SortedKeepsMembers(keys: seq<string>)
    ensures forall a :: a in Sorted(keys, StrLess) <==> a in keys
  {
    StringsOrdered();
    SortedSorts(keys, StrLess);
    SameElements(Sorted(keys, StrLess), keys);
  }

  lemma {:induction false} FaultStays(t: seq<Point>, asset: string, n: nat)
    requires 1 <= n <= |t| && FaultBefore(t, asset, n).Some?
    ensures FaultIn(t, asset) == FaultBefore(t, asset, n)
    decreases |t| - n
  {
    if n < |t| {
      FaultStays(t, asset, n + 1);
    }
  }

  lemma {:induction false} RejectionStays(assets: seq<string>, n: nat, points: seq<Point>, p: Policy,
      iso: int -> string)
    requires 0.0 < p.minimumStep && n <= |assets| && DetectIn(assets[..n], points, p, iso).Rejected?
    ensures DetectIn(assets, points, p, iso) == DetectIn(assets[..n], points, p, iso)
    decreases |assets| - n
  {
    if n == |assets| {
      assert assets[..n] == assets;
    } else {
      assert assets[..n + 1][..n] == assets[..n];
      RejectionStays(assets, n + 1, points, p, iso);
    }
  }

  // ------------------------------------------------------- meaning of Detect

  predicate CleanPair(t: seq<Point>, k: nat)
    requires 1 <= k < |t|
  {
    t[k - 1].assetType == t[k].assetType && t[k - 1].modelVersion == t[k].modelVersion
    && t[k - 1].observedAt != t[k].observedAt
  }

  predicate CleanBefore(t: seq<Point>, n: nat)
    requires n <= |t|
  {
    forall k | 1 <= k < n :: CleanPair(t, k)
  }

  /** Adjacent rows agree on type and model and differ in time. */
  predicate Clean(t: seq<Point>) {
    CleanBefore(t, |t|)
  }

  lemma {:induction false} FaultBeforeFindsFault(t: seq<Point>, asset: string, n: nat)
    requires 1 <= n <= |t| || n == 0 == |t|
    ensures FaultBefore(t, asset, n).None? <==> CleanBefore(t, n)
  {
    if n > 1 {
      FaultBeforeFindsFault(t, asset, n - 1);
      assert PairFault(asset, t[n - 2], t[n - 1]).None? <==> CleanPair(t, n - 1);
    }
  }

  lemma {:induction false} RowsAre(points: seq<Point>, asset: string, p: Policy, x: Point)
    ensures x in Rows(points, asset, p) <==> x in points && Eligible(x, p) && x.assetId == asset
  {
    if points != [] {
      var last := |points| - 1;
      assert points == points[..last] + [points[last]];
      RowsAre(points[..last], asset, p, x);
    }
  }

  lemma {:induction false} AssetsAre(points: seq<Point>, p: Policy, a: string)
    ensures a in Assets(points, p) <==> exists x :: x in points && Eligible(x, p) && x.assetId == a
    ensures Distinct(Assets(points, p))
  {
    if points != [] {
      var last := |points| - 1;
      assert points == points[..last] + [points[last]];
      AssetsAre(points[..last], p, a);
    }
  }

  lemma EarlierOrders()
    ensures StrictOrder(Earlier)
  {
  }

  lemma TimelineIs(points: seq<Point>, asset: string, p: Policy)
    ensures var t := Timeline(points, asset, p);
      && Ascending(t, Earlier) && multiset(t) == multiset(Rows(points, asset, p))
      && (forall x :: x in t <==> x in points && Eligible(x, p) && x.assetId == asset)
  {
    EarlierOrders();
    var rows := Rows(points, asset, p);
    SortedSorts(rows, Earlier);
    SameElements(Timeline(points, asset, p), rows);
    forall x
      ensures x in rows <==> x in points && Eligible(x, p) && x.assetId == asset
    {
      RowsAre(points, asset, p, x);
    }
  }

  predicate Uniform(x: Point, y: Point) {
    Earlier(x, y) && x.assetType == y.assetType && x.modelVersion == y.modelVersion
  }

  /** A clean timeline is strictly ordered in time and of one type and one model version. */
  lemma {:induction false} CleanIsUniform(t: seq<Point>, i: nat, j: nat)
    requires Ascending(t, Earlier) && Clean(t) && i < j < |t|
    ensures Uniform(t[i], t[j])
    decreases j - i
  {
    assert CleanPair(t, j) && !Earlier(t[j], t[j - 1]);
    if i < j - 1 {
      CleanIsUniform(t, i, j - 1);
    }
  }

  lemma CleanIsStrict(t: seq<Point>)
    requires Ascending(t, Earlier) && Clean(t)
    ensures StrictlyAscending(t, Earlier)
  {
    forall i, j | 0 <= i < j < |t|
      ensures Earlier(t[i], t[j])
    {
      CleanIsUniform(t, i, j);
    }
  }

  /** `e` is the event of the run that row `i` starts. */
  predicate EventAt(t: seq<Point>, i: nat, p: Policy, iso: int -> string, e: RiseEvent) {
    Reports(t, i, p) && i < PeakOf(t, i, p) && e == EventOf(t, i, PeakOf(t, i, p), p, iso)
  }

  lemma {:induction false} EventsBeforeAre(t: seq<Point>, n: nat, p: Policy, iso: int -> string, e: RiseEvent)
    requires n <= |t| && 0.0 < p.minimumStep
    ensures e in EventsBefore(t, n, p, iso) <==> exists i: nat :: i < n && EventAt(t, i, p, iso, e)
  {
    if n > 0 {
      EventsBeforeAre(t, n - 1, p, iso, e);
      if Reports(t, n - 1, p) {
        StartBelowPeak(t, n - 1, p);
        assert EventAt(t, n - 1, p, iso, EventOf(t, n - 1, PeakOf(t, n - 1, p), p, iso));
      }
    }
  }

  /** `e` is the event of a reported run of this asset. */
  ghost predicate EventOfAsset(points: seq<Point>, asset: string, p: Policy, iso: int -> string, e: RiseEvent) {
    var t := Timeline(points, asset, p);
    exists i: nat :: i < |t| && EventAt(t, i, p, iso, e)
  }

  lemma {:induction false} DetectInIs(assets: seq<string>, points: seq<Point>, p: Policy, iso: int -> string)
    requires 0.0 < p.minimumStep
    ensures DetectIn(assets, points, p, iso).Detected? <==> forall a | a in assets :: Clean(Timeline(points, a, p))
    ensures DetectIn(assets, points, p, iso).Detected? ==>
      forall e :: e in DetectIn(assets, points, p, iso).events
          <==> exists a | a in assets :: EventOfAsset(points, a, p, iso, e)
  {
    if assets != [] {
      var last := |assets| - 1;
      assert assets == assets[..last] + [assets[last]];
      DetectInIs(assets[..last], points, p, iso);
      var t := Timeline(points, assets[last], p);
      FaultBeforeFindsFault(t, assets[last], |t|);
      forall e
        ensures e in TimelineEvents(t, p, iso) <==> EventOfAsset(points, assets[last], p, iso, e)
      {
        EventsBeforeAre(t, |t|, p, iso, e);
      }
    }
  }

  /** Detection rejects exactly the inputs with an unclean timeline, and otherwise
      returns exactly the reported runs of all assets. */
  lemma DetectIs(points: seq<Point>, p: Policy, iso: int -> string)
    requires 0.0 < p.minimumStep
    ensures Detect(points, p, iso).Detected? <==> forall a | a in Assets(points, p) :: Clean(Timeline(points, a, p))
    ensures Detect(points, p, iso).Detected? ==>
      forall e :: e in Detect(points, p, iso).events
          <==> exists a | a in Assets(points, p) :: EventOfAsset(points, a, p, iso, e)
  {
    var order := Sorted(Assets(points, p), StrLess);
    SortedKeepsMembers(Assets(points, p));
    DetectInIs(order, points, p, iso);
  }
}
