/** Ranking detected events by a risk factor at their peak, and its composition
    with detection. */
module RiskRanking {
  import opened Options
  import opened Orders
  import opened RiskContracts
  import opened RiskTimeline
  import opened RiskDetect
  import opened RiskLaws

  datatype RankFault = DuplicateRow(asset: string, at: int) | MissingPeak(asset: string, at: int)

  datatype Ranking = Ranked(events: seq<RiseEvent>) | Unranked(fault: RankFault)

  datatype Index = Indexed(rows: map<(string, int), Point>) | Clash(asset: string, at: int)

  /** What the sort key is made of. */
  datatype Entry = Entry(delta: real, contribution: real, eventId: string, event: RiseEvent)

  datatype Entries = Collected(entries: seq<Entry>) | Absent(asset: string, at: int)

  predicate InScope(x: Point, eligible: Option<seq<string>>) {
    eligible.None? || x.assetType in eligible.value
  }

  function Key(x: Point): (string, int) {
    (x.assetId, x.observedAt)
  }

  function IndexOf(points: seq<Point>, eligible: Option<seq<string>>): Index {
    if points == [] then Indexed(map[])
    else
      var last := |points| - 1;
      var x := points[last];
      match IndexOf(points[..last], eligible)
      case Clash(asset, at) => Clash(asset, at)
      case Indexed(rows) =>
        if !InScope(x, eligible) then Indexed(rows)
        else if Key(x) in rows then Clash(x.assetId, x.observedAt)
        else Indexed(rows[Key(x) := x])
  }

  /** The contributions of the matching risk-up factors of a row. */
  function Contributions(factors: seq<Factor>, prefix: string): seq<real> {
    if factors == [] then []
    else
      var last := |factors| - 1;
      Contributions(factors[..last], prefix) +
      if prefix <= factors[last].feature && factors[last].direction == RiskUp
      then [factors[last].signedContribution] else []
  }

  function MaxOf(xs: seq<real>): real
    requires xs != []
  {
    var last := |xs| - 1;
    if last == 0 then xs[0]
    else
      var m := MaxOf(xs[..last]);
      if xs[last] > m then xs[last] else m
  }

  function EntryOf(e: RiseEvent, peak: Point, prefix: string): Entry
    requires Contributions(peak.topFactors, prefix) != []
  {
    Entry(e.probabilityDelta, MaxOf(Contributions(peak.topFactors, prefix)), e.eventId, e)
  }

  function EntriesOf(events: seq<RiseEvent>, rows: map<(string, int), Point>, prefix: string): Entries {
    if events == [] then Collected([])
    else
      var last := |events| - 1;
      var e := events[last];
      match EntriesOf(events[..last], rows, prefix)
      case Absent(asset, at) => Absent(asset, at)
      case Collected(entries) =>
        if (e.assetId, e.peakAt) !in rows then Absent(e.assetId, e.peakAt)
        else
          var peak := rows[(e.assetId, e.peakAt)];
          if Contributions(peak.topFactors, prefix) == [] then Collected(entries)
          else Collected(entries + [EntryOf(e, peak, prefix)])
  }

  /** Larger rise first, then larger contribution, then smaller identifier. */
  predicate Outranks(a: Entry, b: Entry) {
    || a.delta > b.delta
    || (a.delta == b.delta && a.contribution > b.contribution)
    || (a.delta == b.delta && a.contribution == b.contribution && StrLess(a.eventId, b.eventId))
  }

  function Events(entries: seq<Entry>): seq<RiseEvent> {
    seq(|entries|, i requires 0 <= i < |entries| => entries[i].event)
  }

  function Rank(events: seq<RiseEvent>, points: seq<Point>, prefix: string, eligible: Option<seq<string>>): Ranking {
    match IndexOf(points, eligible)
    case Clash(asset, at) => Unranked(DuplicateRow(asset, at))
    case Indexed(rows) =>
      match EntriesOf(events, rows, prefix)
      case Absent(asset, at) => Unranked(MissingPeak(asset, at))
      case Collected(entries) => Ranked(Events(Sorted(entries, Outranks)))
  }

  // --------------------------------------------------------------- the method

  /** `rank_events_by_risk_factor`: index the rows, collect the keyed entries, sort. */
  method RankEventsByRiskFactor(events: seq<RiseEvent>, points: seq<Point>, prefix: string,
      eligible: Option<seq<string>>)
    returns (r: Ranking)
    ensures r == Rank(events, points, prefix, eligible)
  {
    var rows: map<(string, int), Point> := map[];
    for n := 0 to |points|
      invariant IndexOf(points[..n], eligible) == Indexed(rows)
    {
      assert points[..n + 1][..n] == points[..n];
      var point := points[n];
      if eligible.Some? && point.assetType !in eligible.value {
        continue;
      }
      var key := (point.assetId, point.observedAt);
      if key in rows {
        ClashStays(points, n + 1, eligible);
        return Unranked(DuplicateRow(point.assetId, point.observedAt));
      }
      rows := rows[key := point];
    }
    assert points[..|points|] == points;
    var ranked: seq<Entry> := [];
    for n := 0 to |events|
      invariant EntriesOf(events[..n], rows, prefix) == Collected(ranked)
    {
      assert events[..n + 1][..n] == events[..n];
      var event := events[n];
      var peakKey := (event.assetId, event.peakAt);
      if peakKey !in rows {
        AbsenceStays(events, n + 1, rows, prefix);
        return Unranked(MissingPeak(event.assetId, event.peakAt));
      }
      var contributions := Contributions(rows[peakKey].topFactors, prefix);
      if contributions != [] {
        ranked := ranked + [Entry(event.probabilityDelta, MaxOf(contributions), event.eventId, event)];
      }
    }
    assert events[..|events|] == events;
    return Ranked(Events(Sorted(ranked, Outranks)));
  }

  lemma {:induction false} ClashStays(points: seq<Point>, n: nat, eligible: Option<seq<string>>)
    requires n <= |points| && IndexOf(points[..n], eligible).Clash?
    ensures IndexOf(points, eligible) == IndexOf(points[..n], eligible)
    decreases |points| - n
  {
    if n == |points| {
      assert points[..n] == points;
    } else {
      assert points[..n + 1][..n] == points[..n];
      ClashStays(points, n + 1, eligible);
    }
  }

  lemma {:induction false} AbsenceStays(events: seq<RiseEvent>, n: nat, rows: map<(string, int), Point>, prefix: string)
    requires n <= |events| && EntriesOf(events[..n], rows, prefix).Absent?
    ensures EntriesOf(events, rows, prefix) == EntriesOf(events[..n], rows, prefix)
    decreases |events| - n
  {
    if n == |events| {
      assert events[..n] == events;
    } else {
      assert events[..n + 1][..n] == events[..n];
      AbsenceStays(events, n + 1, rows, prefix);
    }
  }

  // ----------------------------------------------------------- the sort order

  lemma OutranksOrders()
    ensures StrictOrder(Outranks)
  {
    forall a: Entry
      ensures !Outranks(a, a)
    {
      StrLessIrreflexive(a.eventId);
    }
    forall a: Entry, b: Entry, c: Entry | Outranks(a, b) && Outranks(b, c)
      ensures Outranks(a, c)
    {
      if StrLess(a.eventId, b.eventId) && StrLess(b.eventId, c.eventId) {
        StrLessTransitive(a.eventId, b.eventId, c.eventId);
      }
    }
    forall a: Entry, b: Entry, c: Entry | Outranks(a, c)
      ensures Outranks(a, b) || Outranks(b, c)
    {
      StrLessTotal(a.eventId, b.eventId);
      StrLessTotal(b.eventId, c.eventId);
      if StrLess(b.eventId, a.eventId) && StrLess(a.eventId, c.eventId) {
        StrLessTransitive(b.eventId, a.eventId, c.eventId);
      }
    }
  }

  // ---------------------------------------------------------------- the index

  /** No two rows in scope share asset and time. */
  ghost predicate KeysDistinct(points: seq<Point>, eligible: Option<seq<string>>) {
    forall i, j | 0 <= i < j < |points| ::
      InScope(points[i], eligible) && InScope(points[j], eligible) ==> Key(points[i]) != Key(points[j])
  }

  /** The index holds the rows in scope, each under its key, and nothing else. */
  ghost predicate Indexes(rows: map<(string, int), Point>, points: seq<Point>, eligible: Option<seq<string>>) {
    && (forall x :: x in points && InScope(x, eligible) ==> Key(x) in rows && rows[Key(x)] == x)
    && (forall k :: k in rows ==> rows[k] in points && InScope(rows[k], eligible) && Key(rows[k]) == k)
  }

  lemma IndexGrows(rows: map<(string, int), Point>, init: seq<Point>, x: Point, eligible: Option<seq<string>>)
    requires Indexes(rows, init, eligible) && InScope(x, eligible) && Key(x) !in rows
    ensures Indexes(rows[Key(x) := x], init + [x], eligible)
  {
    var after, all := rows[Key(x) := x], init + [x];
    assert forall y :: y in all <==> y in init || y == x;
    forall y | y in all && InScope(y, eligible)
      ensures Key(y) in after && after[Key(y)] == y
    {
      assert y in init ==> Key(y) in rows;
    }
  }

  lemma IndexPasses(rows: map<(string, int), Point>, init: seq<Point>, x: Point, eligible: Option<seq<string>>)
    requires Indexes(rows, init, eligible) && !InScope(x, eligible)
    ensures Indexes(rows, init + [x], eligible)
  {
    assert forall y :: y in init + [x] <==> y in init || y == x;
  }

  lemma {:induction false} IndexFinds(points: seq<Point>, eligible: Option<seq<string>>)
    requires KeysDistinct(points, eligible)
    ensures IndexOf(points, eligible).Indexed? && Indexes(IndexOf(points, eligible).rows, points, eligible)
  {
    if points != [] {
      var last := |points| - 1;
      var init, x := points[..last], points[last];
      assert points == init + [x];
      IndexFinds(init, eligible);
      var rows := IndexOf(init, eligible).rows;
      if InScope(x, eligible) {
        assert forall y :: y in init && InScope(y, eligible) ==> Key(y) != Key(x);
        IndexGrows(rows, init, x, eligible);
      } else {
        IndexPasses(rows, init, x, eligible);
      }
    }
  }

  lemma TwiceCounts<T>(s: seq<T>, i: nat, j: nat)
    requires i < j < |s| && s[i] == s[j]
    ensures multiset(s)[s[i]] >= 2
  {
    var a, b := s[..j], s[j..];
    assert s == a + b;
    assert a[i] == s[i] && b[0] == s[i];
    assert s[i] in multiset(a) && s[i] in multiset(b);
  }

  lemma StrictCounts(t: seq<Point>, x: Point)
    requires StrictlyAscending(t, Earlier)
    ensures multiset(t)[x] <= 1
  {
    assert forall i, j | 0 <= i < j < |t| :: Earlier(t[i], t[j]) ==> t[i] != t[j];
    DistinctCounts(t, x);
  }

  /** A point that occurs twice occurs twice in its timeline, which a clean one excludes. */
  lemma CleanTimelineHasNoTwin(points: seq<Point>, p: Policy, i: nat, j: nat)
    requires i < j < |points| && Eligible(points[i], p)
    requires StrictlyAscending(Timeline(points, points[i].assetId, p), Earlier)
    ensures points[i] != points[j]
  {
    var x := points[i];
    if x == points[j] {
      TwiceCounts(points, i, j);
      RowCount(points, x.assetId, p, x);
      TimelineIs(points, x.assetId, p);
      StrictCounts(Timeline(points, x.assetId, p), x);
    }
  }

  lemma StrictTimesDiffer(t: seq<Point>, x: Point, y: Point)
    requires StrictlyAscending(t, Earlier) && x in t && y in t && x != y
    ensures x.observedAt != y.observedAt
  {
    var i :| 0 <= i < |t| && t[i] == x;
    var j :| 0 <= j < |t| && t[j] == y;
    if i < j {
      assert Earlier(t[i], t[j]);
    } else {
      assert Earlier(t[j], t[i]);
    }
  }

  lemma CleanKeysDiffer(points: seq<Point>, p: Policy, i: nat, j: nat)
    requires i < j < |points| && Eligible(points[i], p) && Eligible(points[j], p)
    requires Clean(Timeline(points, points[i].assetId, p))
    ensures Key(points[i]) != Key(points[j])
  {
    var t := Timeline(points, points[i].assetId, p);
    TimelineIs(points, points[i].assetId, p);
    CleanIsStrict(t);
    CleanTimelineHasNoTwin(points, p, i, j);
    if Key(points[i]) == Key(points[j]) {
      assert points[i] in t && points[j] in t;
      StrictTimesDiffer(t, points[i], points[j]);
    }
  }

  /** Detection without a fault leaves no duplicate key among the eligible rows. */
  lemma DetectionLeavesKeysDistinct(points: seq<Point>, p: Policy, iso: int -> string)
    requires 0.0 < p.minimumStep && Detect(points, p, iso).Detected?
    ensures KeysDistinct(points, Some(p.eligibleAssetTypes))
  {
    DetectIs(points, p, iso);
    forall i, j | 0 <= i < j < |points| && Eligible(points[i], p) && Eligible(points[j], p)
      ensures Key(points[i]) != Key(points[j])
    {
      AssetsAre(points, p, points[i].assetId);
      assert points[i] in points;
      CleanKeysDiffer(points, p, i, j);
    }
  }

  // ---------------------------------------------------------- the risk factors

  /** A factor of the wanted name that raises the risk. */
  predicate RaisesRisk(f: Factor, prefix: string) {
    |f.feature| >= |prefix| && f.feature[..|prefix|] == prefix && f.direction == RiskUp
  }

  lemma {:induction false} ContributionsAre(factors: seq<Factor>, prefix: string, c: real)
    ensures c in Contributions(factors, prefix)
       <==> exists f :: f in factors && RaisesRisk(f, prefix) && f.signedContribution == c
  {
    if factors != [] {
      var n := |factors| - 1;
      ContributionsAre(factors[..n], prefix, c);
      assert factors == factors[..n] + [factors[n]];
    }
  }

  lemma SomeContribution(factors: seq<Factor>, prefix: string)
    ensures Contributions(factors, prefix) != [] <==> exists f :: f in factors && RaisesRisk(f, prefix)
  {
    var contributions := Contributions(factors, prefix);
    if contributions != [] {
      ContributionsAre(factors, prefix, contributions[0]);
    }
    if f :| f in factors && RaisesRisk(f, prefix) {
      ContributionsAre(factors, prefix, f.signedContribution);
    }
  }

  lemma {:induction false} MaxOfIsGreatest(xs: seq<real>)
    requires xs != []
    ensures MaxOf(xs) in xs && forall x | x in xs :: x <= MaxOf(xs)
  {
    var n := |xs| - 1;
    if n > 0 {
      MaxOfIsGreatest(xs[..n]);
      assert xs == xs[..n] + [xs[n]];
    }
  }

  /** `c` is the contribution of a factor of the row that raises the risk, and none of them has a larger one. */
  ghost predicate TopContribution(x: Point, prefix: string, c: real) {
    && (exists f :: f in x.topFactors && RaisesRisk(f, prefix) && f.signedContribution == c)
    && forall f | f in x.topFactors && RaisesRisk(f, prefix) :: f.signedContribution <= c
  }

  lemma MaxOfIsTop(x: Point, prefix: string)
    requires Contributions(x.topFactors, prefix) != []
    ensures TopContribution(x, prefix, MaxOf(Contributions(x.topFactors, prefix)))
  {
    var contributions := Contributions(x.topFactors, prefix);
    MaxOfIsGreatest(contributions);
    ContributionsAre(x.topFactors, prefix, MaxOf(contributions));
    forall f | f in x.topFactors && RaisesRisk(f, prefix)
      ensures f.signedContribution <= MaxOf(contributions)
    {
      ContributionsAre(x.topFactors, prefix, f.signedContribution);
    }
  }

  // -------------------------------------------------------------- the entries

  ghost predicate PeaksPresent(events: seq<RiseEvent>, rows: map<(string, int), Point>) {
    forall e | e in events :: (e.assetId, e.peakAt) in rows
  }

  predicate Matches(e: RiseEvent, rows: map<(string, int), Point>, prefix: string) {
    (e.assetId, e.peakAt) in rows && Contributions(rows[(e.assetId, e.peakAt)].topFactors, prefix) != []
  }

  function EntryFor(e: RiseEvent, rows: map<(string, int), Point>, prefix: string): Entry
    requires Matches(e, rows, prefix)
  {
    EntryOf(e, rows[(e.assetId, e.peakAt)], prefix)
  }

  lemma {:induction false} EntriesCount(events: seq<RiseEvent>, rows: map<(string, int), Point>, prefix: string,
      n: Entry)
    requires PeaksPresent(events, rows)
    ensures EntriesOf(events, rows, prefix).Collected?
    ensures multiset(EntriesOf(events, rows, prefix).entries)[n]
         == if Matches(n.event, rows, prefix) && n == EntryFor(n.event, rows, prefix)
            then multiset(events)[n.event] else 0
  {
    if events != [] {
      var last := |events| - 1;
      assert events == events[..last] + [events[last]];
      assert events[last] in events;
      EntriesCount(events[..last], rows, prefix, n);
    }
  }

  lemma DistinctIdsCount(events: seq<RiseEvent>, e: RiseEvent)
    requires DistinctIds(events)
    ensures multiset(events)[e] <= 1
  {
    assert forall i, j | 0 <= i < j < |events| :: events[i].eventId != events[j].eventId ==> events[i] != events[j];
    DistinctCounts(events, e);
  }

  lemma SameIdSameEvent(events: seq<RiseEvent>, e: RiseEvent, f: RiseEvent)
    requires DistinctIds(events) && e in events && f in events && e.eventId == f.eventId
    ensures e == f
  {
    var i :| 0 <= i < |events| && events[i] == e;
    var j :| 0 <= j < |events| && events[j] == f;
  }

  /** The sorted entries of events with distinct identifiers have no ties. */
  lemma SortedEntriesStrict(events: seq<RiseEvent>, rows: map<(string, int), Point>, prefix: string)
    requires PeaksPresent(events, rows) && DistinctIds(events)
    ensures EntriesOf(events, rows, prefix).Collected?
    ensures StrictlyAscending(Sorted(EntriesOf(events, rows, prefix).entries, Outranks), Outranks)
  {
    EntriesCount(events, rows, prefix,
        Entry(0.0, 0.0, "", RiseEvent("", "", "", 0, 0, 0, 0.0, 0.0, 0.0, 0.0, 0.0, Gap, "", "", [])));
    var entries := EntriesOf(events, rows, prefix).entries;
    var s := Sorted(entries, Outranks);
    OutranksOrders();
    SortedSorts(entries, Outranks);
    forall i, j | 0 <= i < j < |s|
      ensures Outranks(s[i], s[j])
    {
      assert s[i] in multiset(s) && s[j] in multiset(s);
      EntriesCount(events, rows, prefix, s[i]);
      EntriesCount(events, rows, prefix, s[j]);
      DistinctIdsCount(events, s[i].event);
      if s[i].eventId == s[j].eventId {
        SameIdSameEvent(events, s[i].event, s[j].event);
        TwiceCounts(s, i, j);
      }
      StrLessTotal(s[i].eventId, s[j].eventId);
      assert !Outranks(s[j], s[i]);
    }
  }

  // -------------------------------------------------------------- composition

  /** The row at the peak of `e` has a matching risk-up factor. */
  ghost predicate RiskFactorAtPeak(points: seq<Point>, p: Policy, e: RiseEvent, prefix: string) {
    exists x, f :: AtPeak(points, p, e, x) && f in x.topFactors && RaisesRisk(f, prefix)
  }

  predicate AtPeak(points: seq<Point>, p: Policy, e: RiseEvent, x: Point) {
    x in points && x.assetType in p.eligibleAssetTypes && x.assetId == e.assetId && x.observedAt == e.peakAt
  }

  lemma PeakIsARow(points: seq<Point>, p: Policy, iso: int -> string, e: RiseEvent) returns (x: Point)
    requires 0.0 < p.minimumStep && Detect(points, p, iso).Detected? && e in Detect(points, p, iso).events
    ensures x in points && Eligible(x, p) && Key(x) == (e.assetId, e.peakAt)
  {
    DetectIs(points, p, iso);
    var a :| a in Assets(points, p) && EventOfAsset(points, a, p, iso, e);
    TimelineIs(points, a, p);
    EventNamesItsAsset(points, a, p, iso, e);
    var t := Timeline(points, a, p);
    var i: nat :| i < |t| && EventAt(t, i, p, iso, e);
    x := t[PeakOf(t, i, p)];
    assert x in t;
  }

  lemma MatchesMeans(points: seq<Point>, p: Policy, rows: map<(string, int), Point>, e: RiseEvent, prefix: string)
    requires Indexes(rows, points, Some(p.eligibleAssetTypes))
    ensures Matches(e, rows, prefix) <==> RiskFactorAtPeak(points, p, e, prefix)
  {
    var key := (e.assetId, e.peakAt);
    if key in rows {
      SomeContribution(rows[key].topFactors, prefix);
      assert AtPeak(points, p, e, rows[key]);
    }
    forall x | AtPeak(points, p, e, x)
      ensures key in rows && rows[key] == x
    {
      assert Key(x) == key && InScope(x, Some(p.eligibleAssetTypes));
    }
  }

  lemma DetectionIndexes(points: seq<Point>, p: Policy, iso: int -> string) returns (rows: map<(string, int), Point>)
    requires 0.0 < p.minimumStep && Detect(points, p, iso).Detected?
    ensures IndexOf(points, Some(p.eligibleAssetTypes)) == Indexed(rows)
    ensures Indexes(rows, points, Some(p.eligibleAssetTypes))
    ensures PeaksPresent(Detect(points, p, iso).events, rows)
  {
    DetectionLeavesKeysDistinct(points, p, iso);
    IndexFinds(points, Some(p.eligibleAssetTypes));
    rows := IndexOf(points, Some(p.eligibleAssetTypes)).rows;
    forall e | e in Detect(points, p, iso).events
      ensures (e.assetId, e.peakAt) in rows
    {
      var x := PeakIsARow(points, p, iso, e);
    }
  }

  /** Ranking what was just detected never raises and returns exactly the events
      with a matching risk-up factor at their peak. */
  lemma RankingAfterDetectionSelects(points: seq<Point>, p: Policy, iso: int -> string, prefix: string, e: RiseEvent)
    requires 0.0 < p.minimumStep && Detect(points, p, iso).Detected?
    ensures var r := Rank(Detect(points, p, iso).events, points, prefix, Some(p.eligibleAssetTypes));
      r.Ranked? && (e in r.events <==> e in Detect(points, p, iso).events && RiskFactorAtPeak(points, p, e, prefix))
  {
    var events := Detect(points, p, iso).events;
    var rows := DetectionIndexes(points, p, iso);
    EntriesSelect(events, rows, prefix, e);
    MatchesMeans(points, p, rows, e, prefix);
  }

  lemma KeysStayDistinct(init: seq<Point>, x: Point, eligible: Option<seq<string>>)
    requires KeysDistinct(init, eligible)
    requires InScope(x, eligible) ==> forall y | y in init && InScope(y, eligible) :: Key(y) != Key(x)
    ensures KeysDistinct(init + [x], eligible)
  {
  }

  lemma {:induction false} ClashedKeys(points: seq<Point>, eligible: Option<seq<string>>)
    requires !KeysDistinct(points, eligible)
    ensures IndexOf(points, eligible).Clash?
  {
    var last := |points| - 1;
    var init, x := points[..last], points[last];
    assert points == init + [x];
    if KeysDistinct(init, eligible) {
      IndexFinds(init, eligible);
      if InScope(x, eligible) ==> Key(x) !in IndexOf(init, eligible).rows {
        KeysStayDistinct(init, x, eligible);
      }
    } else {
      ClashedKeys(init, eligible);
    }
  }

  lemma {:induction false} CollectedExactlyWhen(events: seq<RiseEvent>, rows: map<(string, int), Point>, prefix: string)
    ensures EntriesOf(events, rows, prefix).Collected? <==> PeaksPresent(events, rows)
  {
    if events != [] {
      var last := |events| - 1;
      assert events == events[..last] + [events[last]];
      CollectedExactlyWhen(events[..last], rows, prefix);
      assert events[last] in events && forall e | e in events[..last] :: e in events;
    }
  }

  /** Ranking any events over any points returns exactly when no two considered rows share
      asset and time and every event has a row at its peak. */
  lemma RankReturnsExactlyWhen(events: seq<RiseEvent>, points: seq<Point>, prefix: string,
      eligible: Option<seq<string>>)
    ensures Rank(events, points, prefix, eligible).Ranked? <==>
      && KeysDistinct(points, eligible)
      && forall e | e in events :: exists x :: x in points && InScope(x, eligible) && Key(x) == (e.assetId, e.peakAt)
  {
    if KeysDistinct(points, eligible) {
      IndexFinds(points, eligible);
      var rows := IndexOf(points, eligible).rows;
      CollectedExactlyWhen(events, rows, prefix);
      forall e | e in events
        ensures (e.assetId, e.peakAt) in rows
           <==> exists x :: x in points && InScope(x, eligible) && Key(x) == (e.assetId, e.peakAt)
      {
        if (e.assetId, e.peakAt) in rows {
          assert Key(rows[(e.assetId, e.peakAt)]) == (e.assetId, e.peakAt);
        }
      }
    } else {
      ClashedKeys(points, eligible);
    }
  }

  lemma EntriesSelect(events: seq<RiseEvent>, rows: map<(string, int), Point>, prefix: string, e: RiseEvent)
    requires PeaksPresent(events, rows)
    ensures EntriesOf(events, rows, prefix).Collected?
    ensures e in Events(Sorted(EntriesOf(events, rows, prefix).entries, Outranks))
        <==> e in events && Matches(e, rows, prefix)
  {
    var any := Entry(0.0, 0.0, "", e);
    EntriesCount(events, rows, prefix, any);
    var entries := EntriesOf(events, rows, prefix).entries;
    OutranksOrders();
    SortedSorts(entries, Outranks);
    var s := Sorted(entries, Outranks);
    if e in Events(s) {
      var i :| 0 <= i < |s| && Events(s)[i] == e;
      assert s[i] in multiset(s);
      EntriesCount(events, rows, prefix, s[i]);
      assert e in multiset(events);
    }
    if e in events && Matches(e, rows, prefix) {
      EntriesCount(events, rows, prefix, EntryFor(e, rows, prefix));
      assert e in multiset(events);
      assert EntryFor(e, rows, prefix) in multiset(s);
      var i :| 0 <= i < |s| && s[i] == EntryFor(e, rows, prefix);
      assert Events(s)[i] == e;
    }
  }

  /** The ranking is strict: it does not depend on the order of rows or events. */
  lemma RankingIgnoresOrder(
    points: seq<Point>, p: Policy, iso: int -> string, prefix: string, shuffledEvents: seq<RiseEvent>,
        shuffledPoints: seq<Point>)
    requires IsoFormat(iso) && 0.0 < p.minimumStep && Detect(points, p, iso).Detected?
    requires multiset(shuffledEvents) == multiset(Detect(points, p, iso).events)
    requires multiset(shuffledPoints) == multiset(points)
    ensures Rank(shuffledEvents, shuffledPoints, prefix, Some(p.eligibleAssetTypes))
         == Rank(Detect(points, p, iso).events, points, prefix, Some(p.eligibleAssetTypes))
  {
    var events := Detect(points, p, iso).events;
    DetectionIgnoresOrder(points, shuffledPoints, p, iso);
    var rows := DetectionIndexes(points, p, iso);
    SameIndex(points, shuffledPoints, p, iso);
    EventIdsAreUnique(points, p, iso);
    SortedEntriesStrict(events, rows, prefix);
    SameElements(events, shuffledEvents);
    assert PeaksPresent(shuffledEvents, rows);
    var a := EntriesOf(events, rows, prefix).entries;
    var b := ShuffledEntries(events, shuffledEvents, rows, prefix);
    OutranksOrders();
    SortedSorts(a, Outranks);
    SortedSorts(b, Outranks);
    SortedIsUnique(Sorted(a, Outranks), Sorted(b, Outranks), Outranks);
  }

  lemma ShuffledEntries(events: seq<RiseEvent>, shuffled: seq<RiseEvent>, rows: map<(string, int), Point>,
      prefix: string)
    returns (b: seq<Entry>)
    requires PeaksPresent(events, rows) && PeaksPresent(shuffled, rows) && multiset(events) == multiset(shuffled)
    ensures EntriesOf(shuffled, rows, prefix) == Collected(b) && EntriesOf(events, rows, prefix).Collected?
    ensures multiset(b) == multiset(EntriesOf(events, rows, prefix).entries)
  {
    forall n: Entry
      ensures EntriesOf(shuffled, rows, prefix).Collected? && EntriesOf(events, rows, prefix).Collected?
      ensures multiset(EntriesOf(shuffled, rows, prefix).entries)[n]
          == multiset(EntriesOf(events, rows, prefix).entries)[n]
    {
      EntriesCount(events, rows, prefix, n);
      EntriesCount(shuffled, rows, prefix, n);
    }
    var any := Entry(0.0, 0.0, "", RiseEvent("", "", "", 0, 0, 0, 0.0, 0.0, 0.0, 0.0, 0.0, Gap, "", "", []));
    EntriesCount(shuffled, rows, prefix, any);
    b := EntriesOf(shuffled, rows, prefix).entries;
  }

  lemma SameIndex(points: seq<Point>, shuffled: seq<Point>, p: Policy, iso: int -> string)
    requires 0.0 < p.minimumStep && multiset(shuffled) == multiset(points)
    requires Detect(points, p, iso).Detected? && Detect(shuffled, p, iso).Detected?
    ensures IndexOf(points, Some(p.eligibleAssetTypes)) == IndexOf(shuffled, Some(p.eligibleAssetTypes))
  {
    DetectionLeavesKeysDistinct(points, p, iso);
    DetectionLeavesKeysDistinct(shuffled, p, iso);
    IndexFinds(points, Some(p.eligibleAssetTypes));
    IndexFinds(shuffled, Some(p.eligibleAssetTypes));
    SameElements(points, shuffled);
    var a := IndexOf(points, Some(p.eligibleAssetTypes)).rows;
    var b := IndexOf(shuffled, Some(p.eligibleAssetTypes)).rows;
    assert forall k :: k in a ==> k in b && b[k] == a[k];
    assert forall k :: k in b ==> k in a && b[k] == a[k];
    assert a == b;
  }

  /** The peak of one event goes before the peak of the other: by a larger rise, then by a
      larger contribution of a matching risk-up factor at the peak, then by the smaller id. */
  ghost predicate GoesBefore(points: seq<Point>, p: Policy, prefix: string, e: RiseEvent, f: RiseEvent) {
    exists x, y, a, b ::
      && AtPeak(points, p, e, x) && AtPeak(points, p, f, y)
      && TopContribution(x, prefix, a) && TopContribution(y, prefix, b)
      && (|| e.probabilityDelta > f.probabilityDelta
          || (e.probabilityDelta == f.probabilityDelta && a > b)
          || (e.probabilityDelta == f.probabilityDelta && a == b && StrLess(e.eventId, f.eventId)))
  }

  lemma EntriesGoBefore(points: seq<Point>, p: Policy, rows: map<(string, int), Point>, prefix: string, m: Entry,
      n: Entry)
    requires Indexes(rows, points, Some(p.eligibleAssetTypes))
    requires Matches(m.event, rows, prefix) && Matches(n.event, rows, prefix)
    requires m == EntryFor(m.event, rows, prefix) && n == EntryFor(n.event, rows, prefix) && Outranks(m, n)
    ensures GoesBefore(points, p, prefix, m.event, n.event)
  {
    var x, y := rows[(m.event.assetId, m.event.peakAt)], rows[(n.event.assetId, n.event.peakAt)];
    MaxOfIsTop(x, prefix);
    MaxOfIsTop(y, prefix);
    assert AtPeak(points, p, m.event, x) && AtPeak(points, p, n.event, y);
    assert TopContribution(x, prefix, m.contribution) && TopContribution(y, prefix, n.contribution);
  }

  /** Ranked events are in strict order of rise, contribution at the peak, and identifier. */
  lemma RankedInStrictOrder(points: seq<Point>, p: Policy, iso: int -> string, prefix: string, i: nat, j: nat)
    requires IsoFormat(iso) && 0.0 < p.minimumStep && Detect(points, p, iso).Detected?
    requires var r := Rank(Detect(points, p, iso).events, points, prefix, Some(p.eligibleAssetTypes));
      r.Ranked? && i < j < |r.events|
    ensures var r := Rank(Detect(points, p, iso).events, points, prefix, Some(p.eligibleAssetTypes));
      GoesBefore(points, p, prefix, r.events[i], r.events[j])
  {
    var events := Detect(points, p, iso).events;
    var rows := DetectionIndexes(points, p, iso);
    EventIdsAreUnique(points, p, iso);
    SortedEntriesStrict(events, rows, prefix);
    var entries := EntriesOf(events, rows, prefix).entries;
    var s := Sorted(entries, Outranks);
    OutranksOrders();
    SortedSorts(entries, Outranks);
    assert s[i] in multiset(s) && s[j] in multiset(s);
    EntriesCount(events, rows, prefix, s[i]);
    EntriesCount(events, rows, prefix, s[j]);
    EntriesGoBefore(points, p, rows, prefix, s[i], s[j]);
  }
}
