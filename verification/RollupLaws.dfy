/** What the rollup table tells about the raw observations, after one refresh and after any number. */
module RollupLaws {
  import opened Orders
  import opened Rollup
  import opened RollupRows

  // ----------------------------------------------------- scopes and windows

  /** The registered assets: each belongs to one scope, and its rows carry that scope. */
  type Owner = (string, string) -> Scope

  predicate Registered(obs: seq<Observation>, owner: Owner) {
    forall i | 0 <= i < |obs| :: obs[i].scope == owner(obs[i].dataset, obs[i].asset)
  }

  predicate AllRegistered(t: Tables, owner: Owner) {
    Registered(t.compressors, owner) && Registered(t.cncs, owner)
  }

  predicate RowsRegistered(rows: Rows, owner: Owner) {
    forall k | k in rows :: rows[k].scope == owner(k.dataset, k.asset)
  }

  /** The observations at or after the cutoff. */
  function Since(group: seq<Observation>, cutoff: int): (late: seq<Observation>)
    ensures |late| <= |group|
  {
    if group == [] then []
    else
      var n := |group| - 1;
      if group[n].at >= cutoff then Since(group[..n], cutoff) + [group[n]] else Since(group[..n], cutoff)
  }

  predicate AllSince(group: seq<Observation>, cutoff: int) {
    forall i | 0 <= i < |group| :: group[i].at >= cutoff
  }

  predicate AllBefore(group: seq<Observation>, cutoff: int) {
    forall i | 0 <= i < |group| :: group[i].at < cutoff
  }

  lemma {:induction false} SinceIsAllExactlyWhen(group: seq<Observation>, cutoff: int)
    ensures |Since(group, cutoff)| == |group| <==> AllSince(group, cutoff)
    ensures AllSince(group, cutoff) ==> Since(group, cutoff) == group
    ensures Since(group, cutoff) == [] <==> AllBefore(group, cutoff)
  {
    if group != [] {
      var n := |group| - 1;
      SinceIsAllExactlyWhen(group[..n], cutoff);
      assert group == group[..n] + [group[n]];
      assert forall i | 0 <= i < n :: group[..n][i] == group[i];
    }
  }

  lemma GroupOfNext(before: seq<Observation>, o: Observation, k: Key)
    ensures Group(before + [o], k) == if KeyOf(o) == k then Group(before, k) + [o] else Group(before, k)
  {
    assert (before + [o])[..|before|] == before;
  }

  lemma SinceOfNext(before: seq<Observation>, o: Observation, cutoff: int)
    ensures Since(before + [o], cutoff) == if o.at >= cutoff then Since(before, cutoff) + [o] else Since(before, cutoff)
  {
    assert (before + [o])[..|before|] == before;
  }

  /** Selecting and grouping commute, as all rows of an asset have its scope. */
  lemma {:induction false} WindowOfGroup(obs: seq<Observation>, owner: Owner, scope: Scope, cutoff: int, k: Key)
    requires Registered(obs, owner)
    ensures Group(InWindow(obs, scope, cutoff), k)
         == if owner(k.dataset, k.asset) == scope then Since(Group(obs, k), cutoff) else []
  {
    if obs != [] {
      var n := |obs| - 1;
      var o := obs[n];
      WindowOfGroup(obs[..n], owner, scope, cutoff, k);
      GroupOfNext(InWindow(obs[..n], scope, cutoff), o, k);
      SinceOfNext(Group(obs[..n], k), o, cutoff);
    }
  }

  lemma CountedIs(t: Tables, owner: Owner, scope: Scope, cutoff: int, k: Key)
    requires AllRegistered(t, owner)
    ensures Counted(t, scope, cutoff, k)
         == if owner(k.dataset, k.asset) == scope then Since(Group(TableOf(t, k.kind), k), cutoff) else []
  {
    WindowOfGroup(TableOf(t, k.kind), owner, scope, cutoff, k);
  }

  lemma BucketInWindow(obs: seq<Observation>, k: Key, cutoff: int)
    requires k.bucket >= cutoff
    ensures AllSince(Group(obs, k), cutoff)
  {
    assert forall i | 0 <= i < |Group(obs, k)| :: KeyOf(Group(obs, k)[i]).bucket == k.bucket;
  }

  // --------------------------------------------------------------- one refresh

  lemma RefreshKeepsRegistration(rows: Rows, t: Tables, owner: Owner, scope: Scope, historyHours: int, now: int)
    requires WellTyped(t) && AllRegistered(t, owner) && RowsRegistered(rows, owner)
    ensures RowsRegistered(Refreshed(rows, t, scope, historyHours, now), owner)
  {
    var after := Refreshed(rows, t, scope, historyHours, now);
    forall k | k in after
      ensures after[k].scope == owner(k.dataset, k.asset)
    {
      RefreshedRow(rows, t, scope, historyHours, now, k);
      CountedIs(t, owner, scope, Cutoff(historyHours, now), k);
    }
  }

  /** What grouping all raw observations of the key gives. */
  function DirectRow(t: Tables, k: Key, scope: Scope, now: int): Row
    requires Group(TableOf(t, k.kind), k) != []
  {
    GroupIsOfKind(TableOf(t, k.kind), k);
    Aggregate(Group(TableOf(t, k.kind), k), k.kind, scope, now)
  }

  /** A touched row equals direct grouping, and counts the whole group, exactly when no
      observation of its hour lies before the cutoff. */
  lemma RowAgreesExactlyWhen(rows: Rows, t: Tables, owner: Owner, scope: Scope, historyHours: int, now: int, k: Key)
    requires WellTyped(t) && AllRegistered(t, owner) && RowsRegistered(rows, owner)
    requires owner(k.dataset, k.asset) == scope
    requires !AllBefore(Group(TableOf(t, k.kind), k), Cutoff(historyHours, now))
    ensures var after, group := Refreshed(rows, t, scope, historyHours, now), Group(TableOf(t, k.kind), k);
      && k in after
      && (after[k] == DirectRow(t, k, scope, now) <==> AllSince(group, Cutoff(historyHours, now)))
      && (after[k].sampleCount == |group| <==> AllSince(group, Cutoff(historyHours, now)))
  {
    var group, cutoff := Group(TableOf(t, k.kind), k), Cutoff(historyHours, now);
    CountedIs(t, owner, scope, cutoff, k);
    SinceIsAllExactlyWhen(group, cutoff);
    RefreshedRow(rows, t, scope, historyHours, now, k);
  }

  /** Which raw observations a refresh counts for a key: those of its table with its data
      set, asset and scope, of its hour, and of the last hours of the history, at least 24. */
  predicate CountsFor(o: Observation, k: Key, scope: Scope, historyHours: int, now: int) {
    && o.dataset == k.dataset && o.asset == k.asset && o.scope == scope
    && (o.reading.Cnc? <==> k.kind == CncAsset)
    && k.bucket % 3_600_000_000 == 0 && k.bucket <= o.at < k.bucket + 3_600_000_000
    && (o.at >= now - 24 * 3_600_000_000 || o.at >= now - historyHours * 3_600_000_000)
  }

  lemma HourIsBucket(at: int, bucket: int)
    ensures bucket == Bucket(at) <==> bucket % 3_600_000_000 == 0 && bucket <= at < bucket + 3_600_000_000
  {
    if bucket % 3_600_000_000 == 0 && bucket <= at < bucket + 3_600_000_000 {
      var n := bucket / 3_600_000_000;
      assert bucket == n * 3_600_000_000;
      assert at / 3_600_000_000 == n;
    }
  }

  lemma CountsMeans(o: Observation, k: Key, scope: Scope, historyHours: int, now: int)
    ensures CountsFor(o, k, scope, historyHours, now)
       <==> KeyOf(o) == k && o.scope == scope && o.at >= Cutoff(historyHours, now)
  {
    HourIsBucket(o.at, k.bucket);
  }

  lemma CountedAre(t: Tables, scope: Scope, historyHours: int, now: int, k: Key, o: Observation)
    ensures multiset(Counted(t, scope, Cutoff(historyHours, now), k))[o]
         == if CountsFor(o, k, scope, historyHours, now) then multiset(TableOf(t, k.kind))[o] else 0
  {
    WindowCounts(TableOf(t, k.kind), scope, Cutoff(historyHours, now), o);
    GroupCounts(InWindow(TableOf(t, k.kind), scope, Cutoff(historyHours, now)), k, o);
    CountsMeans(o, k, scope, historyHours, now);
  }

  /** What a refresh makes of the table, told by the raw observations: a row is touched
      exactly when one counts for its key, and then it summarises all those that count. */
  lemma RefreshTells(rows: Rows, t: Tables, scope: Scope, historyHours: int, now: int, k: Key)
    returns (counted: seq<Observation>)
    requires WellTyped(t)
    ensures forall o ::
      multiset(counted)[o]
      == if CountsFor(o, k, scope, historyHours, now)
         then multiset(if k.kind == CncAsset then t.cncs else t.compressors)[o] else 0
    ensures OfKind(counted, k.kind)
    ensures var after := Refreshed(rows, t, scope, historyHours, now);
      if counted == [] then (k in after <==> k in rows) && (k in rows ==> after[k] == rows[k])
      else
        && k in after && Summarises(after[k], counted, k.kind) && after[k].refreshedAt == now
        && after[k].scope == (if k in rows then rows[k].scope else scope)
  {
    counted := Counted(t, scope, Cutoff(historyHours, now), k);
    forall o
      ensures multiset(counted)[o] ==
        if CountsFor(o, k, scope, historyHours, now) then multiset(TableOf(t, k.kind))[o] else 0
    {
      CountedAre(t, scope, historyHours, now, k, o);
    }
    RefreshedRow(rows, t, scope, historyHours, now, k);
    GroupIsOfKind(InWindow(TableOf(t, k.kind), scope, Cutoff(historyHours, now)), k);
    if counted != [] {
      AggregateTells(counted, k.kind, if k in rows then rows[k].scope else scope, now);
    }
  }

  /** Every key whose hour starts in the window holds the aggregate of all its observations. */
  lemma RefreshAgreesWithGrouping(rows: Rows, t: Tables, owner: Owner, scope: Scope, historyHours: int, now: int,
      k: Key)
    requires WellTyped(t) && AllRegistered(t, owner) && RowsRegistered(rows, owner)
    requires owner(k.dataset, k.asset) == scope && Group(TableOf(t, k.kind), k) != []
    requires k.bucket >= Cutoff(historyHours, now)
    ensures var after := Refreshed(rows, t, scope, historyHours, now);
      k in after && after[k] == DirectRow(t, k, scope, now)
  {
    var table := TableOf(t, k.kind);
    BucketInWindow(table, k, Cutoff(historyHours, now));
    assert Group(table, k)[0].at >= Cutoff(historyHours, now);
    RowAgreesExactlyWhen(rows, t, owner, scope, historyHours, now, k);
  }

  /** When a later refresh selects the same observations of a key, only the time of the
      refresh changes in its row. */
  lemma LaterRefreshOnlyStamps(rows: Rows, t: Tables, scope: Scope, historyHours: int, now: int, later: int, k: Key)
    requires WellTyped(t)
    requires Counted(t, scope, Cutoff(historyHours, now), k) == Counted(t, scope, Cutoff(historyHours, later), k)
    ensures var once := Refreshed(rows, t, scope, historyHours, now);
      var again := Refreshed(once, t, scope, historyHours, later);
      var touched := Counted(t, scope, Cutoff(historyHours, now), k) != [];
      && (k in again <==> k in once)
      && (k in once ==> again[k] == (if touched then once[k].(refreshedAt := later) else once[k]))
      && (touched ==> k in once && once[k].refreshedAt == now)
  {
    var once := Refreshed(rows, t, scope, historyHours, now);
    RefreshedRow(rows, t, scope, historyHours, now, k);
    RefreshedRow(once, t, scope, historyHours, later, k);
  }

  predicate SameAt(a: Rows, b: Rows, k: Key) {
    (k in a <==> k in b) && (k in a ==> a[k] == b[k])
  }

  lemma SameEverywhere(a: Rows, b: Rows)
    requires forall k :: SameAt(a, b, k)
    ensures a == b
  {
    forall k
      ensures (k in a <==> k in b) && (k in a ==> a[k] == b[k])
    {
      assert SameAt(a, b, k);
    }
  }

  /** At the same clock a second refresh changes nothing. */
  lemma RefreshIsIdempotent(rows: Rows, t: Tables, scope: Scope, historyHours: int, now: int)
    requires WellTyped(t)
    ensures var once := Refreshed(rows, t, scope, historyHours, now);
      Refreshed(once, t, scope, historyHours, now) == once
  {
    var once := Refreshed(rows, t, scope, historyHours, now);
    forall k
      ensures SameAt(Refreshed(once, t, scope, historyHours, now), once, k)
    {
      LaterRefreshOnlyStamps(rows, t, scope, historyHours, now, now, k);
    }
    SameEverywhere(Refreshed(once, t, scope, historyHours, now), once);
  }

  lemma RowIgnoresRowOrder(rows: Rows, t: Tables, shuffled: Tables, scope: Scope, historyHours: int, now: int, k: Key)
    requires WellTyped(t) && WellTyped(shuffled)
    requires multiset(TableOf(t, k.kind)) == multiset(TableOf(shuffled, k.kind))
    ensures SameAt(Refreshed(rows, t, scope, historyHours, now), Refreshed(rows, shuffled, scope, historyHours, now), k)
  {
    var cutoff := Cutoff(historyHours, now);
    var a, b := Counted(t, scope, cutoff, k), Counted(shuffled, scope, cutoff, k);
    SelectedGroupIgnoresOrder(TableOf(t, k.kind), TableOf(shuffled, k.kind), scope, cutoff, k);
    RefreshedRow(rows, t, scope, historyHours, now, k);
    RefreshedRow(rows, shuffled, scope, historyHours, now, k);
    SameElements(a, b);
    if a != [] {
      AggregateIgnoresOrder(a, b, k.kind, if k in rows then rows[k].scope else scope, now);
    }
  }

  /** The order of the rows in the raw tables does not matter. */
  lemma RefreshIgnoresRowOrder(rows: Rows, t: Tables, shuffled: Tables, scope: Scope, historyHours: int, now: int)
    requires WellTyped(t) && WellTyped(shuffled)
    requires multiset(t.compressors) == multiset(shuffled.compressors) && multiset(t.cncs) == multiset(shuffled.cncs)
    ensures Refreshed(rows, t, scope, historyHours, now) == Refreshed(rows, shuffled, scope, historyHours, now)
  {
    forall k
      ensures var after := Refreshed(rows, t, scope, historyHours, now);
        SameAt(after, Refreshed(rows, shuffled, scope, historyHours, now), k)
    {
      RowIgnoresRowOrder(rows, t, shuffled, scope, historyHours, now, k);
    }
    SameEverywhere(Refreshed(rows, t, scope, historyHours, now), Refreshed(rows, shuffled, scope, historyHours, now));
  }

  // ------------------------------------------------------------------- conservation

  function SampleTotal(rows: Rows, keys: seq<Key>): nat
    requires forall k | k in keys :: k in rows
  {
    if keys == [] then 0
    else rows[keys[0]].sampleCount + SampleTotal(rows, keys[1..])
  }

  function GroupTotal(obs: seq<Observation>, keys: seq<Key>): nat {
    if keys == [] then 0 else |Group(obs, keys[0])| + GroupTotal(obs, keys[1..])
  }

  lemma {:induction false} OneMoreCounts(obs: seq<Observation>, keys: seq<Key>)
    requires obs != [] && Distinct(keys)
    ensures GroupTotal(obs, keys) == GroupTotal(obs[..|obs| - 1], keys) + if KeyOf(obs[|obs| - 1]) in keys then 1 else 0
  {
    if keys != [] {
      OneMoreCounts(obs, keys[1..]);
      assert forall i | 0 <= i < |keys[1..]| :: keys[1..][i] != keys[0];
      assert keys == [keys[0]] + keys[1..];
    }
  }

  lemma {:induction false} GroupsPartition(obs: seq<Observation>, keys: seq<Key>)
    requires Distinct(keys) && forall i | 0 <= i < |obs| :: KeyOf(obs[i]) in keys
    ensures GroupTotal(obs, keys) == |obs|
  {
    if obs == [] {
      NoneCount(keys);
    } else {
      OneMoreCounts(obs, keys);
      GroupsPartition(obs[..|obs| - 1], keys);
    }
  }

  lemma {:induction false} NoneCount(keys: seq<Key>)
    ensures GroupTotal([], keys) == 0
  {
    if keys != [] {
      NoneCount(keys[1..]);
    }
  }

  lemma {:induction false} OwnKeyHasGroup(obs: seq<Observation>, i: nat)
    requires i < |obs|
    ensures Group(obs, KeyOf(obs[i])) != []
  {
    var n := |obs| - 1;
    if i < n {
      OwnKeyHasGroup(obs[..n], i);
    }
  }

  lemma {:induction false} TotalsAgree(rows: Rows, obs: seq<Observation>, keys: seq<Key>)
    requires forall k | k in keys :: k in rows && rows[k].sampleCount == |Group(obs, k)|
    ensures SampleTotal(rows, keys) == GroupTotal(obs, keys)
  {
    if keys != [] {
      TotalsAgree(rows, obs, keys[1..]);
    }
  }

  /** The touched rows of each asset type together count every selected observation once. */
  lemma SamplesAreConserved(rows: Rows, t: Tables, scope: Scope, historyHours: int, now: int, kind: AssetType)
    requires WellTyped(t)
    ensures var after := Refreshed(rows, t, scope, historyHours, now);
      var selected := InWindow(TableOf(t, kind), scope, Cutoff(historyHours, now));
      && (forall k | k in GroupKeys(selected) :: k in after)
      && SampleTotal(after, GroupKeys(selected)) == |selected|
  {
    var after := Refreshed(rows, t, scope, historyHours, now);
    var selected := InWindow(TableOf(t, kind), scope, Cutoff(historyHours, now));
    var keys := GroupKeys(selected);
    WindowIsOfKind(TableOf(t, kind), scope, Cutoff(historyHours, now), kind);
    forall k | k in keys
      ensures k in after && after[k].sampleCount == |Group(selected, k)|
    {
      if k.kind != kind {
        OtherKindHasNoGroup(selected, kind, k);
      }
      RefreshedRow(rows, t, scope, historyHours, now, k);
    }
    forall i | 0 <= i < |selected|
      ensures KeyOf(selected[i]) in keys
    {
      OwnKeyHasGroup(selected, i);
    }
    GroupsPartition(selected, keys);
    TotalsAgree(after, selected, keys);
  }

  // -------------------------------------------------------------- many refreshes

  /** The state of the raw tables at one refresh of the watching worker. */
  datatype Tick = Tick(tables: Tables, now: int)

  function Run(rows: Rows, ticks: seq<Tick>, scope: Scope, historyHours: int): Rows {
    if ticks == [] then rows
    else
      var last := ticks[|ticks| - 1];
      Refreshed(Run(rows, ticks[..|ticks| - 1], scope, historyHours), last.tables, scope, historyHours, last.now)
  }

  predicate Sound(ticks: seq<Tick>, owner: Owner) {
    forall i | 0 <= i < |ticks| :: WellTyped(ticks[i].tables) && AllRegistered(ticks[i].tables, owner)
  }

  function CountedAt(tick: Tick, scope: Scope, historyHours: int, k: Key): seq<Observation> {
    Counted(tick.tables, scope, Cutoff(historyHours, tick.now), k)
  }

  /** The last refresh that saw observations of the key in its window, or -1. */
  function LastTouch(ticks: seq<Tick>, scope: Scope, historyHours: int, k: Key): (i: int)
    ensures -1 <= i < |ticks| && (i >= 0 ==> CountedAt(ticks[i], scope, historyHours, k) != [])
    ensures forall j | i < j < |ticks| :: CountedAt(ticks[j], scope, historyHours, k) == []
  {
    if ticks == [] then -1
    else
      var n := |ticks| - 1;
      if CountedAt(ticks[n], scope, historyHours, k) != [] then n else LastTouch(ticks[..n], scope, historyHours, k)
  }

  lemma {:induction false} RunKeepsRegistration(rows: Rows, ticks: seq<Tick>, owner: Owner, scope: Scope,
      historyHours: int)
    requires Sound(ticks, owner) && RowsRegistered(rows, owner)
    ensures RowsRegistered(Run(rows, ticks, scope, historyHours), owner)
  {
    if ticks != [] {
      var n := |ticks| - 1;
      RunKeepsRegistration(rows, ticks[..n], owner, scope, historyHours);
      RefreshKeepsRegistration(Run(rows, ticks[..n], scope, historyHours), ticks[n].tables, owner, scope, historyHours,
          ticks[n].now);
    }
  }

  /** The row that `counted` gives. */
  function RowOf(counted: seq<Observation>, k: Key, scope: Scope, now: int): Row
    requires counted != [] && OfKind(counted, k.kind)
  {
    Aggregate(counted, k.kind, scope, now)
  }

  lemma TouchedBelongsToScope(t: Tables, owner: Owner, scope: Scope, cutoff: int, k: Key)
    requires AllRegistered(t, owner) && Counted(t, scope, cutoff, k) != []
    ensures owner(k.dataset, k.asset) == scope
  {
    CountedIs(t, owner, scope, cutoff, k);
  }

  /** What one refresh makes of a row whose key is registered in its scope. */
  lemma RowAfterTick(before: Rows, tick: Tick, owner: Owner, scope: Scope, historyHours: int, k: Key)
    requires WellTyped(tick.tables) && AllRegistered(tick.tables, owner) && RowsRegistered(before, owner)
    ensures var after := Refreshed(before, tick.tables, scope, historyHours, tick.now);
      var counted := CountedAt(tick, scope, historyHours, k);
      if counted != [] then
        OfKind(counted, k.kind) && k in after && after[k] == RowOf(counted, k, scope, tick.now)
      else (k in after <==> k in before) && (k in before ==> after[k] == before[k])
  {
    RefreshedRow(before, tick.tables, scope, historyHours, tick.now, k);
    if CountedAt(tick, scope, historyHours, k) != [] {
      TouchedBelongsToScope(tick.tables, owner, scope, Cutoff(historyHours, tick.now), k);
    }
  }

  /** After any run a row is what the last refresh made of it that saw its observations. */
  lemma {:induction false} RowAfterRun(rows: Rows, ticks: seq<Tick>, owner: Owner, scope: Scope, historyHours: int,
      k: Key)
    requires Sound(ticks, owner) && RowsRegistered(rows, owner)
    ensures var after, i := Run(rows, ticks, scope, historyHours), LastTouch(ticks, scope, historyHours, k);
      if i >= 0 then
        var counted := CountedAt(ticks[i], scope, historyHours, k);
        OfKind(counted, k.kind) && k in after && after[k] == RowOf(counted, k, scope, ticks[i].now)
      else (k in after <==> k in rows) && (k in rows ==> after[k] == rows[k])
  {
    if ticks != [] {
      var n := |ticks| - 1;
      RowAfterRun(rows, ticks[..n], owner, scope, historyHours, k);
      RunKeepsRegistration(rows, ticks[..n], owner, scope, historyHours);
      RowAfterTick(Run(rows, ticks[..n], scope, historyHours), ticks[n], owner, scope, historyHours, k);
    }
  }

  /** The hour is wholly in the window, or wholly out of it. */
  predicate NotStraddled(group: seq<Observation>, cutoff: int) {
    AllSince(group, cutoff) || AllBefore(group, cutoff)
  }

  function CutoffAt(ticks: seq<Tick>, historyHours: int, i: nat): int
    requires i < |ticks|
  {
    Cutoff(historyHours, ticks[i].now)
  }

  lemma LastCutoffDecides(group: seq<Observation>, cutoffs: seq<int>, last: nat)
    requires last < |cutoffs| && !AllBefore(group, cutoffs[last])
    requires forall i, j | 0 <= i < j < |cutoffs| :: cutoffs[i] <= cutoffs[j]
    requires forall i | last < i < |cutoffs| :: AllBefore(group, cutoffs[i])
    ensures AllSince(group, cutoffs[last]) <==> forall i | 0 <= i < |cutoffs| :: NotStraddled(group, cutoffs[i])
  {
    if AllSince(group, cutoffs[last]) {
      forall i | 0 <= i < |cutoffs|
        ensures NotStraddled(group, cutoffs[i])
      {
        if i <= last {
          assert cutoffs[i] <= cutoffs[last];
        }
      }
    } else {
      assert !NotStraddled(group, cutoffs[last]);
    }
  }

  lemma CountedOfGroup(tick: Tick, owner: Owner, scope: Scope, historyHours: int, k: Key, group: seq<Observation>)
    requires AllRegistered(tick.tables, owner) && owner(k.dataset, k.asset) == scope
    requires Group(TableOf(tick.tables, k.kind), k) == group
    ensures var cutoff, counted := Cutoff(historyHours, tick.now), CountedAt(tick, scope, historyHours, k);
      && (counted == [] <==> AllBefore(group, cutoff))
      && (|counted| == |group| <==> AllSince(group, cutoff))
  {
    CountedIs(tick.tables, owner, scope, Cutoff(historyHours, tick.now), k);
    SinceIsAllExactlyWhen(group, Cutoff(historyHours, tick.now));
  }

  function Cutoffs(ticks: seq<Tick>, historyHours: int): (cutoffs: seq<int>)
    ensures |cutoffs| == |ticks| && forall i | 0 <= i < |ticks| :: cutoffs[i] == CutoffAt(ticks, historyHours, i)
  {
    seq(|ticks|, i requires 0 <= i < |ticks| => CutoffAt(ticks, historyHours, i))
  }

  /** From the last refresh that saw observations of the hour on, all of them are too old. */
  lemma HourIsPassed(ticks: seq<Tick>, owner: Owner, scope: Scope, historyHours: int, k: Key, group: seq<Observation>,
      i: nat)
    requires Sound(ticks, owner) && owner(k.dataset, k.asset) == scope && i < |ticks|
    requires Group(TableOf(ticks[i].tables, k.kind), k) == group
    requires i >= LastTouch(ticks, scope, historyHours, k)
    ensures AllBefore(group, Cutoffs(ticks, historyHours)[i]) <==> i != LastTouch(ticks, scope, historyHours, k)
  {
    CountedOfGroup(ticks[i], owner, scope, historyHours, k, group);
  }

  lemma CutoffsDecide(ticks: seq<Tick>, owner: Owner, scope: Scope, historyHours: int, k: Key, group: seq<Observation>)
    requires Sound(ticks, owner) && owner(k.dataset, k.asset) == scope
    requires forall i | 0 <= i < |ticks| :: Group(TableOf(ticks[i].tables, k.kind), k) == group
    requires forall i, j | 0 <= i < j < |ticks| :: ticks[i].now <= ticks[j].now
    requires LastTouch(ticks, scope, historyHours, k) >= 0
    ensures AllSince(group, CutoffAt(ticks, historyHours, LastTouch(ticks, scope, historyHours, k))) <==>
      forall i | 0 <= i < |ticks| :: NotStraddled(group, CutoffAt(ticks, historyHours, i))
  {
    var last, cutoffs := LastTouch(ticks, scope, historyHours, k), Cutoffs(ticks, historyHours);
    forall i | last <= i < |ticks|
      ensures AllBefore(group, cutoffs[i]) <==> i != last
    {
      HourIsPassed(ticks, owner, scope, historyHours, k, group, i);
    }
    LastCutoffDecides(group, cutoffs, last);
  }

  lemma CountAfterRun(rows: Rows, ticks: seq<Tick>, owner: Owner, scope: Scope, historyHours: int, k: Key)
    requires Sound(ticks, owner) && RowsRegistered(rows, owner) && LastTouch(ticks, scope, historyHours, k) >= 0
    ensures var after, last := Run(rows, ticks, scope, historyHours), LastTouch(ticks, scope, historyHours, k);
      k in after && after[k].sampleCount == |CountedAt(ticks[last], scope, historyHours, k)|
  {
    RowAfterRun(rows, ticks, owner, scope, historyHours, k);
  }

  /** After a run of refreshes over the same observations of an hour its row counts all
      of them exactly when no refresh came while the hour was leaving the window. */
  lemma RowIsWholeAfterRunExactlyWhen(rows: Rows, ticks: seq<Tick>, owner: Owner, scope: Scope, historyHours: int,
      k: Key,
                                      group: seq<Observation>)
    requires Sound(ticks, owner) && RowsRegistered(rows, owner) && owner(k.dataset, k.asset) == scope
    requires forall i | 0 <= i < |ticks| :: Group(TableOf(ticks[i].tables, k.kind), k) == group
    requires forall i, j | 0 <= i < j < |ticks| :: ticks[i].now <= ticks[j].now
    requires LastTouch(ticks, scope, historyHours, k) >= 0
    ensures var after := Run(rows, ticks, scope, historyHours);
      && k in after
      && (after[k].sampleCount == |group| <==>
          forall i | 0 <= i < |ticks| :: NotStraddled(group, CutoffAt(ticks, historyHours, i)))
  {
    var last := LastTouch(ticks, scope, historyHours, k);
    CountAfterRun(rows, ticks, owner, scope, historyHours, k);
    CutoffsDecide(ticks, owner, scope, historyHours, k, group);
    CountedOfGroup(ticks[last], owner, scope, historyHours, k, group);
  }
}
