/** The table of hourly rollups, refreshed in place from the raw observations. */
module Rollup {
  import opened Orders
  import opened RollupRows

  /** The raw tables. */
  datatype Tables = Tables(compressors: seq<Observation>, cncs: seq<Observation>)

  predicate WellTyped(t: Tables) {
    OfKind(t.compressors, CompressorAsset) && OfKind(t.cncs, CncAsset)
  }

  function TableOf(t: Tables, kind: AssetType): seq<Observation> {
    if kind == CompressorAsset then t.compressors else t.cncs
  }

  type Rows = map<Key, Row>

  function Cutoff(historyHours: int, now: int): int {
    now - (if historyHours < 24 then 24 else historyHours) * HOUR
  }

  /** The keys of the groups. */
  function GroupKeys(obs: seq<Observation>): (keys: seq<Key>)
    ensures Distinct(keys) && forall k :: k in keys <==> Group(obs, k) != []
  {
    if obs == [] then []
    else
      var n := |obs| - 1;
      var before := GroupKeys(obs[..n]);
      if KeyOf(obs[n]) in before then before else before + [KeyOf(obs[n])]
  }

  /** The group of a key is of the key's asset type. */
  lemma GroupIsOfKind(obs: seq<Observation>, k: Key)
    ensures OfKind(Group(obs, k), k.kind)
  {
    assert forall i | 0 <= i < |Group(obs, k)| :: KeyOf(Group(obs, k)[i]).kind == k.kind;
  }

  /** `INSERT … ON CONFLICT … DO UPDATE` of the group of `k`: a row that is there keeps its scope. */
  function Upserted(rows: Rows, obs: seq<Observation>, k: Key, scope: Scope, now: int): (row: Row)
    requires Group(obs, k) != []
  {
    GroupIsOfKind(obs, k);
    Aggregate(Group(obs, k), k.kind, if k in rows then rows[k].scope else scope, now)
  }

  predicate HaveGroups(obs: seq<Observation>, keys: seq<Key>) {
    forall i | 0 <= i < |keys| :: Group(obs, keys[i]) != []
  }

  /** The table after the upserts of the groups of `keys`. */
  function UpsertedFor(rows: Rows, obs: seq<Observation>, keys: seq<Key>, scope: Scope, now: int): Rows
    requires HaveGroups(obs, keys)
  {
    map k | k in rows.Keys + (set key | key in keys) ::
      if k in keys then Upserted(rows, obs, k, scope, now) else rows[k]
  }

  function AllUpserted(rows: Rows, obs: seq<Observation>, scope: Scope, now: int): Rows {
    assert forall i | 0 <= i < |GroupKeys(obs)| :: GroupKeys(obs)[i] in GroupKeys(obs);
    UpsertedFor(rows, obs, GroupKeys(obs), scope, now)
  }

  lemma UpsertedForNext(rows: Rows, obs: seq<Observation>, keys: seq<Key>, k: Key, scope: Scope, now: int)
    requires HaveGroups(obs, keys) && Group(obs, k) != [] && k !in keys
    ensures HaveGroups(obs, keys + [k])
    ensures UpsertedFor(rows, obs, keys + [k], scope, now)
         == UpsertedFor(rows, obs, keys, scope, now)[k := Upserted(rows, obs, k, scope, now)]
  {
  }

  /** The table after one refresh. */
  function Refreshed(rows: Rows, t: Tables, scope: Scope, historyHours: int, now: int): Rows {
    var cutoff := Cutoff(historyHours, now);
    AllUpserted(AllUpserted(rows, InWindow(t.compressors, scope, cutoff), scope, now),
                InWindow(t.cncs, scope, cutoff), scope, now)
  }

  class RollupTable {
    var rows: Rows

    constructor ()
      ensures rows == map[]
    {
      rows := map[];
    }

    /** One statement: an upsert for each group. */
    method Upsert(obs: seq<Observation>, scope: Scope, now: int) returns (count: nat)
      modifies this
      ensures rows == AllUpserted(old(rows), obs, scope, now)
      ensures count == |GroupKeys(obs)|
    {
      var keys := GroupKeys(obs);
      for n := 0 to |keys|
        invariant HaveGroups(obs, keys[..n])
        invariant rows == UpsertedFor(old(rows), obs, keys[..n], scope, now)
      {
        var k := keys[n];
        assert k in keys && keys[..n + 1] == keys[..n] + [k];
        GroupIsOfKind(obs, k);
        UpsertedForNext(old(rows), obs, keys[..n], k, scope, now);
        var group := Group(obs, k);
        if k in rows {
          rows := rows[k := Aggregate(group, k.kind, rows[k].scope, now)];
        } else {
          rows := rows[k := Aggregate(group, k.kind, scope, now)];
        }
      }
      assert keys[..|keys|] == keys;
      return |keys|;
    }

    /** `refresh_once`; `now` is the clock of the transaction. */
    method RefreshOnce(t: Tables, scope: Scope, historyHours: int, now: int) returns (compressorRows: nat, cncRows: nat)
      modifies this
      ensures rows == Refreshed(old(rows), t, scope, historyHours, now)
      ensures compressorRows == |GroupKeys(InWindow(t.compressors, scope, Cutoff(historyHours, now)))|
      ensures cncRows == |GroupKeys(InWindow(t.cncs, scope, Cutoff(historyHours, now)))|
    {
      var cutoff := Cutoff(historyHours, now);
      compressorRows := Upsert(InWindow(t.compressors, scope, cutoff), scope, now);
      cncRows := Upsert(InWindow(t.cncs, scope, cutoff), scope, now);
    }
  }

  // --------------------------------------------------------------- one row

  /** A table of one asset type has no groups of the other. */
  lemma {:induction false} OtherKindHasNoGroup(obs: seq<Observation>, kind: AssetType, k: Key)
    requires OfKind(obs, kind) && k.kind != kind
    ensures Group(obs, k) == []
  {
    if obs != [] {
      OtherKindHasNoGroup(obs[..|obs| - 1], kind, k);
      assert KindOf(obs[|obs| - 1].reading) == kind;
    }
  }

  lemma {:induction false} WindowIsOfKind(obs: seq<Observation>, scope: Scope, cutoff: int, kind: AssetType)
    requires OfKind(obs, kind)
    ensures OfKind(InWindow(obs, scope, cutoff), kind)
  {
    var selected := InWindow(obs, scope, cutoff);
    forall i | 0 <= i < |selected|
      ensures KindOf(selected[i].reading) == kind
    {
      assert selected[i] in obs;
    }
  }

  /** What the refresh at `cutoff` counts for `k`. */
  function Counted(t: Tables, scope: Scope, cutoff: int, k: Key): seq<Observation> {
    Group(InWindow(TableOf(t, k.kind), scope, cutoff), k)
  }

  /** A refresh sets exactly the rows it has observations for. */
  lemma RefreshedRow(rows: Rows, t: Tables, scope: Scope, historyHours: int, now: int, k: Key)
    requires WellTyped(t)
    ensures var after := Refreshed(rows, t, scope, historyHours, now);
      var counted := Counted(t, scope, Cutoff(historyHours, now), k);
      if counted != [] then
        && OfKind(counted, k.kind) && k in after
        && after[k] == Aggregate(counted, k.kind, if k in rows then rows[k].scope else scope, now)
      else (k in after <==> k in rows) && (k in rows ==> after[k] == rows[k])
  {
    var cutoff := Cutoff(historyHours, now);
    var first, second := InWindow(t.compressors, scope, cutoff), InWindow(t.cncs, scope, cutoff);
    WindowIsOfKind(t.compressors, scope, cutoff, CompressorAsset);
    WindowIsOfKind(t.cncs, scope, cutoff, CncAsset);
    GroupIsOfKind(first, k);
    GroupIsOfKind(second, k);
    if k.kind == CompressorAsset {
      OtherKindHasNoGroup(second, CncAsset, k);
    } else {
      OtherKindHasNoGroup(first, CompressorAsset, k);
    }
  }
}
