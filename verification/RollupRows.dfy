/** Raw observations, their hourly groups, and the aggregate row of a group. */
module RollupRows {
  import opened Options
  import opened Orders

  /** Organization, project and workspace. */
  datatype Scope = Scope(organization: string, project: string, workspace: string)

  datatype AssetType = CompressorAsset | CncAsset

  datatype Reading =
    | Compressor(voltageRaw: real, rotationRaw: real, pressureRaw: real, vibrationRaw: real, relativeVibrationZ: real)
    | Cnc(productType: string, airTemperatureK: real, processTemperatureK: real, rotationalSpeedRpm: real,
          torqueNm: real, toolWearMin: real)

  /** A raw row; times are microseconds since 1970. */
  datatype Observation = Observation(
    scope: Scope, dataset: string, asset: string, at: int, site: string, cell: string, operating: bool,
    sha: string, reading: Reading)

  /** The columns that are averaged. */
  datatype Measure =
    | VoltageRaw | RotationRaw | PressureRaw | VibrationRaw | RelativeVibrationZ
    | AirTemperatureK | ProcessTemperatureK | RotationalSpeedRpm | TorqueNm | ToolWearMin
    | PowerW | TemperatureGapK | OverstrainLoad

  datatype Key = Key(dataset: string, asset: string, kind: AssetType, bucket: int)

  datatype Row = Row(
    scope: Scope, site: string, cell: string, operating: bool, sampleCount: nat, sha: string,
    productType: Option<string>, measurements: map<Measure, real>, derived: map<Measure, real>, refreshedAt: int)

  const HOUR: int := 3_600_000_000
  const PI: real := 3.141592653589793

  function KindOf(r: Reading): AssetType {
    if r.Compressor? then CompressorAsset else CncAsset
  }

  function Measured(kind: AssetType): set<Measure> {
    match kind
    case CompressorAsset => {VoltageRaw, RotationRaw, PressureRaw, VibrationRaw, RelativeVibrationZ}
    case CncAsset => {AirTemperatureK, ProcessTemperatureK, RotationalSpeedRpm, TorqueNm, ToolWearMin}
  }

  function Derived(kind: AssetType): set<Measure> {
    match kind
    case CompressorAsset => {}
    case CncAsset => {PowerW, TemperatureGapK, OverstrainLoad}
  }

  function Value(r: Reading, m: Measure): real
    requires m in Measured(KindOf(r)) + Derived(KindOf(r))
  {
    match m
    case VoltageRaw => r.voltageRaw
    case RotationRaw => r.rotationRaw
    case PressureRaw => r.pressureRaw
    case VibrationRaw => r.vibrationRaw
    case RelativeVibrationZ => r.relativeVibrationZ
    case AirTemperatureK => r.airTemperatureK
    case ProcessTemperatureK => r.processTemperatureK
    case RotationalSpeedRpm => r.rotationalSpeedRpm
    case TorqueNm => r.torqueNm
    case ToolWearMin => r.toolWearMin
    case PowerW => r.torqueNm * r.rotationalSpeedRpm * 2.0 * PI / 60.0
    case TemperatureGapK => r.processTemperatureK - r.airTemperatureK
    case OverstrainLoad => r.toolWearMin * r.torqueNm
  }

  /** `date_bin` to the full hour. */
  function Bucket(at: int): (start: int)
    ensures start <= at < start + HOUR && start % HOUR == 0
  {
    at - at % HOUR
  }

  function KeyOf(o: Observation): Key {
    Key(o.dataset, o.asset, KindOf(o.reading), Bucket(o.at))
  }

  /** The rows of one key, as `GROUP BY` collects them. */
  function Group(obs: seq<Observation>, k: Key): (group: seq<Observation>)
    ensures forall i | 0 <= i < |group| :: KeyOf(group[i]) == k
  {
    if obs == [] then []
    else
      var n := |obs| - 1;
      if KeyOf(obs[n]) == k then Group(obs[..n], k) + [obs[n]] else Group(obs[..n], k)
  }

  /** The rows of one scope from the cutoff on, as `WHERE` selects them. */
  function InWindow(obs: seq<Observation>, scope: Scope, cutoff: int): (selected: seq<Observation>)
    ensures forall i | 0 <= i < |selected| :: selected[i].scope == scope && selected[i].at >= cutoff
    ensures forall i | 0 <= i < |selected| :: selected[i] in obs
  {
    if obs == [] then []
    else
      var n := |obs| - 1;
      var before := InWindow(obs[..n], scope, cutoff);
      assert forall i | 0 <= i < |before| :: before[i] in obs[..n] && before[i] in obs;
      if obs[n].scope == scope && obs[n].at >= cutoff then before + [obs[n]] else before
  }

  // ------------------------------------------------------------------ aggregates

  predicate OfKind(group: seq<Observation>, kind: AssetType) {
    forall i | 0 <= i < |group| :: KindOf(group[i].reading) == kind
  }

  function Column(group: seq<Observation>, kind: AssetType, m: Measure): seq<real>
    requires OfKind(group, kind) && m in Measured(kind) + Derived(kind)
  {
    seq(|group|, i requires 0 <= i < |group| => Value(group[i].reading, m))
  }

  function Sum(values: seq<real>): real {
    if values == [] then 0.0 else Sum(values[..|values| - 1]) + values[|values| - 1]
  }

  /** `avg` */
  function Average(values: seq<real>): real
    requires values != []
  {
    Sum(values) / |values| as real
  }

  /** `min` of a text column */
  function MinText(group: seq<Observation>, column: Observation -> string): (least: string)
    requires group != []
  {
    var last := column(group[|group| - 1]);
    if |group| == 1 then last
    else
      var least := MinText(group[..|group| - 1], column);
      if StrLess(last, least) then last else least
  }

  /** `bool_or` */
  function AnyOperating(group: seq<Observation>): (any: bool)
    ensures any <==> exists i | 0 <= i < |group| :: group[i].operating
  {
    if group == [] then false
    else
      var n := |group| - 1;
      assert forall i | 0 <= i < n :: group[..n][i] == group[i];
      AnyOperating(group[..n]) || group[n].operating
  }

  function ProductType(): Observation -> string {
    (o: Observation) => if o.reading.Cnc? then o.reading.productType else ""
  }

  /** One row of `SELECT … GROUP BY`. */
  function Aggregate(group: seq<Observation>, kind: AssetType, scope: Scope, now: int): (row: Row)
    requires group != [] && OfKind(group, kind)
    ensures row.sampleCount > 0
  {
    Row(scope,
        MinText(group, (o: Observation) => o.site),
        MinText(group, (o: Observation) => o.cell),
        AnyOperating(group),
        |group|,
        MinText(group, (o: Observation) => o.sha),
        if kind == CncAsset then Some(MinText(group, ProductType())) else None,
        map m | m in Measured(kind) :: Average(Column(group, kind, m)),
        map m | m in Derived(kind) :: Average(Column(group, kind, m)),
        now)
  }

  lemma {:induction false} MinTextIsLeast(group: seq<Observation>, column: Observation -> string)
    requires group != []
    ensures exists i | 0 <= i < |group| :: column(group[i]) == MinText(group, column)
    ensures forall i | 0 <= i < |group| :: !StrLess(column(group[i]), MinText(group, column))
  {
    var n := |group| - 1;
    var last := column(group[n]);
    StrLessIrreflexive(last);
    if n == 0 {
      assert column(group[0]) == MinText(group, column);
    } else {
      var before := group[..n];
      var least := MinText(before, column);
      MinTextIsLeast(before, column);
      var j :| 0 <= j < n && column(before[j]) == least;
      assert column(group[j]) == least;
      assert MinText(group, column) == if StrLess(last, least) then last else least;
      forall i | 0 <= i < |group|
        ensures !StrLess(column(group[i]), MinText(group, column))
      {
        if i < n {
          assert before[i] == group[i];
          if StrLess(last, least) && StrLess(column(group[i]), last) {
            StrLessTransitive(column(group[i]), last, least);
          }
        }
      }
    }
  }

  predicate Between(values: seq<real>, low: real, high: real) {
    forall i | 0 <= i < |values| :: low <= values[i] <= high
  }

  lemma BoundOfNext(n: real, bound: real, sum: real, value: real)
    ensures n * bound <= sum && bound <= value ==> (n + 1.0) * bound <= sum + value
    ensures n * bound >= sum && bound >= value ==> (n + 1.0) * bound >= sum + value
  {
    assert (n + 1.0) * bound == n * bound + bound;
  }

  lemma BoundOfQuotient(n: real, bound: real, sum: real)
    requires n > 0.0
    ensures n * bound <= sum ==> bound <= sum / n
    ensures n * bound >= sum ==> bound >= sum / n
  {
    var q := sum / n;
    assert n * q == sum;
    assert bound > q ==> n * (bound - q) > 0.0;
    assert bound < q ==> n * (q - bound) > 0.0;
  }

  lemma {:induction false} SumIsBetween(values: seq<real>, low: real, high: real)
    requires Between(values, low, high)
    ensures |values| as real * low <= Sum(values) <= |values| as real * high
  {
    if values != [] {
      var n := |values| - 1;
      SumIsBetween(values[..n], low, high);
      BoundOfNext(n as real, low, Sum(values[..n]), values[n]);
      BoundOfNext(n as real, high, Sum(values[..n]), values[n]);
      assert |values| as real == n as real + 1.0;
    }
  }

  /** An average lies between any bounds of the averaged values. */
  lemma AverageIsBetween(values: seq<real>, low: real, high: real)
    requires values != [] && Between(values, low, high)
    ensures low <= Average(values) <= high
  {
    SumIsBetween(values, low, high);
    BoundOfQuotient(|values| as real, low, Sum(values));
    BoundOfQuotient(|values| as real, high, Sum(values));
  }

  /** `least` is one of the values of the column, and none is smaller. */
  ghost predicate IsLeast(group: seq<Observation>, column: Observation -> string, least: string) {
    && (exists i | 0 <= i < |group| :: column(group[i]) == least)
    && (forall i | 0 <= i < |group| :: !StrLess(column(group[i]), least))
  }

  // ------------------------------------------- what an aggregate row tells

  /** The values of a field over a group. */
  function Listed(group: seq<Observation>, field: Observation --> real): seq<real>
    requires forall i | 0 <= i < |group| :: field.requires(group[i])
  {
    seq(|group|, i requires 0 <= i < |group| => field(group[i]))
  }

  /** The stored value, times the number of observations, is the sum of the field over the group. */
  ghost predicate Averages(stored: map<Measure, real>, m: Measure, group: seq<Observation>, field: Observation --> real)
    requires forall i | 0 <= i < |group| :: field.requires(group[i])
  {
    m in stored && stored[m] * |group| as real == Sum(Listed(group, field))
  }

  function VoltageOf(o: Observation): real requires o.reading.Compressor? { o.reading.voltageRaw }
  function RotationOf(o: Observation): real requires o.reading.Compressor? { o.reading.rotationRaw }
  function PressureOf(o: Observation): real requires o.reading.Compressor? { o.reading.pressureRaw }
  function VibrationOf(o: Observation): real requires o.reading.Compressor? { o.reading.vibrationRaw }
  function VibrationZOf(o: Observation): real requires o.reading.Compressor? { o.reading.relativeVibrationZ }

  function AirOf(o: Observation): real requires o.reading.Cnc? { o.reading.airTemperatureK }
  function ProcessOf(o: Observation): real requires o.reading.Cnc? { o.reading.processTemperatureK }
  function SpeedOf(o: Observation): real requires o.reading.Cnc? { o.reading.rotationalSpeedRpm }
  function TorqueOf(o: Observation): real requires o.reading.Cnc? { o.reading.torqueNm }
  function WearOf(o: Observation): real requires o.reading.Cnc? { o.reading.toolWearMin }

  /** Torque times angular speed. */
  function PowerOf(o: Observation): real
    requires o.reading.Cnc?
  {
    2.0 * 3.141592653589793 * (o.reading.rotationalSpeedRpm * o.reading.torqueNm) / 60.0
  }

  function GapOf(o: Observation): real
    requires o.reading.Cnc?
  {
    o.reading.processTemperatureK - o.reading.airTemperatureK
  }

  function LoadOf(o: Observation): real
    requires o.reading.Cnc?
  {
    o.reading.torqueNm * o.reading.toolWearMin
  }

  lemma TimesQuotient(sum: real, n: real)
    requires n > 0.0
    ensures (sum / n) * n == sum
  {
  }

  lemma AverageTimesCount(values: seq<real>)
    requires values != []
    ensures Average(values) * |values| as real == Sum(values)
  {
    TimesQuotient(Sum(values), |values| as real);
  }

  lemma ColumnIsListed(group: seq<Observation>, kind: AssetType, m: Measure, field: Observation --> real)
    requires OfKind(group, kind) && m in Measured(kind) + Derived(kind)
    requires forall i | 0 <= i < |group| :: field.requires(group[i]) && Value(group[i].reading, m) == field(group[i])
    ensures Column(group, kind, m) == Listed(group, field)
  {
  }

  lemma AverageTells(group: seq<Observation>, kind: AssetType, m: Measure, stored: map<Measure, real>,
      field: Observation --> real)
    requires group != [] && OfKind(group, kind) && m in Measured(kind) + Derived(kind)
    requires m in stored && stored[m] == Average(Column(group, kind, m))
    requires forall i | 0 <= i < |group| :: field.requires(group[i]) && Value(group[i].reading, m) == field(group[i])
    ensures Averages(stored, m, group, field)
  {
    ColumnIsListed(group, kind, m, field);
    AverageTimesCount(Listed(group, field));
  }

  /** The averaged columns of a compressor row, each under its own name. */
  ghost predicate CompressorColumns(row: Row, group: seq<Observation>)
    requires OfKind(group, CompressorAsset)
  {
    && row.measurements.Keys == {VoltageRaw, RotationRaw, PressureRaw, VibrationRaw, RelativeVibrationZ}
    && Averages(row.measurements, VoltageRaw, group, VoltageOf)
    && Averages(row.measurements, RotationRaw, group, RotationOf)
    && Averages(row.measurements, PressureRaw, group, PressureOf)
    && Averages(row.measurements, VibrationRaw, group, VibrationOf)
    && Averages(row.measurements, RelativeVibrationZ, group, VibrationZOf)
    && row.derived == map[]
  }

  /** The averaged columns of a machine row, each under its own name, and those derived
      from each reading before it is averaged. */
  ghost predicate CncColumns(row: Row, group: seq<Observation>)
    requires OfKind(group, CncAsset)
  {
    && row.measurements.Keys == {AirTemperatureK, ProcessTemperatureK, RotationalSpeedRpm, TorqueNm, ToolWearMin}
    && Averages(row.measurements, AirTemperatureK, group, AirOf)
    && Averages(row.measurements, ProcessTemperatureK, group, ProcessOf)
    && Averages(row.measurements, RotationalSpeedRpm, group, SpeedOf)
    && Averages(row.measurements, TorqueNm, group, TorqueOf)
    && Averages(row.measurements, ToolWearMin, group, WearOf)
    && row.derived.Keys == {PowerW, TemperatureGapK, OverstrainLoad}
    && Averages(row.derived, PowerW, group, PowerOf)
    && Averages(row.derived, TemperatureGapK, group, GapOf)
    && Averages(row.derived, OverstrainLoad, group, LoadOf)
  }

  lemma CompressorColumnsTell(group: seq<Observation>, scope: Scope, now: int)
    requires group != [] && OfKind(group, CompressorAsset)
    ensures CompressorColumns(Aggregate(group, CompressorAsset, scope, now), group)
  {
    var stored := Aggregate(group, CompressorAsset, scope, now).measurements;
    AverageTells(group, CompressorAsset, VoltageRaw, stored, VoltageOf);
    AverageTells(group, CompressorAsset, RotationRaw, stored, RotationOf);
    AverageTells(group, CompressorAsset, PressureRaw, stored, PressureOf);
    AverageTells(group, CompressorAsset, VibrationRaw, stored, VibrationOf);
    AverageTells(group, CompressorAsset, RelativeVibrationZ, stored, VibrationZOf);
  }

  lemma SamePower(speed: real, torque: real)
    ensures torque * speed * 2.0 * PI / 60.0 == 2.0 * 3.141592653589793 * (speed * torque) / 60.0
  {
    assert torque * speed == speed * torque;
  }

  lemma ValuesAre(o: Observation)
    requires o.reading.Cnc?
    ensures Value(o.reading, PowerW) == PowerOf(o) && Value(o.reading, TemperatureGapK) == GapOf(o)
    ensures Value(o.reading, OverstrainLoad) == LoadOf(o)
  {
    SamePower(o.reading.rotationalSpeedRpm, o.reading.torqueNm);
  }

  lemma DerivedAre(group: seq<Observation>, i: nat)
    requires OfKind(group, CncAsset) && i < |group|
    ensures group[i].reading.Cnc? && Value(group[i].reading, PowerW) == PowerOf(group[i])
    ensures Value(group[i].reading, TemperatureGapK) == GapOf(group[i])
    ensures Value(group[i].reading, OverstrainLoad) == LoadOf(group[i])
  {
    assert KindOf(group[i].reading) == CncAsset;
    ValuesAre(group[i]);
  }

  lemma DerivedColumnsTell(group: seq<Observation>, stored: map<Measure, real>)
    requires group != [] && OfKind(group, CncAsset) && stored.Keys == {PowerW, TemperatureGapK, OverstrainLoad}
    requires forall m | m in stored :: stored[m] == Average(Column(group, CncAsset, m))
    ensures Averages(stored, PowerW, group, PowerOf) && Averages(stored, TemperatureGapK, group, GapOf)
    ensures Averages(stored, OverstrainLoad, group, LoadOf)
  {
    forall i: nat | i < |group|
      ensures group[i].reading.Cnc? && Value(group[i].reading, PowerW) == PowerOf(group[i])
      ensures Value(group[i].reading, TemperatureGapK) == GapOf(group[i])
      ensures Value(group[i].reading, OverstrainLoad) == LoadOf(group[i])
    {
      DerivedAre(group, i);
    }
    AverageTells(group, CncAsset, PowerW, stored, PowerOf);
    AverageTells(group, CncAsset, TemperatureGapK, stored, GapOf);
    AverageTells(group, CncAsset, OverstrainLoad, stored, LoadOf);
  }

  lemma CncAverageTells(group: seq<Observation>, m: Measure, stored: map<Measure, real>, field: Observation --> real)
    requires group != [] && OfKind(group, CncAsset) && m in Measured(CncAsset) && m in stored
    requires stored[m] == Average(Column(group, CncAsset, m))
    requires forall o: Observation | o.reading.Cnc? :: field.requires(o) && Value(o.reading, m) == field(o)
    ensures (forall i | 0 <= i < |group| :: field.requires(group[i])) && Averages(stored, m, group, field)
  {
    assert forall i | 0 <= i < |group| :: KindOf(group[i].reading) == CncAsset;
    AverageTells(group, CncAsset, m, stored, field);
  }

  lemma MeasuredColumnsTell(group: seq<Observation>, stored: map<Measure, real>)
    requires group != [] && OfKind(group, CncAsset) && stored.Keys == Measured(CncAsset)
    requires forall m | m in stored :: stored[m] == Average(Column(group, CncAsset, m))
    ensures Averages(stored, AirTemperatureK, group, AirOf) && Averages(stored, ProcessTemperatureK, group, ProcessOf)
    ensures Averages(stored, RotationalSpeedRpm, group, SpeedOf) && Averages(stored, TorqueNm, group, TorqueOf)
    ensures Averages(stored, ToolWearMin, group, WearOf)
  {
    CncAverageTells(group, AirTemperatureK, stored, AirOf);
    CncAverageTells(group, ProcessTemperatureK, stored, ProcessOf);
    CncAverageTells(group, RotationalSpeedRpm, stored, SpeedOf);
    CncAverageTells(group, TorqueNm, stored, TorqueOf);
    CncAverageTells(group, ToolWearMin, stored, WearOf);
  }

  lemma CncColumnsTell(group: seq<Observation>, scope: Scope, now: int)
    requires group != [] && OfKind(group, CncAsset)
    ensures CncColumns(Aggregate(group, CncAsset, scope, now), group)
  {
    MeasuredColumnsTell(group, Aggregate(group, CncAsset, scope, now).measurements);
    DerivedColumnsTell(group, Aggregate(group, CncAsset, scope, now).derived);
  }

  /** A row tells about a group: least texts, whether one observation operates, how many
      there are, and the average of each field under its own name. */
  ghost predicate Summarises(row: Row, group: seq<Observation>, kind: AssetType)
    requires OfKind(group, kind)
  {
    && row.sampleCount == |group|
    && IsLeast(group, (o: Observation) => o.site, row.site)
    && IsLeast(group, (o: Observation) => o.cell, row.cell)
    && IsLeast(group, (o: Observation) => o.sha, row.sha)
    && (row.productType.Some? <==> kind == CncAsset)
    && (row.productType.Some? ==> IsLeast(group, ProductType(), row.productType.value))
    && (row.operating <==> exists i | 0 <= i < |group| :: group[i].operating)
    && match kind
       case CompressorAsset => CompressorColumns(row, group)
       case CncAsset => CncColumns(row, group)
  }

  /** What an aggregate row tells about its group. */
  lemma AggregateTells(group: seq<Observation>, kind: AssetType, scope: Scope, now: int)
    requires group != [] && OfKind(group, kind)
    ensures var row := Aggregate(group, kind, scope, now);
      Summarises(row, group, kind) && row.scope == scope && row.refreshedAt == now
  {
    MinTextIsLeast(group, (o: Observation) => o.site);
    MinTextIsLeast(group, (o: Observation) => o.cell);
    MinTextIsLeast(group, (o: Observation) => o.sha);
    MinTextIsLeast(group, ProductType());
    if kind == CompressorAsset {
      CompressorColumnsTell(group, scope, now);
    } else {
      CncColumnsTell(group, scope, now);
    }
  }

  // -------------------------------------------------- tables have no row order

  function Total<T>(s: seq<T>, g: T -> real): real {
    if s == [] then 0.0 else Total(s[..|s| - 1], g) + g(s[|s| - 1])
  }

  lemma {:induction false} TotalWithout<T>(s: seq<T>, j: nat, g: T -> real)
    requires j < |s|
    ensures Total(s, g) == Total(s[..j] + s[j + 1..], g) + g(s[j])
  {
    var n := |s| - 1;
    var others := s[..j] + s[j + 1..];
    if j == n {
      assert others == s[..n];
    } else {
      var init := s[..n];
      TotalWithout(init, j, g);
      assert others[..|others| - 1] == init[..j] + init[j + 1..];
    }
  }

  lemma WithoutOne<T>(b: seq<T>, j: nat)
    requires j < |b|
    ensures multiset(b[..j] + b[j + 1..]) == multiset(b) - multiset{b[j]}
  {
    assert b == b[..j] + ([b[j]] + b[j + 1..]);
  }

  lemma LastIsSomewhere<T>(a: seq<T>, b: seq<T>) returns (j: nat)
    requires a != [] && multiset(a) == multiset(b)
    ensures j < |b| && b[j] == a[|a| - 1]
    ensures multiset(a[..|a| - 1]) == multiset(b[..j] + b[j + 1..])
  {
    var n := |a| - 1;
    assert a == a[..n] + [a[n]] && a[n] in multiset(b);
    j :| 0 <= j < |b| && b[j] == a[n];
    WithoutOne(b, j);
  }

  lemma {:induction false} TotalIgnoresOrder<T>(a: seq<T>, b: seq<T>, g: T -> real)
    requires multiset(a) == multiset(b)
    ensures Total(a, g) == Total(b, g)
  {
    if a == [] {
      assert |multiset(b)| == |b|;
    } else {
      var j := LastIsSomewhere(a, b);
      TotalIgnoresOrder(a[..|a| - 1], b[..j] + b[j + 1..], g);
      TotalWithout(b, j, g);
    }
  }

  function Reader(m: Measure): Observation -> real {
    (o: Observation) =>
      if m in Measured(KindOf(o.reading)) + Derived(KindOf(o.reading)) then Value(o.reading, m) else 0.0
  }

  lemma {:induction false} SumIsTotal(group: seq<Observation>, kind: AssetType, m: Measure)
    requires OfKind(group, kind) && m in Measured(kind) + Derived(kind)
    ensures Sum(Column(group, kind, m)) == Total(group, Reader(m))
  {
    if group != [] {
      var n := |group| - 1;
      SumIsTotal(group[..n], kind, m);
      assert Column(group, kind, m)[..n] == Column(group[..n], kind, m);
    }
  }

  lemma AverageIgnoresOrder(a: seq<Observation>, b: seq<Observation>, kind: AssetType, m: Measure)
    requires multiset(a) == multiset(b) && OfKind(a, kind) && OfKind(b, kind) && m in Measured(kind) + Derived(kind)
    requires a != [] && |a| == |b|
    ensures Average(Column(a, kind, m)) == Average(Column(b, kind, m))
  {
    SumIsTotal(a, kind, m);
    SumIsTotal(b, kind, m);
    TotalIgnoresOrder(a, b, Reader(m));
  }

  lemma LeastIsUnique(a: seq<Observation>, b: seq<Observation>, column: Observation -> string, x: string, y: string)
    requires multiset(a) == multiset(b) && IsLeast(a, column, x) && IsLeast(b, column, y)
    ensures x == y
  {
    SameElements(a, b);
    var i :| 0 <= i < |a| && column(a[i]) == x;
    var j :| 0 <= j < |b| && column(b[j]) == y;
    assert a[i] in b && b[j] in a;
    StrLessTotal(x, y);
  }

  lemma MinTextIgnoresOrder(a: seq<Observation>, b: seq<Observation>, column: Observation -> string)
    requires multiset(a) == multiset(b) && a != [] && b != []
    ensures MinText(a, column) == MinText(b, column)
  {
    MinTextIsLeast(a, column);
    MinTextIsLeast(b, column);
    LeastIsUnique(a, b, column, MinText(a, column), MinText(b, column));
  }

  lemma AnyOperatingIgnoresOrder(a: seq<Observation>, b: seq<Observation>)
    requires multiset(a) == multiset(b)
    ensures AnyOperating(a) == AnyOperating(b)
  {
    SameElements(a, b);
    if AnyOperating(a) {
      var i :| 0 <= i < |a| && a[i].operating;
      assert a[i] in b;
    }
    if AnyOperating(b) {
      var i :| 0 <= i < |b| && b[i].operating;
      assert b[i] in a;
    }
  }

  /** The aggregate of a group does not depend on the order of its rows. */
  lemma AggregateIgnoresOrder(a: seq<Observation>, b: seq<Observation>, kind: AssetType, scope: Scope, now: int)
    requires multiset(a) == multiset(b) && a != [] && b != [] && OfKind(a, kind) && OfKind(b, kind)
    ensures Aggregate(a, kind, scope, now) == Aggregate(b, kind, scope, now)
  {
    SameElements(a, b);
    AnyOperatingIgnoresOrder(a, b);
    MinTextIgnoresOrder(a, b, (o: Observation) => o.site);
    MinTextIgnoresOrder(a, b, (o: Observation) => o.cell);
    MinTextIgnoresOrder(a, b, (o: Observation) => o.sha);
    MinTextIgnoresOrder(a, b, ProductType());
    forall m | m in Measured(kind) + Derived(kind)
      ensures Average(Column(a, kind, m)) == Average(Column(b, kind, m))
    {
      AverageIgnoresOrder(a, b, kind, m);
    }
  }

  lemma {:induction false} GroupCounts(obs: seq<Observation>, k: Key, o: Observation)
    ensures multiset(Group(obs, k))[o] == if KeyOf(o) == k then multiset(obs)[o] else 0
  {
    if obs != [] {
      var n := |obs| - 1;
      GroupCounts(obs[..n], k, o);
      assert obs == obs[..n] + [obs[n]];
    }
  }

  lemma {:induction false} WindowCounts(obs: seq<Observation>, scope: Scope, cutoff: int, o: Observation)
    ensures multiset(InWindow(obs, scope, cutoff))[o]
         == if o.scope == scope && o.at >= cutoff then multiset(obs)[o] else 0
  {
    if obs != [] {
      var n := |obs| - 1;
      WindowCounts(obs[..n], scope, cutoff, o);
      assert obs == obs[..n] + [obs[n]];
    }
  }

  lemma SelectedGroupIgnoresOrder(a: seq<Observation>, b: seq<Observation>, scope: Scope, cutoff: int, k: Key)
    requires multiset(a) == multiset(b)
    ensures multiset(Group(InWindow(a, scope, cutoff), k)) == multiset(Group(InWindow(b, scope, cutoff), k))
  {
    forall o: Observation
      ensures multiset(Group(InWindow(a, scope, cutoff), k))[o] == multiset(Group(InWindow(b, scope, cutoff), k))[o]
    {
      WindowCounts(a, scope, cutoff, o);
      WindowCounts(b, scope, cutoff, o);
      GroupCounts(InWindow(a, scope, cutoff), k, o);
      GroupCounts(InWindow(b, scope, cutoff), k, o);
    }
  }
}
