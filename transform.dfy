/** The added columns of the transformation step: the region of each row,
    its consumption band and its rank within its year. Each operation copies
    its table and adds one column, so the rows of its input are kept, in
    order. */
module Transform {
  import opened Wrappers
  import Seqs
  import Text
  import Tables
  import Config
  import Clean

  // The Region column.

  /** A row with its `Region` cell. */
  datatype RegionRow = RegionRow(row: Clean.Record, region: Option<string>)

  /** `df[COL_PROVINCE].map(REGION_MAPPING)` on one row: the name is looked
      up as it is, and a null name or a name that is not a key gives a
      missing region. */
  function RegionCell(r: Clean.Record): Option<string> {
    if r.province.Some? then Config.RegionOf(r.province.value) else None
  }

  function WithRegion(r: Clean.Record): RegionRow { RegionRow(r, RegionCell(r)) }

  /** `add_region_column(df)`. */
  function AddRegionColumn(rows: seq<Clean.Record>): (r: seq<RegionRow>)
    ensures |r| == |rows|
    ensures forall i :: 0 <= i < |rows| ==> r[i].row == rows[i]
  {
    Seqs.Map(rows, WithRegion)
  }

  /** A row gets a region exactly when its name is a key of the region
      table, and the region is then one of the seven regions; for an
      upper-case name it is the region `get_region` reports, and a missing
      region is what `get_region` reports as `'Unknown'`. */
  lemma AddRegionColumnSpec(rows: seq<Clean.Record>, i: nat)
    requires i < |rows|
    ensures var cell := AddRegionColumn(rows)[i].region;
      (cell.Some? <==> rows[i].province.Some? && Seqs.Contains(Config.RegionKeys, rows[i].province.value))
      && (cell.Some? ==> Seqs.Contains(Config.Regions, cell.value))
      && (rows[i].province.Some? && Text.IsUpperCase(rows[i].province.value) ==>
            cell.GetOr(Config.Unknown) == Config.GetRegion(rows[i].province.value))
  {
    if rows[i].province.Some? {
      var p := rows[i].province.value;
      if Text.IsUpperCase(p) {
        Text.UpperOfUpperCase(p);
      }
      Tables.LookupSome(Config.RegionKeys, Config.RegionValues, p);
      if Config.RegionOf(p).Some? {
        Config.RegionValuesAreRegions(Config.RegionOf(p).value);
      }
    }
  }

  // The Category column.

  /** The four bounds of `thresholds`: `very_low`, `low`, `medium`, `high`. */
  datatype Thresholds = Thresholds(veryLow: real, low: real, medium: real, high: real)

  /** The bounds used when no thresholds are given. */
  const DefaultThresholds: Thresholds := Thresholds(1000.0, 5000.0, 15000.0, 30000.0)

  /** `categorize(value)` inside `add_consumption_category`. Every comparison
      with a missing value (NaN) is false, so a missing value falls through
      to the top band. */
  function Categorize(value: Option<real>, t: Thresholds): string {
    if value.Some? && value.value < t.veryLow then "Sangat Rendah"
    else if value.Some? && value.value < t.low then "Rendah"
    else if value.Some? && value.value < t.medium then "Sedang"
    else if value.Some? && value.value < t.high then "Tinggi"
    else "Sangat Tinggi"
  }

  /** A row with its `Category` cell. */
  datatype CategoryRow = CategoryRow(row: Clean.Record, category: string)

  /** `add_consumption_category(df, thresholds)`; `None` stands for the
      default bounds. */
  function AddConsumptionCategory(rows: seq<Clean.Record>, thresholds: Option<Thresholds>): (r: seq<CategoryRow>)
    ensures |r| == |rows|
    ensures forall i :: 0 <= i < |rows| ==> r[i].row == rows[i]
  {
    var t := thresholds.GetOr(DefaultThresholds);
    Seqs.Map(rows, (row: Clean.Record) => CategoryRow(row, Categorize(row.value, t)))
  }

  /** With the default bounds every present value gets the label of
      `categorize_consumption`, and a missing value gets the top label. */
  lemma DefaultCategoryAgrees(rows: seq<Clean.Record>, i: nat)
    requires i < |rows|
    ensures rows[i].value.Some? ==>
      AddConsumptionCategory(rows, None)[i].category == Config.CategorizeConsumption(rows[i].value.value)
    ensures rows[i].value.None? ==> AddConsumptionCategory(rows, None)[i].category == Config.Labels[4]
  {
  }

  /** The label of ordered bounds is the label of the number of bounds the
      value reaches: a value equal to a bound is in the band above it. */
  lemma CategorizeIsBand(v: real, t: Thresholds)
    requires t.veryLow <= t.low <= t.medium <= t.high
    ensures Categorize(Some(v), t) == Config.Labels[Config.Reached([t.veryLow, t.low, t.medium, t.high], v)]
  {
    var s := [t.veryLow, t.low, t.medium, t.high];
    assert s[..3] == [t.veryLow, t.low, t.medium];
    assert s[..3][..2] == [t.veryLow, t.low];
    assert s[..3][..2][..1] == [t.veryLow];
    assert s[..3][..2][..1][..0] == [];
    var a, b, c, d := t.veryLow, t.low, t.medium, t.high;
    assert Config.Reached([a], v) == if a <= v then 1 else 0;
    assert Config.Reached([a, b], v) == Config.Reached([a], v) + if b <= v then 1 else 0;
    assert Config.Reached([a, b, c], v) == Config.Reached([a, b], v) + if c <= v then 1 else 0;
  }

  /** Under ordered bounds a larger value never gets a lower band. */
  lemma CategorizeMonotone(v: real, w: real, t: Thresholds)
    requires t.veryLow <= t.low <= t.medium <= t.high && v <= w
    ensures var s := [t.veryLow, t.low, t.medium, t.high];
      Config.Reached(s, v) <= Config.Reached(s, w)
      && Categorize(Some(v), t) == Config.Labels[Config.Reached(s, v)]
      && Categorize(Some(w), t) == Config.Labels[Config.Reached(s, w)]
  {
    ReachedMonotone([t.veryLow, t.low, t.medium, t.high], v, w);
    CategorizeIsBand(v, t);
    CategorizeIsBand(w, t);
  }

  lemma {:induction false} ReachedMonotone(ts: seq<real>, v: real, w: real)
    requires v <= w
    ensures Config.Reached(ts, v) <= Config.Reached(ts, w)
  {
    if ts != [] {
      ReachedMonotone(ts[..|ts| - 1], v, w);
    }
  }

  // The Rank column.

  /** `x` has a strictly larger value than `r` in the same year. */
  predicate Beats(x: Clean.Record, r: Clean.Record) {
    x.year == r.year && x.value.Some? && r.value.Some? && x.value.value > r.value.value
  }

  predicate SameYear(x: Clean.Record, r: Clean.Record) { x.year == r.year }

  /** The descending `min` rank of `r` among the rows of its year. */
  function RankOf(rows: seq<Clean.Record>, r: Clean.Record): nat {
    1 + Seqs.Count(rows, x => Beats(x, r))
  }

  /** Rows of the year of `r`. */
  function YearSize(rows: seq<Clean.Record>, r: Clean.Record): nat {
    Seqs.Count(rows, x => SameYear(x, r))
  }

  /** A row with its `Rank` cell. */
  datatype RankedRow = RankedRow(row: Clean.Record, rank: nat)

  /** The `Rank` column of `add_ranking_features(df)`: the rank of a missing
      value is NaN, which the cast to `int` refuses, so the operation fails
      as soon as a value is missing. */
  function AddRank(rows: seq<Clean.Record>): (r: Result<seq<RankedRow>, string>)
    ensures r.Failure? <==> exists i :: 0 <= i < |rows| && rows[i].value.None?
    ensures r.Success? ==> |r.value| == |rows| && forall i :: 0 <= i < |rows| ==> r.value[i].row == rows[i]
  {
    if exists i :: 0 <= i < |rows| && rows[i].value.None? then
      Failure("cannot convert NaN to integer")
    else
      Success(Seqs.Map(rows, (row: Clean.Record) => RankedRow(row, RankOf(rows, row))))
  }

  /** Every rank lies between 1 and the number of rows of that year. */
  lemma RankBounds(rows: seq<Clean.Record>, i: nat)
    requires i < |rows|
    ensures 1 <= RankOf(rows, rows[i]) <= YearSize(rows, rows[i])
  {
    var r := rows[i];
    Seqs.CountStrict(rows, x => Beats(x, r), x => SameYear(x, r), i);
  }

  /** A row with a value no other row of its year exceeds has rank 1. */
  lemma MaximumRanksFirst(rows: seq<Clean.Record>, i: nat)
    requires i < |rows| && rows[i].value.Some?
    requires forall j :: 0 <= j < |rows| && rows[j].year == rows[i].year && rows[j].value.Some? ==>
      rows[j].value.value <= rows[i].value.value
    ensures RankOf(rows, rows[i]) == 1
  {
    var r := rows[i];
    Seqs.CountZero(rows, x => Beats(x, r));
  }

  /** Rows of one year with equal values share their rank. */
  lemma TiesShareRank(rows: seq<Clean.Record>, a: Clean.Record, b: Clean.Record)
    requires a.year == b.year && a.value == b.value
    ensures RankOf(rows, a) == RankOf(rows, b)
  {
    Seqs.CountMono(rows, x => Beats(x, a), x => Beats(x, b));
    Seqs.CountMono(rows, x => Beats(x, b), x => Beats(x, a));
  }

  /** Within a year a strictly larger value has a strictly smaller rank. */
  lemma RankStrictlyMonotone(rows: seq<Clean.Record>, i: nat, j: nat)
    requires i < |rows| && j < |rows| && Beats(rows[i], rows[j])
    ensures RankOf(rows, rows[i]) < RankOf(rows, rows[j])
  {
    var a, b := rows[i], rows[j];
    Seqs.CountStrict(rows, x => Beats(x, a), x => Beats(x, b), i);
  }
}
