/** The table utilities used by the dashboard: the column check and the row
    selections by year, province, region and consumption rank. None of them
    changes its input. */
module Helpers {
  import opened Wrappers
  import Seqs
  import Sorting
  import Tables
  import Config
  import Clean

  // Column validation.

  /** `validate_dataframe(df, required_cols)`: `True`, or the `ValueError`
      naming the set of required columns the table lacks. */
  function ValidateDataframe(columns: seq<string>, required: seq<string>): (r: Result<bool, set<string>>)
    ensures r.Success? <==> forall c :: c in required ==> c in columns
    ensures r.Success? ==> r.value
    ensures r.Failure? ==> r.error != {} && forall c :: c in r.error <==> c in required && c !in columns
  {
    var missingCols := set c | c in required && c !in columns;
    if exists c :: c in required && c !in columns then
      var c :| c in required && c !in columns;
      assert c in missingCols;
      Failure(missingCols)
    else Success(true)
  }

  /** A table that passes keeps passing when it gains columns, and a column
      list that passes for some requirements passes for any part of them. */
  lemma ValidateMonotone(columns: seq<string>, extra: seq<string>, required: seq<string>, fewer: seq<string>)
    requires ValidateDataframe(columns, required).Success?
    requires forall c :: c in fewer ==> c in required
    ensures ValidateDataframe(columns + extra, required).Success?
    ensures ValidateDataframe(columns, fewer).Success?
  {
  }

  // Row selections.

  /** An argument given either as one value or as a list of values. */
  datatype Selection<T> = One(item: T) | Many(items: seq<T>)

  /** The list the argument stands for: a single value is a one-element list. */
  function Items<T>(s: Selection<T>): seq<T> {
    match s
    case One(x) => [x]
    case Many(xs) => xs
  }

  /** `filter_by_year(df, years)`: the rows whose year is listed, in order. */
  function FilterByYear(rows: seq<Clean.Record>, years: Selection<int>): (r: seq<Clean.Record>)
    ensures |r| <= |rows|
  {
    var ys := Items(years);
    Seqs.Filter(rows, (row: Clean.Record) => row.year in ys)
  }

  /** Each row of a listed year is kept as often as it occurs and no other
      row is kept; the selection distributes over concatenation, so the
      kept rows keep their order. */
  lemma FilterByYearSpec(rows: seq<Clean.Record>, more: seq<Clean.Record>, years: Selection<int>)
    ensures forall x :: (multiset(FilterByYear(rows, years))[x] ==
      if x.year in Items(years) then multiset(rows)[x] else 0)
    ensures forall x :: x in FilterByYear(rows, years) <==> x in rows && x.year in Items(years)
    ensures FilterByYear(rows + more, years) == FilterByYear(rows, years) + FilterByYear(more, years)
  {
    var ys := Items(years);
    Seqs.FilterMultiset(rows, (row: Clean.Record) => row.year in ys);
    Seqs.FilterMembers(rows, (row: Clean.Record) => row.year in ys);
    Seqs.FilterConcat(rows, more, (row: Clean.Record) => row.year in ys);
  }

  /** `df[COL_PROVINCE].isin(provinces)` on one row: a null name is never listed. */
  predicate ProvinceIn(ps: seq<string>, row: Clean.Record) {
    row.province.Some? && row.province.value in ps
  }

  /** `filter_by_province(df, provinces)`: the rows whose name is listed, in order. */
  function FilterByProvince(rows: seq<Clean.Record>, provinces: Selection<string>): (r: seq<Clean.Record>)
    ensures |r| <= |rows|
  {
    var ps := Items(provinces);
    Seqs.Filter(rows, (row: Clean.Record) => ProvinceIn(ps, row))
  }

  /** Each row with a listed name is kept as often as it occurs and no other
      row is kept; the selection distributes over concatenation. */
  lemma FilterByProvinceSpec(rows: seq<Clean.Record>, more: seq<Clean.Record>, provinces: Selection<string>)
    ensures forall x :: (multiset(FilterByProvince(rows, provinces))[x] ==
      if ProvinceIn(Items(provinces), x) then multiset(rows)[x] else 0)
    ensures forall x :: x in FilterByProvince(rows, provinces) <==> x in rows && ProvinceIn(Items(provinces), x)
    ensures FilterByProvince(rows + more, provinces) == FilterByProvince(rows, provinces) + FilterByProvince(more, provinces)
  {
    var ps := Items(provinces);
    Seqs.FilterMultiset(rows, (row: Clean.Record) => ProvinceIn(ps, row));
    Seqs.FilterMembers(rows, (row: Clean.Record) => ProvinceIn(ps, row));
    Seqs.FilterConcat(rows, more, (row: Clean.Record) => ProvinceIn(ps, row));
  }

  /** The provinces the region table assigns to `region`, in table order. */
  function ProvincesInRegion(region: string): seq<string> {
    Seqs.Filter(Config.RegionKeys, (k: string) => Config.RegionOf(k) == Some(region))
  }

  /** `filter_by_region(df, region)`. */
  function FilterByRegion(rows: seq<Clean.Record>, region: string): (r: seq<Clean.Record>)
    ensures |r| <= |rows|
  {
    FilterByProvince(rows, Many(ProvincesInRegion(region)))
  }

  /** The kept rows are exactly the rows whose name the region table maps
      to `region`. */
  lemma FilterByRegionSpec(rows: seq<Clean.Record>, region: string)
    ensures forall x :: x in FilterByRegion(rows, region) <==>
      x in rows && x.province.Some? && Config.RegionOf(x.province.value) == Some(region)
  {
    var ps := ProvincesInRegion(region);
    FilterByProvinceSpec(rows, [], Many(ps));
    Seqs.FilterMembers(Config.RegionKeys, (k: string) => Config.RegionOf(k) == Some(region));
    forall p ensures p in ps <==> Config.RegionOf(p) == Some(region) {
      Tables.LookupSome(Config.RegionKeys, Config.RegionValues, p);
      Seqs.ContainsIff(Config.RegionKeys, p);
    }
  }

  // Top and bottom rows of a year.

  function ValueOf(r: Clean.Record): real { r.value.GetOr(0.0) }

  predicate ValueGe(a: Clean.Record, b: Clean.Record) { ValueOf(a) >= ValueOf(b) }

  predicate ValueLe(a: Clean.Record, b: Clean.Record) { ValueOf(a) <= ValueOf(b) }

  lemma ValueOrdersArePreorders()
    ensures Sorting.TotalPreorder(ValueGe) && Sorting.TotalPreorder(ValueLe)
  {
  }

  /** The rows of `year` with a value, which `nlargest` and `nsmallest`
      order by value. */
  function Candidates(rows: seq<Clean.Record>, year: int): seq<Clean.Record> {
    Seqs.Filter(FilterByYear(rows, One(year)), Clean.HasValue)
  }

  /** The rows of `year` without a value, in table order: `nlargest` and
      `nsmallest` place them after the rows with a value. */
  function MissingRows(rows: seq<Clean.Record>, year: int): seq<Clean.Record> {
    Seqs.Filter(FilterByYear(rows, One(year)), Clean.IsMissing)
  }

  function Order(ascending: bool): (Clean.Record, Clean.Record) -> bool {
    if ascending then ValueLe else ValueGe
  }

  /** The year's rows in the order `nlargest` returns them: the candidates
      by value, largest first (or smallest first when `ascending`), with
      equal values in table order, then the rows without a value. */
  function Ranked(rows: seq<Clean.Record>, year: int, ascending: bool): seq<Clean.Record> {
    Sorting.Sort(Candidates(rows, year), Order(ascending)) + MissingRows(rows, year)
  }

  /** How many rows `nlargest(n)` returns: none for `n <= 0`, at most `n`. */
  function Kept(n: int, available: nat): (k: nat)
    ensures k <= available && (n <= 0 ==> k == 0) && (n > 0 ==> k <= n)
    ensures n > 0 ==> k == available || k == n
  {
    if n <= 0 then 0 else if n >= available then available else n
  }

  /** `filter_top_n(df, year, n, ascending)`. */
  function FilterTopN(rows: seq<Clean.Record>, year: int, n: int, ascending: bool): seq<Clean.Record> {
    var ranked := Ranked(rows, year, ascending);
    ranked[..Kept(n, |ranked|)]
  }

  /** The rows the selection leaves out. */
  function Omitted(rows: seq<Clean.Record>, year: int, n: int, ascending: bool): seq<Clean.Record> {
    var ranked := Ranked(rows, year, ascending);
    ranked[Kept(n, |ranked|)..]
  }

  /** The candidates are the rows of `year` with a value, and the missing
      rows are the rows of `year` without one. */
  lemma CandidatesMembers(rows: seq<Clean.Record>, year: int)
    ensures forall x :: x in Candidates(rows, year) <==> x in rows && x.year == year && x.value.Some?
    ensures forall x :: x in MissingRows(rows, year) <==> x in rows && x.year == year && x.value.None?
  {
    FilterByYearSpec(rows, [], One(year));
    Seqs.FilterMembers(FilterByYear(rows, One(year)), Clean.HasValue);
    Seqs.FilterMembers(FilterByYear(rows, One(year)), Clean.IsMissing);
  }

  /** The ranking holds every row of `year` as often as it occurs, and the
      rows with a value come first, in value order. */
  lemma RankedSpec(rows: seq<Clean.Record>, year: int, ascending: bool)
    ensures multiset(Ranked(rows, year, ascending)) == multiset(FilterByYear(rows, One(year)))
    ensures var ranked := Ranked(rows, year, ascending);
      forall i, j :: 0 <= i < j < |ranked| && ranked[j].value.Some? ==>
        ranked[i].value.Some? && Order(ascending)(ranked[i], ranked[j])
  {
    var cands := Candidates(rows, year);
    var sorted := Sorting.Sort(cands, Order(ascending));
    Sorting.SortPermutation(cands, Order(ascending));
    ValueOrdersArePreorders();
    Sorting.SortSorted(cands, Order(ascending));
    YearRowsSplit(FilterByYear(rows, One(year)), sorted);
    CandidatesMembers(rows, year);
    Sorting.SameElements(sorted, cands);
    PresentFirst(sorted, MissingRows(rows, year), Order(ascending));
  }

  /** Rows with a value and rows without one together are all the rows. */
  lemma YearRowsSplit(ys: seq<Clean.Record>, sorted: seq<Clean.Record>)
    requires multiset(sorted) == multiset(Seqs.Filter(ys, Clean.HasValue))
    ensures multiset(sorted) + multiset(Seqs.Filter(ys, Clean.IsMissing)) == multiset(ys)
  {
    Seqs.FilterMultiset(ys, Clean.HasValue);
    Seqs.FilterMultiset(ys, Clean.IsMissing);
    var missing := Seqs.Filter(ys, Clean.IsMissing);
    forall x ensures (multiset(sorted) + multiset(missing))[x] == multiset(ys)[x] { }
    assert multiset(sorted) + multiset(missing) == multiset(ys);
  }

  /** Sorted rows with a value, followed by rows without one. */
  lemma PresentFirst(sorted: seq<Clean.Record>, missing: seq<Clean.Record>, le: (Clean.Record, Clean.Record) -> bool)
    requires forall x :: x in sorted ==> x.value.Some?
    requires forall x :: x in missing ==> x.value.None?
    requires Sorting.Sorted(sorted, le)
    ensures var ranked := sorted + missing;
      forall i, j :: 0 <= i < j < |ranked| && ranked[j].value.Some? ==> ranked[i].value.Some? && le(ranked[i], ranked[j])
  {
    var ranked := sorted + missing;
    forall j | |sorted| <= j < |ranked| ensures ranked[j].value.None? {
      assert ranked[j] == missing[j - |sorted|];
    }
    forall i | 0 <= i < |sorted| ensures ranked[i] == sorted[i] && ranked[i].value.Some? {
      assert sorted[i] in sorted;
    }
  }

  /** At most `n` rows come back, exactly `n` when the year has that many
      rows and all of them when it has fewer; all are rows of `year`, and
      the rows without a value come last. */
  lemma FilterTopNRows(rows: seq<Clean.Record>, year: int, n: int, ascending: bool)
    ensures |FilterTopN(rows, year, n, ascending)| <= (if n <= 0 then 0 else n)
    ensures n > 0 && n <= |FilterByYear(rows, One(year))| ==> |FilterTopN(rows, year, n, ascending)| == n
    ensures n >= |FilterByYear(rows, One(year))| ==>
      multiset(FilterTopN(rows, year, n, ascending)) == multiset(FilterByYear(rows, One(year)))
    ensures forall x :: x in FilterTopN(rows, year, n, ascending) ==> x in rows && x.year == year
    ensures var top := FilterTopN(rows, year, n, ascending);
      forall i, j :: 0 <= i < j < |top| && top[j].value.Some? ==> top[i].value.Some?
  {
    var ranked := Ranked(rows, year, ascending);
    RankedSpec(rows, year, ascending);
    FilterByYearSpec(rows, [], One(year));
    RankedPrefix(ranked, FilterByYear(rows, One(year)), Kept(n, |ranked|));
  }

  /** A prefix of a reordering of `ys`: its elements come from `ys`, the
      rows without a value stay last, and the whole reordering is `ys`
      again. */
  lemma RankedPrefix(ranked: seq<Clean.Record>, ys: seq<Clean.Record>, k: nat)
    requires multiset(ranked) == multiset(ys) && k <= |ranked|
    requires forall i, j :: 0 <= i < j < |ranked| && ranked[j].value.Some? ==> ranked[i].value.Some?
    ensures |ranked| == |ys|
    ensures forall x :: x in ranked[..k] ==> x in ys
    ensures k == |ranked| ==> multiset(ranked[..k]) == multiset(ys)
    ensures var top := ranked[..k];
      forall i, j :: 0 <= i < j < |top| && top[j].value.Some? ==> top[i].value.Some?
  {
    assert |multiset(ranked)| == |multiset(ys)|;
    forall x | x in ranked[..k] ensures x in ys {
      assert x in multiset(ranked);
    }
    if k == |ranked| {
      assert ranked[..k] == ranked;
    }
  }

  /** The returned and the omitted rows together are the year's rows. */
  lemma FilterTopNPartition(rows: seq<Clean.Record>, year: int, n: int, ascending: bool)
    ensures multiset(FilterTopN(rows, year, n, ascending)) + multiset(Omitted(rows, year, n, ascending))
      == multiset(FilterByYear(rows, One(year)))
  {
    var ranked := Ranked(rows, year, ascending);
    RankedSpec(rows, year, ascending);
    var k := Kept(n, |ranked|);
    assert ranked == ranked[..k] + ranked[k..];
  }

  /** While an omitted row has a value, every returned row has one, and its
      value is at least the omitted one (at most, with `ascending`); rows
      without a value are returned only once every row with a value is. */
  lemma FilterTopNOrder(rows: seq<Clean.Record>, year: int, n: int, ascending: bool)
    ensures var top, rest := FilterTopN(rows, year, n, ascending), Omitted(rows, year, n, ascending);
      forall i, j :: 0 <= i < |top| && 0 <= j < |rest| && rest[j].value.Some? ==>
        top[i].value.Some? &&
        if ascending then ValueOf(top[i]) <= ValueOf(rest[j]) else ValueOf(top[i]) >= ValueOf(rest[j])
  {
    var ranked := Ranked(rows, year, ascending);
    RankedSpec(rows, year, ascending);
    var k := Kept(n, |ranked|);
    forall i, j | 0 <= i < k && 0 <= j < |ranked| - k && ranked[k..][j].value.Some?
      ensures ranked[..k][i].value.Some? &&
        if ascending then ValueOf(ranked[..k][i]) <= ValueOf(ranked[k..][j])
        else ValueOf(ranked[..k][i]) >= ValueOf(ranked[k..][j])
    {
      assert ranked[..k][i] == ranked[i] && ranked[k..][j] == ranked[k + j];
    }
  }
}
