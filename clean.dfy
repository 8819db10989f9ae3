/** The cleaning pipeline `clean_electricity_data` and its stages: dropping
    rows without a province, removing the national aggregate row (which also
    rewrites the caller's Province column), normalising province names,
    cleaning the value column, the missing-value policy, de-duplication,
    sorting by (Year, Province) and the data-quality report. */
module Clean {
  import opened Wrappers
  import Seqs
  import Text
  import Sorting
  import ProvinceMapping
  import NumericCleaning
  import NameCleaning

  /** A row as it reaches the cleaner: the value is still a raw cell. */
  datatype RawRecord = RawRecord(province: Option<string>, year: int, value: NumericCleaning.Cell)

  /** A row after the value column is cleaned: a number or missing. */
  datatype Record = Record(province: Option<string>, year: int, value: Option<real>)

  // Step 0: rows without a province name.

  /** `df['Province'].notna()`. */
  predicate NotNull(r: RawRecord) { r.province.Some? }

  /** `df['Province'].astype(str).str.strip() != ''`; a missing name renders
      as non-blank text and passes. */
  predicate NotBlank(r: RawRecord) { r.province.Some? ==> Text.Strip(r.province.value) != "" }

  // Step 1: the national aggregate row.

  /** `df['Province'].str.strip().str.upper()` on one row; a missing name
      stays missing. */
  function CleanProvince(r: RawRecord): RawRecord {
    match r.province
    case None => r
    case Some(p) => r.(province := Some(ProvinceMapping.CleanName(p)))
  }

  predicate NotAggregate(r: RawRecord) { r.province != Some(ProvinceMapping.Indonesia) }

  predicate IsAggregate(r: RawRecord) { r.province == Some(ProvinceMapping.Indonesia) }

  /** The rows `remove_indonesia_row` returns: the cleaned rows whose name is
      not `INDONESIA`, in order. */
  function WithoutAggregate(rows: seq<RawRecord>): seq<RawRecord> {
    Seqs.Filter(Seqs.Map(rows, CleanProvince), NotAggregate)
  }

  /** No aggregate row is left, every other cleaned row is kept, and the
      number of rows removed is the number of aggregate rows. */
  lemma WithoutAggregateSpec(rows: seq<RawRecord>)
    ensures forall x :: x in WithoutAggregate(rows) <==>
      x in Seqs.Map(rows, CleanProvince) && x.province != Some(ProvinceMapping.Indonesia)
    ensures |rows| - |WithoutAggregate(rows)| == Seqs.Count(Seqs.Map(rows, CleanProvince), IsAggregate)
  {
    Seqs.FilterMembers(Seqs.Map(rows, CleanProvince), NotAggregate);
    Seqs.FilterSplit(Seqs.Map(rows, CleanProvince), NotAggregate, IsAggregate);
  }

  /** A data frame whose Province column a stage rewrites in place. */
  class Frame {
    var rows: seq<RawRecord>

    constructor (rows: seq<RawRecord>)
      ensures this.rows == rows
    {
      this.rows := rows;
    }
  }

  /** `remove_indonesia_row(df)`: cleans the Province column of `df` itself,
      then returns a new frame without the aggregate rows and the number of
      rows removed. */
  method RemoveIndonesiaRow(df: Frame) returns (clean: Frame, removed: nat)
    modifies df
    ensures df.rows == Seqs.Map(old(df.rows), CleanProvince)
    ensures fresh(clean) && clean.rows == WithoutAggregate(old(df.rows))
    ensures removed == |df.rows| - |clean.rows|
    ensures removed == Seqs.Count(df.rows, IsAggregate)
  {
    WithoutAggregateSpec(df.rows);
    df.rows := Seqs.Map(df.rows, CleanProvince);
    clean := new Frame(Seqs.Filter(df.rows, NotAggregate));
    removed := |df.rows| - |clean.rows|;
  }

  // Step 2: province names.

  /** `normalize_province_names` on one row; a missing name stays missing. */
  function NormalizeRow(r: RawRecord): RawRecord {
    match r.province
    case None => r
    case Some(p) => r.(province := Some(NameCleaning.NormalizeName(p)))
  }

  function NormalizeProvinceNames(rows: seq<RawRecord>): seq<RawRecord> {
    Seqs.Map(rows, NormalizeRow)
  }

  // Step 3: the value column.

  /** `clean_numeric_column` applied to the row's value. */
  function CleanValue(r: RawRecord): Record {
    Record(r.province, r.year, NumericCleaning.CleanCell(r.value))
  }

  function CleanValues(rows: seq<RawRecord>): seq<Record> {
    Seqs.Map(rows, CleanValue)
  }

  // Step 4: missing values.

  predicate IsMissing(r: Record) { r.value.None? }

  predicate HasValue(r: Record) { r.value.Some? }

  /** The present values of the column, in order. */
  function PresentValues(rows: seq<Record>): (vs: seq<real>)
    ensures |vs| == Seqs.Count(rows, HasValue)
  {
    if rows == [] then []
    else
      var last := rows[|rows| - 1];
      PresentValues(rows[..|rows| - 1]) + if last.value.Some? then [last.value.value] else []
  }

  /** The present values of a table grown by one row. */
  lemma PresentValuesSnoc(rows: seq<Record>, x: Record)
    ensures PresentValues(rows + [x]) == PresentValues(rows) + if x.value.Some? then [x.value.value] else []
  {
    assert (rows + [x])[..|rows|] == rows;
  }

  /** `Series.mean()`, which skips missing values. */
  function Mean(vs: seq<real>): real
    requires vs != []
  {
    Seqs.Sum(vs) / (|vs| as real)
  }

  /** `fillna(x)` on one row. */
  function Fill(r: Record, x: real): Record {
    if r.value.None? then r.(value := Some(x)) else r
  }

  function FillColumn(rows: seq<Record>, x: real): seq<Record> {
    Seqs.Map(rows, r => Fill(r, x))
  }

  /** `handle_missing_values(df, method=policy)`: nothing changes when no
      value is missing; otherwise `drop` removes the rows with a missing
      value, `fill_zero` fills them with 0, `fill_mean` with the mean of the
      present values (when there is none the mean is undefined and nothing is
      filled), and any other method changes nothing. */
  function HandleMissingValues(rows: seq<Record>, policy: string): seq<Record> {
    if Seqs.Count(rows, IsMissing) == 0 then rows
    else if policy == "drop" then Seqs.Filter(rows, HasValue)
    else if policy == "fill_zero" then FillColumn(rows, 0.0)
    else if policy == "fill_mean" then
      var present := PresentValues(rows);
      if present == [] then rows else FillColumn(rows, Mean(present))
    else rows
  }

  /** `drop` removes exactly the rows whose value is missing, keeping the
      others in order. */
  lemma DropMissing(rows: seq<Record>)
    ensures HandleMissingValues(rows, "drop") == Seqs.Filter(rows, HasValue)
    ensures forall x :: x in HandleMissingValues(rows, "drop") <==> x in rows && x.value.Some?
    ensures |HandleMissingValues(rows, "drop")| == |rows| - Seqs.Count(rows, IsMissing)
  {
    Seqs.CountZero(rows, IsMissing);
    if Seqs.Count(rows, IsMissing) == 0 {
      Seqs.FilterAll(rows, HasValue);
    }
    Seqs.FilterMembers(rows, HasValue);
    Seqs.FilterSplit(rows, HasValue, IsMissing);
  }

  /** `fill_zero` keeps every row and sets each missing value to 0. */
  lemma FillZero(rows: seq<Record>)
    ensures |HandleMissingValues(rows, "fill_zero")| == |rows|
    ensures forall i :: 0 <= i < |rows| ==>
      HandleMissingValues(rows, "fill_zero")[i] == if rows[i].value.None? then rows[i].(value := Some(0.0)) else rows[i]
  {
    Seqs.CountZero(rows, IsMissing);
  }

  /** `fill_mean` keeps every row and, when some value is present, sets each
      missing value to the mean of the present ones. */
  lemma FillMean(rows: seq<Record>)
    ensures |HandleMissingValues(rows, "fill_mean")| == |rows|
    ensures Seqs.Count(rows, HasValue) > 0 ==> forall i :: 0 <= i < |rows| ==>
      HandleMissingValues(rows, "fill_mean")[i] ==
        if rows[i].value.None? then rows[i].(value := Some(Mean(PresentValues(rows)))) else rows[i]
    ensures Seqs.Count(rows, HasValue) == 0 ==> HandleMissingValues(rows, "fill_mean") == rows
  {
    Seqs.CountZero(rows, IsMissing);
  }

  /** After `drop` or `fill_zero` no value is missing; an unknown method
      returns the rows unchanged. */
  lemma HandledNoMissing(rows: seq<Record>, policy: string)
    ensures policy == "drop" || policy == "fill_zero" ==>
      forall x :: x in HandleMissingValues(rows, policy) ==> x.value.Some?
    ensures policy != "drop" && policy != "fill_zero" && policy != "fill_mean" ==>
      HandleMissingValues(rows, policy) == rows
  {
    Seqs.CountZero(rows, IsMissing);
    DropMissing(rows);
  }

  // Step 6: the sort key.

  /** Province names in ascending order, missing names last. */
  predicate ProvinceLe(a: Option<string>, b: Option<string>) {
    b.None? || (a.Some? && Text.StrLe(a.value, b.value))
  }

  /** The order of `sort_values(['Year', 'Province'])`. */
  predicate RecordLe(a: Record, b: Record) {
    a.year < b.year || (a.year == b.year && ProvinceLe(a.province, b.province))
  }

  lemma RecordLeTotalPreorder()
    ensures Sorting.TotalPreorder(RecordLe)
  {
    forall a: Record, b: Record ensures RecordLe(a, b) || RecordLe(b, a) {
      if a.province.Some? && b.province.Some? {
        Text.StrLeTotal(a.province.value, b.province.value);
      }
    }
    forall a: Record, b: Record, c: Record | RecordLe(a, b) && RecordLe(b, c) ensures RecordLe(a, c) {
      if a.year == b.year == c.year && a.province.Some? && b.province.Some? && c.province.Some? {
        Text.StrLeTransitive(a.province.value, b.province.value, c.province.value);
      }
    }
  }

  // Step 7: the data-quality report.

  /** The fields of `validate_data_quality`'s report; Year is never missing
      here, so its missing count is left out. */
  datatype QualityReport = QualityReport(
    totalRows: nat, totalProvinces: nat, totalYears: nat,
    missingProvinces: nat, missingValues: nat,
    duplicates: nat, negativeValues: nat, zeroValues: nat)

  /** The present province names, in order. */
  function Provinces(rows: seq<Record>): (ps: seq<string>)
    ensures |ps| <= |rows|
  {
    if rows == [] then []
    else
      var last := rows[|rows| - 1];
      Provinces(rows[..|rows| - 1]) + if last.province.Some? then [last.province.value] else []
  }

  function Years(rows: seq<Record>): seq<int> {
    Seqs.Map(rows, (r: Record) => r.year)
  }

  /** `df.duplicated().sum()`: the rows equal to an earlier row. */
  function Duplicated(rows: seq<Record>): nat {
    if rows == [] then 0
    else Duplicated(rows[..|rows| - 1]) + if rows[|rows| - 1] in rows[..|rows| - 1] then 1 else 0
  }

  predicate ProvinceMissing(r: Record) { r.province.None? }

  /** `(df['Electricity_GWh'] < 0)`: a missing value compares false. */
  predicate IsNegative(r: Record) { r.value.Some? && r.value.value < 0.0 }

  predicate IsZero(r: Record) { r.value == Some(0.0) }

  /** `validate_data_quality(df)`. */
  function ValidateDataQuality(rows: seq<Record>): (report: QualityReport)
    ensures report.totalProvinces <= report.totalRows && report.totalYears <= report.totalRows
    ensures report.missingProvinces <= report.totalRows && report.missingValues <= report.totalRows
  {
    QualityReport(
      |rows|,
      |Seqs.Distinct(Provinces(rows))|,
      |Seqs.Distinct(Years(rows))|,
      Seqs.Count(rows, ProvinceMissing),
      Seqs.Count(rows, IsMissing),
      Duplicated(rows),
      Seqs.Count(rows, IsNegative),
      Seqs.Count(rows, IsZero))
  }

  /** The duplicate count is the number of rows `drop_duplicates` would
      remove, and it is zero exactly when no row repeats. */
  lemma {:induction false} DuplicatedSpec(rows: seq<Record>)
    ensures Duplicated(rows) == |rows| - |Seqs.Distinct(rows)|
    ensures Duplicated(rows) == 0 <==> Seqs.NoDuplicates(rows)
  {
    if rows != [] {
      var init := rows[..|rows| - 1];
      var last := rows[|rows| - 1];
      assert rows == init + [last];
      DuplicatedSpec(init);
      Seqs.NoDuplicatesSnoc(init, last);
    }
  }

  /** The report's counts of missing names and values are zero exactly when
      no name and no value is missing. */
  lemma ReportMissing(rows: seq<Record>)
    ensures ValidateDataQuality(rows).missingProvinces == 0 <==> forall i :: 0 <= i < |rows| ==> rows[i].province.Some?
    ensures ValidateDataQuality(rows).missingValues == 0 <==> forall i :: 0 <= i < |rows| ==> rows[i].value.Some?
  {
    Seqs.CountZero(rows, ProvinceMissing);
    Seqs.CountZero(rows, IsMissing);
  }

  // The pipeline.

  /** Step 0: the rows with a present, non-blank name. */
  function Named(raw: seq<RawRecord>): seq<RawRecord> {
    Seqs.Filter(Seqs.Filter(raw, NotNull), NotBlank)
  }

  /** Steps 2 to 4 on the rows left by step 1. */
  function Finished(rows: seq<RawRecord>): seq<Record> {
    HandleMissingValues(CleanValues(NormalizeProvinceNames(rows)), "drop")
  }

  /** The rows that reach the de-duplication step. */
  function Survivors(raw: seq<RawRecord>): seq<Record> {
    Finished(WithoutAggregate(Named(raw)))
  }

  /** The table `clean_electricity_data` returns. */
  function CleanedData(raw: seq<RawRecord>): seq<Record> {
    Sorting.Sort(Seqs.Distinct(Survivors(raw)), RecordLe)
  }

  /** Whether a raw row survives the stages that remove rows: its name is
      present and not blank, its cleaned name is not `INDONESIA`, and its
      value cleans to a number. */
  predicate Survives(r: RawRecord) {
    && r.province.Some?
    && Text.Strip(r.province.value) != ""
    && ProvinceMapping.CleanName(r.province.value) != ProvinceMapping.Indonesia
    && NumericCleaning.CleanCell(r.value).Some?
  }

  /** What a surviving row becomes: its normalised name, its year and its
      cleaned value. */
  function CleanedRow(r: RawRecord): Record {
    match r.province
    case None => Record(None, r.year, NumericCleaning.CleanCell(r.value))
    case Some(p) =>
      Record(Some(NameCleaning.NormalizeName(ProvinceMapping.CleanName(p))), r.year, NumericCleaning.CleanCell(r.value))
  }

  /** The row-removing stages act row by row: the survivors are the cleaned
      surviving raw rows, in their original order. */
  lemma {:induction false} SurvivorsRowByRow(raw: seq<RawRecord>)
    ensures Survivors(raw) == Seqs.Map(Seqs.Filter(raw, Survives), CleanedRow)
  {
    if raw == [] {
      DropMissing([]);
    } else {
      var init := raw[..|raw| - 1];
      var x := raw[|raw| - 1];
      assert raw == init + [x];
      SurvivorsRowByRow(init);
      SurvivorsSnoc(init, x);
      Seqs.FilterSnoc(init, x, Survives);
      Seqs.MapSnoc(Seqs.Filter(init, Survives), x, CleanedRow);
    }
  }

  /** The survivors of a table grown by one row. */
  lemma SurvivorsSnoc(s: seq<RawRecord>, x: RawRecord)
    ensures Survivors(s + [x]) == Survivors(s) + if Survives(x) then [CleanedRow(x)] else []
  {
    NamedSnoc(s, x);
    var y := CleanProvince(x);
    if NotNull(x) && NotBlank(x) {
      WithoutAggregateSnoc(Named(s), x);
      if NotAggregate(y) {
        FinishedSnoc(WithoutAggregate(Named(s)), y);
      } else {
        assert WithoutAggregate(Named(s + [x])) == WithoutAggregate(Named(s));
      }
    } else {
      assert Named(s + [x]) == Named(s);
    }
  }

  lemma NamedSnoc(s: seq<RawRecord>, x: RawRecord)
    ensures Named(s + [x]) == Named(s) + if NotNull(x) && NotBlank(x) then [x] else []
  {
    Seqs.FilterSnoc(s, x, NotNull);
    if NotNull(x) {
      Seqs.FilterSnoc(Seqs.Filter(s, NotNull), x, NotBlank);
    } else {
      assert Seqs.Filter(s + [x], NotNull) == Seqs.Filter(s, NotNull);
    }
  }

  lemma WithoutAggregateSnoc(s: seq<RawRecord>, x: RawRecord)
    ensures WithoutAggregate(s + [x]) == WithoutAggregate(s) + if NotAggregate(CleanProvince(x)) then [CleanProvince(x)] else []
  {
    Seqs.MapSnoc(s, x, CleanProvince);
    Seqs.FilterSnoc(Seqs.Map(s, CleanProvince), CleanProvince(x), NotAggregate);
  }

  /** Steps 2 to 4 on a row that passed step 1: it is kept exactly when its
      value cleans to a number. */
  lemma FinishedSnoc(w: seq<RawRecord>, y: RawRecord)
    ensures Finished(w + [y]) == Finished(w) + if HasValue(CleanValue(NormalizeRow(y))) then [CleanValue(NormalizeRow(y))] else []
  {
    var v := CleanValue(NormalizeRow(y));
    Seqs.MapSnoc(w, y, NormalizeRow);
    Seqs.MapSnoc(NormalizeProvinceNames(w), NormalizeRow(y), CleanValue);
    var cv := CleanValues(NormalizeProvinceNames(w));
    assert CleanValues(NormalizeProvinceNames(w + [y])) == cv + [v];
    DropMissing(cv);
    DropMissing(cv + [v]);
    Seqs.FilterSnoc(cv, v, HasValue);
  }

  /** A surviving row is one kept by every stage, and what the stages make of
      it is `CleanedRow`. */
  lemma SurvivesIff(x: RawRecord)
    ensures Survives(x) <==> (NotNull(x) && NotBlank(x) && NotAggregate(CleanProvince(x))
      && HasValue(CleanValue(NormalizeRow(CleanProvince(x)))))
    ensures x.province.Some? ==> CleanValue(NormalizeRow(CleanProvince(x))) == CleanedRow(x)
  {
  }

  /** Every cleaned row has a present, non-blank, trimmed, upper-case and
      single-spaced name that is not `INDONESIA`, and a value. */
  predicate CleanRow(r: Record) {
    && r.province.Some?
    && r.province.value != ""
    && NameCleaning.Tidy(r.province.value)
    && r.province.value != ProvinceMapping.Indonesia
    && r.value.Some?
  }

  lemma CleanedRowClean(r: RawRecord)
    requires Survives(r)
    ensures CleanRow(CleanedRow(r))
  {
    var p := r.province.value;
    var q := ProvinceMapping.CleanName(p);
    NameCleaning.NormalizeTidy(q);
    Text.StripNoEdgeSpace(q);
    assert Text.Strip(q) != [] by {
      assert |q| == |Text.Strip(p)|;
    }
    NameCleaning.NormalizeNotAggregate(q);
  }

  /** The cleaned table is an ordering of the distinct survivors: it holds
      each surviving row once, sorted by year and then province. */
  lemma CleanedDataOrdered(raw: seq<RawRecord>)
    ensures multiset(CleanedData(raw)) == multiset(Seqs.Distinct(Seqs.Map(Seqs.Filter(raw, Survives), CleanedRow)))
    ensures Seqs.NoDuplicates(CleanedData(raw))
    ensures Sorting.Sorted(CleanedData(raw), RecordLe)
    ensures forall x :: x in CleanedData(raw) <==> x in Survivors(raw)
  {
    var d := Seqs.Distinct(Survivors(raw));
    SurvivorsRowByRow(raw);
    Sorting.SortPermutation(d, RecordLe);
    RecordLeTotalPreorder();
    Sorting.SortSorted(d, RecordLe);
    Seqs.NoDuplicatesPermutation(CleanedData(raw), d);
    Sorting.SameElements(CleanedData(raw), d);
  }

  /** A row is in the cleaned table exactly when it is what the stages make
      of some surviving raw row; every such row is clean. */
  lemma CleanedDataMembers(raw: seq<RawRecord>)
    ensures forall x :: x in CleanedData(raw) <==>
      exists i :: 0 <= i < |raw| && Survives(raw[i]) && x == CleanedRow(raw[i])
    ensures forall x :: x in CleanedData(raw) ==> CleanRow(x)
  {
    CleanedDataOrdered(raw);
    SurvivorsRowByRow(raw);
    Seqs.MapFilterMembers(raw, Survives, CleanedRow);
    forall x | x in CleanedData(raw) ensures CleanRow(x) {
      var i :| 0 <= i < |raw| && Survives(raw[i]) && x == CleanedRow(raw[i]);
      CleanedRowClean(raw[i]);
    }
  }

  /** The report on the cleaned table counts no duplicate row and no missing
      name or value. */
  lemma CleanedDataReport(raw: seq<RawRecord>)
    ensures ValidateDataQuality(CleanedData(raw)).duplicates == 0
    ensures ValidateDataQuality(CleanedData(raw)).missingProvinces == 0
    ensures ValidateDataQuality(CleanedData(raw)).missingValues == 0
  {
    var df := CleanedData(raw);
    CleanedDataOrdered(raw);
    CleanedDataMembers(raw);
    DuplicatedSpec(df);
    ReportMissing(df);
    assert forall i :: 0 <= i < |df| ==> CleanRow(df[i]);
  }

  /** A cleaned row read back as a raw row: its value becomes a number cell. */
  function Reraw(r: Record): RawRecord {
    RawRecord(r.province, r.year, if r.value.Some? then NumericCleaning.Num(r.value.value) else NumericCleaning.Missing)
  }

  /** A clean row whose name is already normalised survives every stage
      again and comes out as itself. */
  lemma RerawUnchanged(r: Record)
    requires CleanRow(r) && NameCleaning.NormalizeName(r.province.value) == r.province.value
    ensures Survives(Reraw(r)) && CleanedRow(Reraw(r)) == r
  {
    var p := r.province.value;
    ProvinceMapping.CleanCanonical(p);
    Text.StripNoEdgeSpace(p);
  }

  /** Cleaning an already cleaned table changes nothing: the same rows come
      out in the same order. */
  lemma CleaningIdempotent(raw: seq<RawRecord>)
    ensures CleanedData(Seqs.Map(CleanedData(raw), Reraw)) == CleanedData(raw)
  {
    var c := CleanedData(raw);
    var again := Seqs.Map(c, Reraw);
    CleanedDataOrdered(raw);
    CleanedDataMembers(raw);
    forall i | 0 <= i < |c| ensures Survives(again[i]) && CleanedRow(again[i]) == c[i] {
      assert c[i] in c;
      var j :| 0 <= j < |raw| && Survives(raw[j]) && c[i] == CleanedRow(raw[j]);
      NameCleaning.NormalizeIdempotent(ProvinceMapping.CleanName(raw[j].province.value));
      RerawUnchanged(c[i]);
    }
    Seqs.FilterAll(again, Survives);
    SurvivorsRowByRow(again);
    assert Seqs.Map(again, CleanedRow) == c;
    Seqs.DistinctOfNoDuplicates(c);
    Sorting.SortOfSorted(c, RecordLe);
  }

  /** `clean_electricity_data(df)`, stage by stage; the quality report it
      prints is returned beside the table. */
  method CleanElectricityData(raw: seq<RawRecord>) returns (df: seq<Record>, report: QualityReport)
    ensures df == CleanedData(raw)
    ensures forall x :: x in df ==> CleanRow(x)
    ensures Seqs.NoDuplicates(df) && Sorting.Sorted(df, RecordLe)
    ensures multiset(df) == multiset(Seqs.Distinct(Seqs.Map(Seqs.Filter(raw, Survives), CleanedRow)))
    ensures report == ValidateDataQuality(df)
    ensures report.totalRows == |df| && report.duplicates == 0
    ensures report.missingProvinces == 0 && report.missingValues == 0
  {
    var rows := Seqs.Filter(raw, NotNull);
    rows := Seqs.Filter(rows, NotBlank);
    assert rows == Named(raw);
    var frame := new Frame(rows);
    var withoutAggregate, removed := RemoveIndonesiaRow(frame);
    var kept := withoutAggregate.rows;
    assert kept == WithoutAggregate(Named(raw));
    rows := NormalizeProvinceNames(kept);
    var records := CleanValues(rows);
    records := HandleMissingValues(records, "drop");
    assert records == Finished(kept);
    assert records == Survivors(raw);
    records := Seqs.Distinct(records);
    df := Sorting.Sort(records, RecordLe);
    CleanedDataOrdered(raw);
    CleanedDataMembers(raw);
    CleanedDataReport(raw);
    report := ValidateDataQuality(df);
  }
}
