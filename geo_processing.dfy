/** Joining the electricity table with the province boundaries: boundary
    names are cleaned, every table row is annotated with the boundary name of
    its province, the boundary features are left-joined with the annotated
    rows, rows without a boundary name are filtered out, and summary and
    matching statistics are derived. Geometry is carried along unread. */
module GeoProcessing {
  import opened Wrappers
  import Seqs
  import Text
  import Sorting
  import ProvinceMapping
  import Clean

  /** A boundary feature: its `Propinsi` name (missing when not a string)
      and its geometry, which no operation here looks into. */
  datatype GeoFeature = GeoFeature(name: Option<string>, geometry: nat)

  /** A boundary table; `hasPropinsi` tells whether the name column exists. */
  datatype GeoFrame = GeoFrame(hasPropinsi: bool, features: seq<GeoFeature>)

  /** `str.strip().str.upper()` on a feature name; a missing name stays missing. */
  function CleanFeature(f: GeoFeature): GeoFeature {
    match f.name
    case None => f
    case Some(n) => f.(name := Some(ProvinceMapping.CleanName(n)))
  }

  /** `prepare_geojson(gdf)`. */
  function PrepareGeojson(gdf: GeoFrame): (r: Result<GeoFrame, string>)
    ensures r.Failure? <==> !gdf.hasPropinsi
    ensures r.Success? ==> r.value.hasPropinsi && |r.value.features| == |gdf.features|
  {
    if !gdf.hasPropinsi then Failure("Column 'Propinsi' not found in GeoDataFrame!")
    else Success(GeoFrame(true, Seqs.Map(gdf.features, CleanFeature)))
  }

  /** Each prepared feature keeps its geometry, and its name is the trimmed,
      upper-case form of the original one. */
  lemma PrepareGeojsonNames(gdf: GeoFrame)
    requires gdf.hasPropinsi
    ensures forall i :: 0 <= i < |gdf.features| ==>
      var f := PrepareGeojson(gdf).value.features[i];
      f.geometry == gdf.features[i].geometry
      && (f.name.None? <==> gdf.features[i].name.None?)
      && (f.name.Some? ==>
            f.name.value == ProvinceMapping.CleanName(gdf.features[i].name.value)
            && Text.IsUpperCase(f.name.value) && Text.NoEdgeSpace(f.name.value))
  {
  }

  /** A table row with its `Province_GeoJSON` column. */
  datatype MappedRow = MappedRow(row: Clean.Record, geoName: Option<string>)

  function Annotate(r: Clean.Record): MappedRow {
    MappedRow(r, ProvinceMapping.GetGeoJsonName(r.province))
  }

  /** `add_geojson_names(df)`: every row kept, in order, with its boundary name. */
  function AddGeojsonNames(rows: seq<Clean.Record>): seq<MappedRow> {
    Seqs.Map(rows, Annotate)
  }

  /** Every row is kept unchanged beside a boundary name, which is present
      exactly when the row's cleaned province is a mapping key. */
  lemma AddGeojsonNamesSpec(rows: seq<Clean.Record>)
    ensures |AddGeojsonNames(rows)| == |rows|
    ensures forall i :: 0 <= i < |rows| ==>
      AddGeojsonNames(rows)[i].row == rows[i]
      && (AddGeojsonNames(rows)[i].geoName.Some? <==>
            rows[i].province.Some? && ProvinceMapping.IsKey(ProvinceMapping.CleanName(rows[i].province.value)))
  {
  }

  predicate IsMapped(m: MappedRow) { m.geoName.Some? }

  predicate IsUnmapped(m: MappedRow) { m.geoName.None? }

  /** `df['Province_GeoJSON'].notna().sum()`. */
  function MappedCount(annotated: seq<MappedRow>): nat {
    Seqs.Count(annotated, IsMapped)
  }

  /** `df[df['Province_GeoJSON'].isna()][province_col].unique()`: the
      province values of the unmapped rows, each once, in first-seen order
      (a missing province is one of them). */
  function UnmappedNames(annotated: seq<MappedRow>): seq<Option<string>> {
    Seqs.Distinct(Seqs.Map(Seqs.Filter(annotated, IsUnmapped), (m: MappedRow) => m.row.province))
  }

  /** The mapped and the unmapped rows together are all rows; the unmapped
      names are exactly the provinces of the rows without a boundary name. */
  lemma MappedUnmappedCounts(rows: seq<Clean.Record>)
    ensures MappedCount(AddGeojsonNames(rows)) + Seqs.Count(AddGeojsonNames(rows), IsUnmapped) == |rows|
    ensures forall p :: p in UnmappedNames(AddGeojsonNames(rows)) <==>
      exists i :: 0 <= i < |rows| && ProvinceMapping.GetGeoJsonName(rows[i].province).None? && p == rows[i].province
  {
    var annotated := AddGeojsonNames(rows);
    Seqs.FilterSplit(annotated, IsMapped, IsUnmapped);
    Seqs.MapFilterMembers(annotated, IsUnmapped, (m: MappedRow) => m.row.province);
  }

  /** A row whose province is one of the pending splits (in any case and
      spacing) has no boundary name, so its name is among the unmapped ones.
      The console line that labels such a name as pending is output and is
      not modelled. */
  lemma PendingSplitsUnmapped(rows: seq<Clean.Record>, i: nat)
    requires i < |rows| && rows[i].province.Some?
    requires Seqs.Contains(ProvinceMapping.PendingSplits, ProvinceMapping.CleanName(rows[i].province.value))
    ensures AddGeojsonNames(rows)[i].geoName.None?
    ensures rows[i].province in UnmappedNames(AddGeojsonNames(rows))
  {
    ProvinceMapping.NotInMapping();
    Seqs.ContainsIff(ProvinceMapping.PendingSplits, ProvinceMapping.CleanName(rows[i].province.value));
    MappedUnmappedCounts(rows);
  }

  // The left join.

  /** A joined row: a feature with its matching table row, or with none. */
  datatype MergedRow = MergedRow(feature: GeoFeature, data: Option<MappedRow>)

  /** The table rows whose boundary name equals the feature's name; as in
      pandas, a missing name matches a missing name. */
  function Matches(f: GeoFeature, annotated: seq<MappedRow>): seq<MappedRow> {
    Seqs.Filter(annotated, (m: MappedRow) => m.geoName == f.name)
  }

  /** The joined rows of one feature: one per match, or the feature alone. */
  function JoinFeature(f: GeoFeature, annotated: seq<MappedRow>): (r: seq<MergedRow>)
    ensures |r| == if |Matches(f, annotated)| == 0 then 1 else |Matches(f, annotated)|
  {
    var ms := Matches(f, annotated);
    if ms == [] then [MergedRow(f, None)]
    else Seqs.Map(ms, (m: MappedRow) => MergedRow(f, Some(m)))
  }

  /** The per-feature blocks of the left join, in feature order. What each
      block holds is stated by `JoinFeatureMembers` and `JoinFeatureNulls`. */
  function JoinBlocks(features: seq<GeoFeature>, annotated: seq<MappedRow>): (r: seq<seq<MergedRow>>)
    ensures |r| == |features|
    ensures forall i :: 0 <= i < |features| ==> r[i] == JoinFeature(features[i], annotated)
  {
    Seqs.Map(features, (f: GeoFeature) => JoinFeature(f, annotated))
  }

  function LeftJoin(features: seq<GeoFeature>, annotated: seq<MappedRow>): seq<MergedRow> {
    Seqs.Flatten(JoinBlocks(features, annotated))
  }

  /** `merge_with_geojson(df, gdf)` with `how='left'`: the prepared features
      joined with the annotated rows on the boundary name. */
  function MergeWithGeojson(annotated: seq<MappedRow>, gdf: GeoFrame): (r: Result<seq<MergedRow>, string>)
    ensures r.Failure? <==> !gdf.hasPropinsi
  {
    match PrepareGeojson(gdf)
    case Failure(e) => Failure(e)
    case Success(prepared) => Success(LeftJoin(prepared.features, annotated))
  }

  /** `max(k, 1)` copies of a feature with `k` matches. */
  function Copies(f: GeoFeature, annotated: seq<MappedRow>): nat {
    var k := |Matches(f, annotated)|;
    if k == 0 then 1 else k
  }

  function TotalCopies(features: seq<GeoFeature>, annotated: seq<MappedRow>): nat {
    if features == [] then 0
    else TotalCopies(features[..|features| - 1], annotated) + Copies(features[|features| - 1], annotated)
  }

  /** Each feature with `k` matching rows contributes `max(k, 1)` joined rows. */
  lemma {:induction false} LeftJoinLength(features: seq<GeoFeature>, annotated: seq<MappedRow>)
    ensures |LeftJoin(features, annotated)| == TotalCopies(features, annotated)
  {
    Seqs.FlattenContents(JoinBlocks(features, annotated));
    SumLengthsCopies(features, annotated);
  }

  lemma {:induction false} SumLengthsCopies(features: seq<GeoFeature>, annotated: seq<MappedRow>)
    ensures Seqs.SumLengths(JoinBlocks(features, annotated)) == TotalCopies(features, annotated)
  {
    if features != [] {
      var init := features[..|features| - 1];
      SumLengthsCopies(init, annotated);
      assert JoinBlocks(features, annotated)[..|features| - 1] == JoinBlocks(init, annotated);
    }
  }

  /** With named features and at most one row per boundary name (a single
      year of data), every feature appears exactly once. */
  lemma SingleYearJoinLength(features: seq<GeoFeature>, annotated: seq<MappedRow>)
    requires forall i :: 0 <= i < |features| ==> features[i].name.Some?
    requires forall i, j :: 0 <= i < j < |annotated| && annotated[i].geoName.Some? ==> annotated[i].geoName != annotated[j].geoName
    ensures |LeftJoin(features, annotated)| == |features|
  {
    LeftJoinLength(features, annotated);
    forall i | 0 <= i < |features| ensures Copies(features[i], annotated) == 1 {
      AtMostOneMatch(features[i], annotated);
    }
    AllSingleCopies(features, annotated);
  }

  lemma {:induction false} AllSingleCopies(features: seq<GeoFeature>, annotated: seq<MappedRow>)
    requires forall i :: 0 <= i < |features| ==> Copies(features[i], annotated) == 1
    ensures TotalCopies(features, annotated) == |features|
  {
    if features != [] {
      AllSingleCopies(features[..|features| - 1], annotated);
    }
  }

  /** A named feature matches at most one row when no boundary name repeats. */
  lemma {:induction false} AtMostOneMatch(f: GeoFeature, annotated: seq<MappedRow>)
    requires f.name.Some?
    requires forall i, j :: 0 <= i < j < |annotated| && annotated[i].geoName.Some? ==> annotated[i].geoName != annotated[j].geoName
    ensures |Matches(f, annotated)| <= 1
  {
    if annotated != [] {
      var init := annotated[..|annotated| - 1];
      var last := annotated[|annotated| - 1];
      AtMostOneMatch(f, init);
      if last.geoName == f.name {
        NoMatchBefore(f, init, last);
      }
    }
  }

  lemma NoMatchBefore(f: GeoFeature, init: seq<MappedRow>, last: MappedRow)
    requires f.name.Some? && last.geoName == f.name
    requires forall i :: 0 <= i < |init| ==> init[i].geoName != last.geoName
    ensures Matches(f, init) == []
  {
    var p := (m: MappedRow) => m.geoName == f.name;
    Seqs.CountZero(init, p);
  }

  /** Left-join completeness: every feature appears, each joined table row
      agrees with its feature on the boundary name, and every row whose name
      matches a feature is joined with it. */
  lemma LeftJoinMembers(features: seq<GeoFeature>, annotated: seq<MappedRow>)
    ensures forall m :: m in LeftJoin(features, annotated) ==>
      m.feature in features && (m.data.Some? ==> m.data.value in annotated && m.data.value.geoName == m.feature.name)
    ensures forall f :: f in features ==> exists m :: m in LeftJoin(features, annotated) && m.feature == f
    ensures forall f, r :: f in features && r in annotated && r.geoName == f.name ==>
      MergedRow(f, Some(r)) in LeftJoin(features, annotated)
  {
    var blocks := JoinBlocks(features, annotated);
    Seqs.FlattenContents(blocks);
    forall m | m in LeftJoin(features, annotated)
      ensures m.feature in features && (m.data.Some? ==> m.data.value in annotated && m.data.value.geoName == m.feature.name)
    {
      var i :| 0 <= i < |blocks| && m in blocks[i];
      JoinFeatureMembers(features[i], annotated);
    }
    forall f | f in features ensures exists m :: m in LeftJoin(features, annotated) && m.feature == f {
      var i :| 0 <= i < |features| && features[i] == f;
      JoinFeatureMembers(f, annotated);
      var m := blocks[i][0];
      assert m in blocks[i];
      assert Seqs.InSome(blocks, m);
    }
    forall f, r | f in features && r in annotated && r.geoName == f.name
      ensures MergedRow(f, Some(r)) in LeftJoin(features, annotated)
    {
      var i :| 0 <= i < |features| && features[i] == f;
      JoinFeatureMembers(f, annotated);
      assert Seqs.InSome(blocks, MergedRow(f, Some(r)));
    }
  }

  /** The joined rows of one feature. */
  lemma JoinFeatureMembers(f: GeoFeature, annotated: seq<MappedRow>)
    ensures JoinFeature(f, annotated) != [] && JoinFeature(f, annotated)[0].feature == f
    ensures forall m :: m in JoinFeature(f, annotated) ==>
      m.feature == f && (m.data.Some? ==> m.data.value in annotated && m.data.value.geoName == f.name)
    ensures forall r :: r in annotated && r.geoName == f.name ==> MergedRow(f, Some(r)) in JoinFeature(f, annotated)
  {
    var p := (m: MappedRow) => m.geoName == f.name;
    Seqs.FilterMembers(annotated, p);
    var ms := Matches(f, annotated);
    forall r | r in annotated && r.geoName == f.name ensures MergedRow(f, Some(r)) in JoinFeature(f, annotated) {
      assert r in ms;
      var k :| 0 <= k < |ms| && ms[k] == r;
      assert JoinFeature(f, annotated)[k] == MergedRow(f, Some(r));
    }
  }

  /** `merged[merged['Province_GeoJSON'].isna()]`: joined rows without a
      table row, or whose table row has no boundary name. */
  predicate GeoNameNull(m: MergedRow) { m.data.None? || m.data.value.geoName.None? }

  predicate Unmatched(f: GeoFeature, annotated: seq<MappedRow>) { Matches(f, annotated) == [] }

  /** With named features, the reported number of unmatched rows is the
      number of features no table row matches. */
  lemma {:induction false} UnmatchedCount(features: seq<GeoFeature>, annotated: seq<MappedRow>)
    requires forall i :: 0 <= i < |features| ==> features[i].name.Some?
    ensures Seqs.Count(LeftJoin(features, annotated), GeoNameNull) ==
      Seqs.Count(features, (f: GeoFeature) => Unmatched(f, annotated))
  {
    if features != [] {
      var init := features[..|features| - 1];
      var f := features[|features| - 1];
      assert features == init + [f];
      UnmatchedCount(init, annotated);
      assert JoinBlocks(features, annotated)[..|init|] == JoinBlocks(init, annotated);
      Seqs.FilterConcat(LeftJoin(init, annotated), JoinFeature(f, annotated), GeoNameNull);
      Seqs.FilterSnoc(init, f, (f: GeoFeature) => Unmatched(f, annotated));
      JoinFeatureNulls(f, annotated);
    }
  }

  lemma JoinFeatureNulls(f: GeoFeature, annotated: seq<MappedRow>)
    requires f.name.Some?
    ensures Seqs.Count(JoinFeature(f, annotated), GeoNameNull) == if Unmatched(f, annotated) then 1 else 0
  {
    var j := JoinFeature(f, annotated);
    if Unmatched(f, annotated) {
      assert j == [MergedRow(f, None)];
      assert j[..0] == [];
    } else {
      JoinFeatureMembers(f, annotated);
      Seqs.CountZero(j, GeoNameNull);
      assert forall i :: 0 <= i < |j| ==> j[i] in j;
    }
  }

  // Filtering and statistics.

  /** `filter_valid_provinces(df)`: the annotated rows that have a boundary
      name, and how many rows were removed. */
  function FilterValidProvinces(rows: seq<Clean.Record>): (r: (seq<MappedRow>, nat))
    ensures r.1 == |rows| - |r.0|
  {
    var annotated := AddGeojsonNames(rows);
    var valid := Seqs.Filter(annotated, IsMapped);
    (valid, |annotated| - |valid|)
  }

  /** The kept rows are exactly the annotated rows whose cleaned province is
      a mapping key, in order. */
  lemma FilterValidProvincesMembers(rows: seq<Clean.Record>)
    ensures forall m :: m in FilterValidProvinces(rows).0 <==>
      m.row in rows && m == Annotate(m.row) && m.row.province.Some?
      && ProvinceMapping.IsKey(ProvinceMapping.CleanName(m.row.province.value))
  {
    var annotated := AddGeojsonNames(rows);
    Seqs.FilterMembers(annotated, IsMapped);
    forall m ensures m in annotated <==> m.row in rows && m == Annotate(m.row) {
      if m.row in rows && m == Annotate(m.row) {
        var i :| 0 <= i < |rows| && rows[i] == m.row;
        assert annotated[i] == m;
      }
    }
  }

  /** No pending split and no national aggregate survives the filter. */
  lemma FilterValidProvincesExcluded(rows: seq<Clean.Record>)
    ensures forall m :: m in FilterValidProvinces(rows).0 ==>
      && m.row.province.Some?
      && !Seqs.Contains(ProvinceMapping.PendingSplits, ProvinceMapping.CleanName(m.row.province.value))
      && ProvinceMapping.CleanName(m.row.province.value) != ProvinceMapping.Indonesia
  {
    FilterValidProvincesMembers(rows);
    ProvinceMapping.NotInMapping();
    forall m | m in FilterValidProvinces(rows).0
      ensures m.row.province.Some? && !Seqs.Contains(ProvinceMapping.PendingSplits, ProvinceMapping.CleanName(m.row.province.value))
    {
      Seqs.ContainsIff(ProvinceMapping.PendingSplits, ProvinceMapping.CleanName(m.row.province.value));
    }
  }

  /** The removed count is the number of unmapped rows. */
  lemma FilterValidProvincesRemoved(rows: seq<Clean.Record>)
    ensures FilterValidProvinces(rows).1 == Seqs.Count(AddGeojsonNames(rows), IsUnmapped)
  {
    Seqs.FilterSplit(AddGeojsonNames(rows), IsMapped, IsUnmapped);
  }

  /** The statistics of `get_merge_statistics`. */
  datatype MergeStats = MergeStats(
    csvProvincesCount: nat, geojsonProvincesCount: nat, mappedProvincesCount: nat,
    unmappedCsv: set<Option<string>>, unmatchedGeojson: set<Option<string>>)

  predicate IsKeyName(p: Option<string>) { p.Some? && ProvinceMapping.IsKey(p.value) }

  predicate IsMappingValue(p: Option<string>) { p.Some? && Seqs.Contains(ProvinceMapping.GeoJsonNames, p.value) }

  /** `get_merge_statistics(df, gdf)`, on the names as they are in the two
      tables (the boundary table is not prepared first). */
  function GetMergeStatistics(rows: seq<Clean.Record>, gdf: GeoFrame): (s: MergeStats)
    ensures forall p :: p in s.unmappedCsv <==> (exists r :: r in rows && r.province == p) && !IsKeyName(p)
    ensures forall p :: p in s.unmatchedGeojson <==> (exists f :: f in gdf.features && f.name == p) && !IsMappingValue(p)
  {
    var csvProvinces := set r | r in rows :: r.province;
    var geoProvinces := set f | f in gdf.features :: f.name;
    var mapped := set m | m in AddGeojsonNames(rows) && m.geoName.Some? :: m.geoName.value;
    MergeStats(|csvProvinces|, |geoProvinces|, |mapped|,
      set p | p in csvProvinces && !IsKeyName(p),
      set p | p in geoProvinces && !IsMappingValue(p))
  }

  /** Every mapped boundary name is a value of the mapping, so a boundary
      name that some table row maps to is never reported as unmatched. */
  lemma MappedNamesAreValues(rows: seq<Clean.Record>, gdf: GeoFrame, i: nat)
    requires i < |rows| && ProvinceMapping.GetGeoJsonName(rows[i].province).Some?
    ensures ProvinceMapping.GetGeoJsonName(rows[i].province) !in GetMergeStatistics(rows, gdf).unmatchedGeojson
  {
  }

  /** A table name that is not literally a mapping key is reported as
      unmapped. */
  lemma UnmappedCsvMember(rows: seq<Clean.Record>, gdf: GeoFrame, i: nat)
    requires i < |rows| && rows[i].province.Some? && !ProvinceMapping.IsKey(rows[i].province.value)
    ensures rows[i].province in GetMergeStatistics(rows, gdf).unmappedCsv
  {
    assert rows[i] in rows;
  }

  /** The unmapped table names are compared as written: a name that is
      mapped once trimmed is still reported when it carries a blank. */
  lemma UnmappedCsvAsWritten(rows: seq<Clean.Record>, gdf: GeoFrame, name: string)
    requires name == " ACEH" && |rows| > 0 && rows[0].province == Some(name)
    ensures ProvinceMapping.GetGeoJsonName(rows[0].province).Some?
    ensures Some(name) in GetMergeStatistics(rows, gdf).unmappedCsv
  {
    AcehClean(name, ProvinceMapping.CsvNames[0]);
    AcehNotKey(name);
    Seqs.ContainsIff(ProvinceMapping.CsvNames, ProvinceMapping.CsvNames[0]);
    Seqs.ContainsIff(ProvinceMapping.CsvNames, name);
    UnmappedCsvMember(rows, gdf, 0);
  }

  lemma AcehClean(name: string, c: string)
    requires c == "ACEH" && name == " ACEH"
    ensures ProvinceMapping.CleanName(name) == c
  {
    assert name == [' '] + c;
    AcehCanonical(c);
    Text.StripLeadingSpace(' ', c);
    ProvinceMapping.CleanCanonical(c);
  }

  lemma AcehCanonical(c: string)
    requires c == "ACEH"
    ensures Text.IsUpperCase(c) && Text.NoEdgeSpace(c)
  {
  }

  lemma AcehNotKey(name: string)
    requires name == " ACEH"
    ensures name !in ProvinceMapping.CsvNames
  {
    assert forall i :: 0 <= i < |ProvinceMapping.CsvNames| ==> ProvinceMapping.CsvNames[i][0] != ' ';
  }

  // The province summary.

  /** A group key: the province and, when the table has a Year column, the year. */
  datatype SummaryKey = SummaryKey(province: string, year: Option<int>)

  /** A summary row: the group key and the sum of its values. */
  datatype SummaryRow = SummaryRow(province: string, year: Option<int>, total: real)

  /** The group of a row; rows without a province belong to none, as
      `groupby` drops missing keys. */
  function KeyOf(r: Clean.Record, hasYear: bool): Option<SummaryKey> {
    if r.province.None? then None
    else Some(SummaryKey(r.province.value, if hasYear then Some(r.year) else None))
  }

  function Keys(rows: seq<Clean.Record>, hasYear: bool): seq<SummaryKey> {
    if rows == [] then []
    else
      var k := KeyOf(rows[|rows| - 1], hasYear);
      Keys(rows[..|rows| - 1], hasYear) + if k.Some? then [k.value] else []
  }

  predicate YearLe(a: Option<int>, b: Option<int>) {
    a.None? || (b.Some? && a.value <= b.value)
  }

  /** Group order: by province, then by year. */
  predicate KeyLe(a: SummaryKey, b: SummaryKey) {
    (Text.StrLe(a.province, b.province) && a.province != b.province)
    || (a.province == b.province && YearLe(a.year, b.year))
  }

  lemma KeyLeTotalPreorder()
    ensures Sorting.TotalPreorder(KeyLe)
  {
    forall a: SummaryKey, b: SummaryKey ensures KeyLe(a, b) || KeyLe(b, a) {
      Text.StrLeTotal(a.province, b.province);
    }
    forall a: SummaryKey, b: SummaryKey, c: SummaryKey | KeyLe(a, b) && KeyLe(b, c) ensures KeyLe(a, c) {
      if a.province != b.province && b.province != c.province {
        Text.StrLeTransitive(a.province, b.province, c.province);
        if a.province == c.province {
          Text.StrLeAntisymmetric(a.province, b.province);
        }
      }
    }
  }

  /** The present values of the rows in group `k`. */
  function GroupValues(rows: seq<Clean.Record>, k: SummaryKey, hasYear: bool): seq<real> {
    if rows == [] then []
    else
      var last := rows[|rows| - 1];
      GroupValues(rows[..|rows| - 1], k, hasYear)
        + if KeyOf(last, hasYear) == Some(k) && last.value.Some? then [last.value.value] else []
  }

  function SummaryKeys(rows: seq<Clean.Record>, hasYear: bool): seq<SummaryKey> {
    Sorting.Sort(Seqs.Distinct(Keys(rows, hasYear)), KeyLe)
  }

  /** `create_province_summary(df)`: one row per group, in key order, whose
      total is the sum of the group's values (missing values count as none). */
  function CreateProvinceSummary(rows: seq<Clean.Record>, hasYear: bool): seq<SummaryRow> {
    Seqs.Map(SummaryKeys(rows, hasYear),
      (k: SummaryKey) => SummaryRow(k.province, k.year, Seqs.Sum(GroupValues(rows, k, hasYear))))
  }

  lemma {:induction false} KeysMembers(rows: seq<Clean.Record>, hasYear: bool)
    ensures forall k :: k in Keys(rows, hasYear) <==> exists i :: 0 <= i < |rows| && KeyOf(rows[i], hasYear) == Some(k)
  {
    if rows != [] {
      var init := rows[..|rows| - 1];
      KeysMembers(init, hasYear);
      forall k | k in Keys(rows, hasYear) ensures exists i :: 0 <= i < |rows| && KeyOf(rows[i], hasYear) == Some(k) {
        if k in Keys(init, hasYear) {
          var i :| 0 <= i < |init| && KeyOf(init[i], hasYear) == Some(k);
          assert rows[i] == init[i];
        }
      }
      forall k | exists i :: 0 <= i < |rows| && KeyOf(rows[i], hasYear) == Some(k) ensures k in Keys(rows, hasYear) {
        var i :| 0 <= i < |rows| && KeyOf(rows[i], hasYear) == Some(k);
        if i < |init| {
          assert KeyOf(init[i], hasYear) == Some(k);
        }
      }
    }
  }

  /** The groups are listed once each, in increasing key order; they are
      exactly the keys of the rows: with a Year column a (province, year)
      pair, without one a province. */
  lemma SummaryKeysSpec(rows: seq<Clean.Record>, hasYear: bool)
    ensures forall k :: k in SummaryKeys(rows, hasYear) <==>
      exists i :: 0 <= i < |rows| && KeyOf(rows[i], hasYear) == Some(k)
    ensures Seqs.NoDuplicates(SummaryKeys(rows, hasYear))
    ensures Sorting.Sorted(SummaryKeys(rows, hasYear), KeyLe)
  {
    var d := Seqs.Distinct(Keys(rows, hasYear));
    KeysMembers(rows, hasYear);
    Sorting.SortPermutation(d, KeyLe);
    KeyLeTotalPreorder();
    Sorting.SortSorted(d, KeyLe);
    Seqs.NoDuplicatesPermutation(SummaryKeys(rows, hasYear), d);
    Sorting.SameElements(SummaryKeys(rows, hasYear), d);
  }

  /** A row without a province belongs to no group; otherwise its group is
      its province, with its year when the table has a Year column. */
  lemma KeyOfGroups(r: Clean.Record, hasYear: bool, k: SummaryKey)
    ensures KeyOf(r, hasYear) == Some(k) <==>
      r.province == Some(k.province) && k.year == (if hasYear then Some(r.year) else None)
  {
  }

  /** One summary row per group, in group order, holding the group's sum. */
  lemma CreateProvinceSummarySpec(rows: seq<Clean.Record>, hasYear: bool)
    ensures |CreateProvinceSummary(rows, hasYear)| == |SummaryKeys(rows, hasYear)|
    ensures forall j :: 0 <= j < |SummaryKeys(rows, hasYear)| ==>
      var k := SummaryKeys(rows, hasYear)[j];
      CreateProvinceSummary(rows, hasYear)[j] == SummaryRow(k.province, k.year, Seqs.Sum(GroupValues(rows, k, hasYear)))
  {
  }

  predicate HasProvince(r: Clean.Record) { r.province.Some? }

  function SummaryTotal(s: SummaryRow): real { s.total }

  /** The filter selecting the rows of group `k`. */
  function InGroup(k: SummaryKey, hasYear: bool): Clean.Record -> bool {
    (r: Clean.Record) => KeyOf(r, hasYear) == Some(k)
  }

  /** A group's values are the present values of the rows of that group, in
      row order. */
  lemma {:induction false} GroupValuesSpec(rows: seq<Clean.Record>, k: SummaryKey, hasYear: bool)
    ensures GroupValues(rows, k, hasYear) == Clean.PresentValues(Seqs.Filter(rows, InGroup(k, hasYear)))
  {
    if rows != [] {
      var init := rows[..|rows| - 1];
      var last := rows[|rows| - 1];
      assert rows == init + [last];
      GroupValuesSpec(init, k, hasYear);
      Seqs.FilterSnoc(init, last, InGroup(k, hasYear));
      var own := if KeyOf(last, hasYear) == Some(k) && last.value.Some? then [last.value.value] else [];
      assert GroupValues(rows, k, hasYear) == GroupValues(init, k, hasYear) + own;
      if KeyOf(last, hasYear) == Some(k) {
        assert InGroup(k, hasYear)(last);
        Clean.PresentValuesSnoc(Seqs.Filter(init, InGroup(k, hasYear)), last);
        assert Clean.PresentValues(Seqs.Filter(rows, InGroup(k, hasYear))) == Clean.PresentValues(Seqs.Filter(init, InGroup(k, hasYear))) + own;
      } else {
        assert !InGroup(k, hasYear)(last);
        assert GroupValues(init, k, hasYear) + own == GroupValues(init, k, hasYear);
        assert Seqs.Filter(rows, InGroup(k, hasYear)) == Seqs.Filter(init, InGroup(k, hasYear));
      }
    }
  }

  /** The totals of the groups `ks`, added up. */
  function TotalsOver(rows: seq<Clean.Record>, ks: seq<SummaryKey>, hasYear: bool): real {
    if ks == [] then 0.0
    else TotalsOver(rows, ks[..|ks| - 1], hasYear) + Seqs.Sum(GroupValues(rows, ks[|ks| - 1], hasYear))
  }

  /** What one row adds to the totals of the groups `ks`. */
  function Share(r: Clean.Record, ks: seq<SummaryKey>, hasYear: bool): real {
    if ks == [] then 0.0
    else
      Share(r, ks[..|ks| - 1], hasYear)
        + if KeyOf(r, hasYear) == Some(ks[|ks| - 1]) && r.value.Some? then r.value.value else 0.0
  }

  lemma {:induction false} TotalsOverEmpty(ks: seq<SummaryKey>, hasYear: bool)
    ensures TotalsOver([], ks, hasYear) == 0.0
  {
    if ks != [] {
      TotalsOverEmpty(ks[..|ks| - 1], hasYear);
    }
  }

  /** One more row adds its share to the group totals. */
  lemma {:induction false} TotalsOverSnoc(init: seq<Clean.Record>, last: Clean.Record, ks: seq<SummaryKey>, hasYear: bool)
    ensures TotalsOver(init + [last], ks, hasYear) == TotalsOver(init, ks, hasYear) + Share(last, ks, hasYear)
  {
    if ks != [] {
      var k := ks[|ks| - 1];
      var rows := init + [last];
      assert rows[..|rows| - 1] == init;
      TotalsOverSnoc(init, last, ks[..|ks| - 1], hasYear);
      var own := if KeyOf(last, hasYear) == Some(k) && last.value.Some? then [last.value.value] else [];
      assert GroupValues(rows, k, hasYear) == GroupValues(init, k, hasYear) + own;
      Seqs.SumConcat(GroupValues(init, k, hasYear), own);
      if own != [] {
        assert own[..0] == [];
      }
    }
  }

  /** Over distinct groups, a row's share is its value when its group is one
      of them, and nothing otherwise. */
  lemma {:induction false} ShareOnce(r: Clean.Record, ks: seq<SummaryKey>, hasYear: bool)
    requires Seqs.NoDuplicates(ks)
    ensures Share(r, ks, hasYear) ==
      if r.value.Some? && KeyOf(r, hasYear).Some? && KeyOf(r, hasYear).value in ks then r.value.value else 0.0
  {
    if ks != [] {
      var init := ks[..|ks| - 1];
      assert ks == init + [ks[|ks| - 1]];
      Seqs.NoDuplicatesSnoc(init, ks[|ks| - 1]);
      ShareOnce(r, init, hasYear);
    }
  }

  /** One more row adds its value to the sum of the present values of the
      rows that have a province exactly when it has both. */
  lemma ProvinceValuesSnoc(init: seq<Clean.Record>, last: Clean.Record)
    ensures Seqs.Sum(Clean.PresentValues(Seqs.Filter(init + [last], HasProvince))) ==
      Seqs.Sum(Clean.PresentValues(Seqs.Filter(init, HasProvince)))
        + if HasProvince(last) && last.value.Some? then last.value.value else 0.0
  {
    var kept := Seqs.Filter(init, HasProvince);
    Seqs.FilterSnoc(init, last, HasProvince);
    if !HasProvince(last) {
      assert Seqs.Filter(init + [last], HasProvince) == kept;
    } else {
      Clean.PresentValuesSnoc(kept, last);
      var own := if last.value.Some? then [last.value.value] else [];
      Seqs.SumConcat(Clean.PresentValues(kept), own);
      if own != [] {
        assert own[..0] == [];
      }
    }
  }

  /** Distinct groups covering every row's group add up to the present
      values of the rows that have a province. */
  lemma {:induction false} TotalsOverConserve(rows: seq<Clean.Record>, ks: seq<SummaryKey>, hasYear: bool)
    requires Seqs.NoDuplicates(ks)
    requires forall i :: 0 <= i < |rows| && KeyOf(rows[i], hasYear).Some? ==> KeyOf(rows[i], hasYear).value in ks
    ensures TotalsOver(rows, ks, hasYear) == Seqs.Sum(Clean.PresentValues(Seqs.Filter(rows, HasProvince)))
  {
    if rows == [] {
      TotalsOverEmpty(ks, hasYear);
    } else {
      var init := rows[..|rows| - 1];
      var last := rows[|rows| - 1];
      assert rows == init + [last];
      assert forall i :: 0 <= i < |init| ==> init[i] == rows[i];
      TotalsOverConserve(init, ks, hasYear);
      TotalsOverSnoc(init, last, ks, hasYear);
      ShareOnce(last, ks, hasYear);
      assert KeyOf(rows[|rows| - 1], hasYear).Some? ==> KeyOf(last, hasYear).value in ks;
      ProvinceValuesSnoc(init, last);
    }
  }

  /** Adding up the summary's totals is adding up its groups' sums. */
  lemma {:induction false} SummaryTotalsOver(rows: seq<Clean.Record>, ks: seq<SummaryKey>, hasYear: bool, out: seq<SummaryRow>)
    requires |out| == |ks|
    requires forall j :: 0 <= j < |ks| ==> out[j].total == Seqs.Sum(GroupValues(rows, ks[j], hasYear))
    ensures Seqs.Sum(Seqs.Map(out, SummaryTotal)) == TotalsOver(rows, ks, hasYear)
  {
    if ks != [] {
      var n := |ks| - 1;
      assert Seqs.Map(out, SummaryTotal)[..n] == Seqs.Map(out[..n], SummaryTotal);
      SummaryTotalsOver(rows, ks[..n], hasYear, out[..n]);
    }
  }

  /** The summary neither loses nor double counts a value: its totals add up
      to the sum of the present values of all rows that have a province. */
  lemma SummaryConservation(rows: seq<Clean.Record>, hasYear: bool)
    ensures Seqs.Sum(Seqs.Map(CreateProvinceSummary(rows, hasYear), SummaryTotal)) ==
      Seqs.Sum(Clean.PresentValues(Seqs.Filter(rows, HasProvince)))
  {
    var ks := SummaryKeys(rows, hasYear);
    SummaryKeysSpec(rows, hasYear);
    CreateProvinceSummarySpec(rows, hasYear);
    SummaryTotalsOver(rows, ks, hasYear, CreateProvinceSummary(rows, hasYear));
    TotalsOverConserve(rows, ks, hasYear);
  }
}
