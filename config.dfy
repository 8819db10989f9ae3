/** The fixed settings the pipeline reads: the number of provinces, the
    grouping of provinces into seven regions, and the consumption bands. */
module Config {
  import opened Wrappers
  import Seqs
  import Tables
  import Text
  import ProvinceMapping

  /** `TOTAL_PROVINCES_BASE`: provinces before the 2022-2023 splits. */
  const TotalProvincesBase: nat := 34

  /** `TOTAL_PROVINCES_FULL`: provinces including the splits. */
  const TotalProvincesFull: nat := 38

  /** The keys of `REGION_MAPPING` in listing order. */
  const RegionKeys: seq<string> := [
    "ACEH", "SUMATERA UTARA", "SUMATERA BARAT", "RIAU", "JAMBI",
    "SUMATERA SELATAN", "BENGKULU", "LAMPUNG", "KEP. BANGKA BELITUNG", "KEP. RIAU",
    "DKI JAKARTA", "JAWA BARAT", "JAWA TENGAH", "DI YOGYAKARTA", "JAWA TIMUR", "BANTEN",
    "BALI", "NUSA TENGGARA BARAT", "NUSA TENGGARA TIMUR",
    "KALIMANTAN BARAT", "KALIMANTAN TENGAH", "KALIMANTAN SELATAN", "KALIMANTAN TIMUR",
    "KALIMANTAN UTARA",
    "SULAWESI UTARA", "SULAWESI TENGAH", "SULAWESI SELATAN", "SULAWESI TENGGARA",
    "GORONTALO", "SULAWESI BARAT",
    "MALUKU", "MALUKU UTARA",
    "PAPUA", "PAPUA BARAT", "PAPUA BARAT DAYA", "PAPUA SELATAN", "PAPUA TENGAH", "PAPUA PEGUNUNGAN"
  ]

  /** The region listed with each key of `RegionKeys`. */
  const RegionValues: seq<string> := [
    "Sumatera", "Sumatera", "Sumatera", "Sumatera", "Sumatera",
    "Sumatera", "Sumatera", "Sumatera", "Sumatera", "Sumatera",
    "Jawa", "Jawa", "Jawa", "Jawa", "Jawa", "Jawa",
    "Bali & Nusa Tenggara", "Bali & Nusa Tenggara", "Bali & Nusa Tenggara",
    "Kalimantan", "Kalimantan", "Kalimantan", "Kalimantan",
    "Kalimantan",
    "Sulawesi", "Sulawesi", "Sulawesi", "Sulawesi",
    "Sulawesi", "Sulawesi",
    "Maluku", "Maluku",
    "Papua", "Papua", "Papua", "Papua", "Papua", "Papua"
  ]

  /** `REGIONS`. */
  const Regions: seq<string> := ["Sumatera", "Jawa", "Bali & Nusa Tenggara", "Kalimantan", "Sulawesi", "Maluku", "Papua"]

  const Unknown: string := "Unknown"
  const Jawa: string := "Jawa"

  /** `REGION_MAPPING.get(name)`. */
  function RegionOf(name: string): Option<string> {
    Tables.Lookup(RegionKeys, RegionValues, name)
  }

  /** `get_region(province)`: the region of the upper-cased name (which is
      not trimmed), or `'Unknown'`. */
  function GetRegion(province: string): (r: string)
    ensures r != Unknown <==> Seqs.Contains(RegionKeys, Text.ToUpper(province))
    ensures r == Unknown || Seqs.Contains(Regions, r)
  {
    Tables.LookupSome(RegionKeys, RegionValues, Text.ToUpper(province));
    var found := RegionOf(Text.ToUpper(province));
    if found.Some? then
      RegionValuesAreRegions(found.value);
      found.value
    else Unknown
  }

  /** Every listed region is one of the seven `REGIONS`, none of them `'Unknown'`. */
  lemma RegionValuesAreRegions(r: string)
    requires Seqs.Contains(RegionValues, r)
    ensures Seqs.Contains(Regions, r) && r != Unknown
  {
    Seqs.ContainsIff(RegionValues, r);
    Seqs.ContainsIff(Regions, r);
    ListedRegions();
  }

  lemma ListedRegions()
    ensures forall i :: 0 <= i < |RegionValues| ==> RegionValues[i] in Regions
    ensures Unknown !in Regions
  {
  }

  /** `is_java_province(province)`. */
  predicate IsJavaProvince(province: string) {
    GetRegion(province) == Jawa
  }

  /** The region table lists, in order, the first 32 keys of the name
      mapping, its last two keys swapped, and then the four provinces of the
      pending splits. */
  lemma RegionKeysLayout()
    ensures RegionKeys == ProvinceMapping.CsvNames[..32]
      + [ProvinceMapping.CsvNames[33], ProvinceMapping.CsvNames[32]] + ProvinceMapping.PendingSplits
  {
  }

  /** `REGION_MAPPING` has `TOTAL_PROVINCES_FULL` distinct keys, which are
      exactly the keys of `PROVINCE_MAPPING` and the pending splits. */
  lemma RegionKeysComplete()
    ensures |RegionKeys| == |RegionValues| == TotalProvincesFull
    ensures Seqs.NoDuplicates(RegionKeys)
    ensures forall k :: Seqs.Contains(RegionKeys, k) <==>
      ProvinceMapping.IsKey(k) || Seqs.Contains(ProvinceMapping.PendingSplits, k)
  {
    var csv := ProvinceMapping.CsvNames;
    var pending := ProvinceMapping.PendingSplits;
    RegionKeysLayout();
    ProvinceMapping.CsvNamesDistinct();
    ProvinceMapping.PendingNotKeys();
    var front := csv[..32] + [csv[33], csv[32]];
    assert Seqs.NoDuplicates(front) by {
      forall i, j | 0 <= i < j < |front| ensures front[i] != front[j] {
        var i' := if i < 32 then i else 65 - i;
        var j' := if j < 32 then j else 65 - j;
        assert front[i] == csv[i'] && front[j] == csv[j'];
      }
    }
    assert Seqs.NoDuplicates(pending);
    forall i, j | 0 <= i < |front| && 0 <= j < |pending| ensures front[i] != pending[j] {
      assert front[i] in csv;
    }
    Seqs.NoDuplicatesConcat(front, pending);
    forall k ensures Seqs.Contains(RegionKeys, k) <==> Seqs.Contains(csv, k) || Seqs.Contains(pending, k) {
      Seqs.ContainsIff(RegionKeys, k);
      Seqs.ContainsIff(csv, k);
      Seqs.ContainsIff(pending, k);
      assert csv == csv[..32] + [csv[32], csv[33]];
      assert k in front <==> k in csv;
    }
  }

  /** Exactly six of the 38 distinct keys, those listed at positions 10 to 15,
      map to `'Jawa'`. */
  lemma JavaProvinces()
    ensures forall i :: 0 <= i < |RegionKeys| ==> (RegionOf(RegionKeys[i]) == Some(Jawa) <==> 10 <= i < 16)
  {
    RegionKeysComplete();
    JawaEntries();
    forall i | 0 <= i < |RegionKeys| ensures RegionOf(RegionKeys[i]) == Some(Jawa) <==> 10 <= i < 16 {
      Tables.LookupAt(RegionKeys, RegionValues, i);
    }
  }

  lemma JawaEntries()
    ensures forall i :: 0 <= i < |RegionValues| ==> (RegionValues[i] == Jawa <==> 10 <= i < 16)
  {
  }

  /** A province is in Java exactly when its upper-cased name is one of the
      six Java keys. */
  lemma IsJavaIff(province: string)
    ensures IsJavaProvince(province) <==> exists i :: 10 <= i < 16 && RegionKeys[i] == Text.ToUpper(province)
  {
    var name := Text.ToUpper(province);
    assert IsJavaProvince(province) <==> RegionOf(name) == Some(Jawa);
    RegionKeysComplete();
    JawaEntries();
    JavaByPosition(RegionKeys, RegionValues, name);
  }

  /** In a table with distinct keys whose value is `'Jawa'` exactly at
      positions 10 to 15, a key maps to `'Jawa'` exactly when it is listed
      at one of those positions. */
  lemma JavaByPosition(ks: seq<string>, vs: seq<string>, name: string)
    requires |ks| == |vs| && Seqs.NoDuplicates(ks)
    requires forall i :: 0 <= i < |vs| ==> (vs[i] == Jawa <==> 10 <= i < 16)
    ensures Tables.Lookup(ks, vs, name) == Some(Jawa) <==> exists i :: 10 <= i < 16 && i < |ks| && ks[i] == name
  {
    if Tables.Lookup(ks, vs, name) == Some(Jawa) {
      Tables.LookupIndex(ks, vs, name);
    }
    if exists i :: 10 <= i < 16 && i < |ks| && ks[i] == name {
      var i :| 10 <= i < 16 && i < |ks| && ks[i] == name;
      Tables.LookupAt(ks, vs, i);
    }
  }

  /** `CONSUMPTION_THRESHOLDS`: the lower bounds (GWh) of the four upper bands. */
  const Thresholds: seq<real> := [1000.0, 5000.0, 15000.0, 30000.0]

  /** `CONSUMPTION_LABELS`, from the lowest band to the highest. */
  const Labels: seq<string> := ["Sangat Rendah", "Rendah", "Sedang", "Tinggi", "Sangat Tinggi"]

  /** `categorize_consumption(value)`. */
  function CategorizeConsumption(value: real): (r: string)
    ensures Seqs.Contains(Labels, r)
  {
    Seqs.ContainsIff(Labels, "Sangat Rendah");
    if value < Thresholds[0] then Labels[0]
    else if value < Thresholds[1] then Labels[1]
    else if value < Thresholds[2] then Labels[2]
    else if value < Thresholds[3] then Labels[3]
    else Labels[4]
  }

  /** How many of the bounds `ts` the value reaches. */
  function Reached(ts: seq<real>, value: real): (n: nat)
    ensures n <= |ts|
  {
    if ts == [] then 0 else Reached(ts[..|ts| - 1], value) + (if ts[|ts| - 1] <= value then 1 else 0)
  }

  /** The band as a number: how many thresholds the value reaches. */
  function Band(value: real): (b: nat)
    ensures b < |Labels|
  {
    Reached(Thresholds, value)
  }

  /** The band of a value, read off the four thresholds one at a time. */
  lemma BandCases(value: real)
    ensures Band(value) == if value < 1000.0 then 0 else if value < 5000.0 then 1
                           else if value < 15000.0 then 2 else if value < 30000.0 then 3 else 4
  {
    var s := Thresholds;
    assert s[..3] == [1000.0, 5000.0, 15000.0];
    assert s[..3][..2] == [1000.0, 5000.0];
    assert s[..3][..2][..1] == [1000.0];
    assert s[..3][..2][..1][..0] == [];
    assert Reached([1000.0], value) == if 1000.0 <= value then 1 else 0;
    assert Reached([1000.0, 5000.0], value) == Reached([1000.0], value) + if 5000.0 <= value then 1 else 0;
    assert Reached([1000.0, 5000.0, 15000.0], value) == Reached([1000.0, 5000.0], value) + if 15000.0 <= value then 1 else 0;
  }

  /** The label is the band's label: a value gets the label of the number of
      thresholds it reaches, so a value equal to a threshold is in the higher band. */
  lemma CategorizeIsBand(value: real)
    ensures CategorizeConsumption(value) == Labels[Band(value)]
  {
    BandCases(value);
  }

  /** A larger value never gets a lower band. */
  lemma CategorizeMonotone(v: real, w: real)
    requires v <= w
    ensures Band(v) <= Band(w)
    ensures CategorizeConsumption(v) == Labels[Band(v)] && CategorizeConsumption(w) == Labels[Band(w)]
  {
    BandCases(v);
    BandCases(w);
  }

  /** The five labels are distinct, so bands and labels determine each other. */
  lemma LabelsDistinct()
    ensures Seqs.NoDuplicates(Labels)
  {
  }
}
