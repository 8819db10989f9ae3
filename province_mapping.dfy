/** The reconciliation of province names between the statistics agency's
    tables (upper-case names with spaces) and the boundary file (names
    without spaces): a closed name table, its inverse, the provinces created
    by the 2022-2023 splits that the boundary file does not have yet, and
    exact-match lookups after trimming and upper-casing. */
module ProvinceMapping {
  import opened Wrappers
  import Text
  import Seqs
  import Tables

  /** The keys of `PROVINCE_MAPPING` in listing order; the same list is
      `VALID_PROVINCES`, which the code builds as `list(PROVINCE_MAPPING.keys())`. */
  const CsvNames: seq<string> := [
    "ACEH", "SUMATERA UTARA", "SUMATERA BARAT", "RIAU", "JAMBI",
    "SUMATERA SELATAN", "BENGKULU", "LAMPUNG", "KEP. BANGKA BELITUNG", "KEP. RIAU",
    "DKI JAKARTA", "JAWA BARAT", "JAWA TENGAH", "DI YOGYAKARTA", "JAWA TIMUR", "BANTEN",
    "BALI", "NUSA TENGGARA BARAT", "NUSA TENGGARA TIMUR",
    "KALIMANTAN BARAT", "KALIMANTAN TENGAH", "KALIMANTAN SELATAN", "KALIMANTAN TIMUR",
    "KALIMANTAN UTARA",
    "SULAWESI UTARA", "SULAWESI TENGAH", "SULAWESI SELATAN", "SULAWESI TENGGARA",
    "GORONTALO", "SULAWESI BARAT",
    "MALUKU", "MALUKU UTARA",
    "PAPUA BARAT", "PAPUA"
  ]

  /** The boundary-file name listed with each key of `CsvNames`. */
  const GeoJsonNames: seq<string> := [
    "DI.ACEH", "SUMATERAUTARA", "SUMATERABARAT", "RIAU", "JAMBI",
    "SUMATERASELATAN", "BENGKULU", "LAMPUNG", "BANGKABELITUNG", "KEPULAUANRIAU",
    "DKIJAKARTA", "JAWABARAT", "JAWATENGAH", "DAERAHISTIMEWAYOGYAKARTA", "JAWATIMUR", "BANTEN",
    "BALI", "NUSATENGGARABARAT", "NUSATENGGARATIMUR",
    "KALIMANTANBARAT", "KALIMANTANTENGAH", "KALIMANTANSELATAN", "KALIMANTANTIMUR",
    "KALIMANTANUTARA",
    "SULAWESIUTARA", "SULAWESITENGAH", "SULAWESISELATAN", "SULAWESITENGGARA",
    "GORONTALO", "SULAWESIBARAT",
    "MALUKU", "MALUKUUTARA",
    "PAPUABARAT", "PAPUA"
  ]

  /** `PROVINSI_PEMEKARAN`: provinces split off in 2022-2023 that the
      boundary file does not contain. */
  const PendingSplits: seq<string> := ["PAPUA BARAT DAYA", "PAPUA SELATAN", "PAPUA TENGAH", "PAPUA PEGUNUNGAN"]

  /** The national aggregate row's name. */
  const Indonesia: string := "INDONESIA"

  /** `name in PROVINCE_MAPPING`, which is also `name in VALID_PROVINCES`. */
  predicate IsKey(name: string) {
    Seqs.Contains(CsvNames, name)
  }

  /** `PROVINCE_MAPPING.get(name)`. */
  function ToGeoJson(name: string): Option<string> {
    Tables.Lookup(CsvNames, GeoJsonNames, name)
  }

  /** `GEOJSON_TO_CSV.get(name)`, the mapping inverted item by item. */
  function ToCsv(name: string): Option<string> {
    Tables.Lookup(GeoJsonNames, CsvNames, name)
  }

  /** `name.strip().upper()`. */
  function CleanName(name: string): (r: string)
    ensures Text.IsUpperCase(r) && Text.NoEdgeSpace(r)
    ensures |r| <= |name|
  {
    Text.UpperNoEdgeSpace(Text.Strip(name));
    Text.ToUpper(Text.Strip(name))
  }

  /** A name that is already trimmed and upper case is its own cleaned form. */
  lemma CleanCanonical(name: string)
    requires Text.IsUpperCase(name) && Text.NoEdgeSpace(name)
    ensures CleanName(name) == name
  {
    Text.StripNoEdgeSpace(name);
    Text.UpperOfUpperCase(name);
  }

  /** Cleaning twice is cleaning once. */
  lemma CleanIdempotent(name: string)
    ensures CleanName(CleanName(name)) == CleanName(name)
  {
    CleanCanonical(CleanName(name));
  }

  /** `normalize_province_name(name, from_format)`: the cleaned name for
      `'csv'` and for an unknown format, and for `'geojson'` the statistics
      name that the cleaned boundary name maps back to, falling back to the
      cleaned name. */
  function NormalizeProvinceName(name: string, fromFormat: string): (r: string)
    ensures fromFormat != "geojson" ==> r == CleanName(name)
    ensures fromFormat == "geojson" && !Seqs.Contains(GeoJsonNames, CleanName(name)) ==> r == CleanName(name)
    ensures fromFormat == "geojson" && Seqs.Contains(GeoJsonNames, CleanName(name)) ==> IsKey(r)
  {
    var cleaned := CleanName(name);
    Tables.LookupSome(GeoJsonNames, CsvNames, cleaned);
    if fromFormat == "csv" then cleaned
    else if fromFormat == "geojson" then ToCsv(cleaned).GetOr(cleaned)
    else cleaned
  }

  /** `get_geojson_name(csv_name)`; `None` as input stands for a value that
      is not a string (NaN, None). */
  function GetGeoJsonName(csvName: Option<string>): (r: Option<string>)
    ensures r.Some? <==> csvName.Some? && IsKey(CleanName(csvName.value))
    ensures r.Some? ==> r == ToGeoJson(CleanName(csvName.value)) && Seqs.Contains(GeoJsonNames, r.value)
  {
    match csvName
    case None => None
    case Some(s) =>
      var cleaned := CleanName(s);
      Tables.LookupSome(CsvNames, GeoJsonNames, cleaned);
      ToGeoJson(cleaned)
  }

  /** `is_valid_province(name)`: the cleaned name is a mapping key or the
      national aggregate. */
  predicate IsValidProvince(name: string) {
    IsKey(CleanName(name)) || CleanName(name) == Indonesia
  }

  /** A name is valid exactly when it has a boundary name or is the national
      aggregate, which has none. */
  lemma ValidIffMappedOrAggregate(name: string)
    ensures IsValidProvince(name) <==> (GetGeoJsonName(Some(name)).Some? || CleanName(name) == Indonesia)
    ensures CleanName(name) == Indonesia ==> GetGeoJsonName(Some(name)) == None
  {
    NotInMapping();
  }

  predicate IsUnmapped(name: string) { !IsValidProvince(name) }

  /** `get_unmapped_provinces(province_list)`: the entries, as given, whose
      cleaned form is neither a key nor the national aggregate. */
  method GetUnmappedProvinces(provinceList: seq<string>) returns (unmapped: seq<string>)
    ensures unmapped == Seqs.Filter(provinceList, IsUnmapped)
    ensures forall p :: p in unmapped <==> p in provinceList && !IsValidProvince(p)
  {
    unmapped := [];
    var i := 0;
    while i < |provinceList|
      invariant 0 <= i <= |provinceList|
      invariant unmapped == Seqs.Filter(provinceList[..i], IsUnmapped)
    {
      var prov := provinceList[i];
      Seqs.FilterPrefixStep(provinceList, i, IsUnmapped);
      var provClean := CleanName(prov);
      if !IsKey(provClean) && provClean != Indonesia {
        unmapped := unmapped + [prov];
      }
      i := i + 1;
    }
    assert provinceList[..i] == provinceList;
    Seqs.FilterMembers(provinceList, IsUnmapped);
  }

  /** The 34 mapping keys are distinct. */
  lemma CsvNamesDistinct()
    ensures |CsvNames| == 34 && Seqs.NoDuplicates(CsvNames)
  {
  }

  /** The 34 boundary names are distinct: no two provinces share one. */
  lemma GeoJsonNamesDistinct()
    ensures |GeoJsonNames| == 34 && Seqs.NoDuplicates(GeoJsonNames)
  {
  }

  /** The mapping sends no two provinces to the same boundary name. */
  lemma MappingInjective(k1: string, k2: string)
    requires IsKey(k1) && IsKey(k2) && ToGeoJson(k1) == ToGeoJson(k2)
    ensures k1 == k2
  {
    ReverseLookup(k1);
    ReverseLookup(k2);
  }

  /** The inverse table maps every boundary name back to its province:
      `GEOJSON_TO_CSV[PROVINCE_MAPPING[k]] == k`. */
  lemma ReverseLookup(k: string)
    requires IsKey(k)
    ensures ToGeoJson(k).Some? && ToCsv(ToGeoJson(k).value) == Some(k)
  {
    CsvNamesDistinct();
    GeoJsonNamesDistinct();
    Tables.Inverse(CsvNames, GeoJsonNames, k);
  }

  /** Reading a boundary name back with `from_format='geojson'` gives the
      province it was listed for, whatever its case and surrounding blanks. */
  lemma NormalizeGeoJsonRoundTrip(k: string, name: string)
    requires IsKey(k) && Some(CleanName(name)) == ToGeoJson(k)
    ensures NormalizeProvinceName(name, "geojson") == k
  {
    ReverseLookup(k);
  }

  /** Neither a province of the pending splits nor the national aggregate is
      a mapping key, so none of them has a boundary name. */
  lemma NotInMapping()
    ensures forall p :: p in PendingSplits ==> !IsKey(p) && GetGeoJsonName(Some(p)) == None
    ensures !IsKey(Indonesia)
  {
    PendingNotKeys();
    Seqs.ContainsIff(CsvNames, Indonesia);
    forall p | p in PendingSplits ensures !IsKey(p) && GetGeoJsonName(Some(p)) == None {
      Seqs.ContainsIff(CsvNames, p);
      PendingCanonical(p);
      CleanCanonical(p);
    }
  }

  lemma PendingNotKeys()
    ensures forall p :: p in PendingSplits ==> p !in CsvNames
    ensures Indonesia !in CsvNames
  {
  }

  lemma PendingCanonical(p: string)
    requires p in PendingSplits
    ensures Text.IsUpperCase(p) && Text.NoEdgeSpace(p)
  {
  }
}
