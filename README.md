# Indonesian electricity consumption pipeline, record level

This project is a Dafny model of the data pipeline behind a dashboard of electricity consumption per Indonesian province, 2020 to 2023. The model works on records rather than data frames. It covers these steps:

- the yearly tables of the statistics agency are loaded and filtered row by row, and the loaded years are combined;
- the rows are cleaned: no province name, the national `INDONESIA` aggregate, spelling variants, numbers written with thousands separators and missing values;
- statistics-agency names are reconciled with the names in the province boundary file;
- the boundary features are left-joined with the table;
- the boundary file's own names are standardised;
- region, consumption band and rank columns are derived;
- the dashboard's row selections are made.

Each module follows one source file:

| Dafny module (file) | source |
|---|---|
| `Load` (load.dfy) | `src/data/load.py` |
| `NumericCleaning`, `NameCleaning`, `Clean` (clean_numeric.dfy, clean_names.dfy, clean.dfy) | `src/data/clean.py` |
| `ProvinceMapping` (province_mapping.dfy) | `src/utils/province_mapping.py` |
| `GeoProcessing` (geo_processing.dfy) | `src/data/geo_processing.py` |
| `GeoJsonNormalization` (normalize_geojson.dfy) | `scripts/normalize_geojson_provinces.py` |
| `Config` (config.dfy) | `src/utils/config.py` |
| `Transform` (transform.dfy) | `src/data/transform.py` |
| `Helpers` (helpers.dfy) | `src/utils/helpers.py` |

Several modules support the others:

- `Numerals` (numerals.dfy) is the decimal-numeral grammar of `float()`. `Load.ToNumeric` reads `pd.to_numeric` with the same grammar, but rejects text holding whitespace other than the blank and `\t` to `\r`, which pandas does not skip.
- `Text` (text.dfy) holds trimming, ASCII upper-casing, whitespace collapsing and string order.
- `Seqs`, `Tables` and `Sorting` hold generic sequence filters, association-list look-ups (a Python `dict` read with `.get`) and a stable insertion sort.
- `Wrappers` defines `Option` and `Result`.

The model follows these conventions:

- A pandas column becomes a field of a record datatype, and a table becomes a sequence of records in row order. `reset_index` is therefore implicit.
- A missing value (`NaN`, `None`) is `None`.
- Values are exact reals.
- An operation that raises is modelled as a `Result` that fails.
- Two operations that update state in place stay imperative:
  - `Clean.RemoveIndonesiaRow` rewrites the caller's Province column in a `Frame` object.
  - `GeoJsonNormalization.NormalizeFeatures` updates an array of features.
- Three loops of the source stay loops proved against specification functions: the `while` loops `ProvinceMapping.GetUnmappedProvinces` and `Load.LoadMultipleCsv`, and the feature loop of `GeoJsonNormalization.NormalizeFeatures`.

## Model

| member | source | states |
|---|---|---|
| Load.KeepRows | src/data/load.py:43-71 | At most as many rows come out as go in. |
| Load.KeptRowsClean | src/data/load.py:47-68 | Every loaded row carries the given year and a present, trimmed, non-empty name that is not four digits. |
| Load.KeepRowsConcat | src/data/load.py:47-71 | Filtering distributes over stacked blocks, so surviving rows keep their order. |
| Load.KeepRowsFirstTwoColumns | src/data/load.py:43-44 | Tables that agree on their first two columns load to the same rows. |
| Load.FourDigitValueDropped | src/data/load.py:57-65 | `"2937"` is a number yet is dropped by the four-digit filter. `"2,937.99"` does not coerce to a number and is dropped too. |
| Load.WideSpaceValueDropped | src/data/load.py:57-65 | `"2937"` followed by an ideographic space is a number to `float()`, passes the four-digit filter, yet coerces to missing in `pd.to_numeric` and is dropped. |
| Load.LoadMultipleCsv | src/data/load.py:94-115 | The result fails iff no year loads. Otherwise it is the concatenation, in the order of `years`, of the tables of the years whose file exists and loads. |
| Load.LoadedTablesStep | src/data/load.py:97-109 | One more year adds its table exactly when that table loads. |
| Load.LoadedTablesContents | src/data/load.py:97-115 | The combined row count is the sum of the per-year counts. Every combined row comes from a loaded year of `years` and carries that year. |
| Load.YearRowsCarryYear | src/data/load.py:68 | The rows loaded for a year carry that year. |
| Load.LoadedTablesNonEmpty | src/data/load.py:111-112 | If any listed year loads, the result is not the error. |
| Numerals.ParseDecimalComplete | src/data/clean.py:86-87 | Every well-formed numeral, written out, parses to its value. |
| Numerals.ParseDecimalSound | src/data/clean.py:86-89 | Whatever parses is a well-formed numeral, and the result is its value. |
| Numerals.ParseDigits | src/data/load.py:60-62 | A string of digits parses to its digit value. |
| NumericCleaning.CleanCell | src/data/clean.py:53-66 | A missing cell, `"-"` and the empty text give missing. A number is kept as that number. |
| NumericCleaning.CleanNumericColumn | src/data/clean.py:40-91 | The column keeps its length and is cleaned cell by cell. |
| NumericCleaning.ParseNumberUS | src/data/clean.py:71-74 | Digits with grouping commas, a point and digits read as the digits without commas plus the fraction. |
| NumericCleaning.ParseNumberEU | src/data/clean.py:75-77 | Digits with grouping points, a comma and digits read with the comma as a decimal point. |
| NumericCleaning.ParseNumberDecimalComma | src/data/clean.py:79-82 | Digits, one comma and one or two digits read as a decimal. |
| NumericCleaning.ParseNumberGrouping | src/data/clean.py:79-84 | When the last comma has zero, or three or more, digits after it, the commas are dropped and the digits read as an integer. |
| NumericCleaning.ParseNumberPlain | src/data/clean.py:70-87 | Text without commas is read exactly as `float` reads it. |
| NumericCleaning.ParseNumberNumeral | src/data/clean.py:64-89 | Every plain decimal numeral reads as its value. |
| NumericCleaning.ExampleUS | src/data/clean.py:72-74 | `"1,234.56"` gives 1234.56. |
| NumericCleaning.ExampleEU | src/data/clean.py:75-77 | `"1.234,56"` gives 1234.56. |
| NumericCleaning.ExampleCommaOnly | src/data/clean.py:79-84 | `"2,90"` gives 2.9 and `"2,900"` gives 2900. |
| NameCleaning.TidyName | src/data/clean.py:112-116 | The name comes out trimmed, upper case and single-spaced. It is empty iff the trimmed input is empty. |
| NameCleaning.TidyNameOfTidy | src/data/clean.py:112-116 | A tidy name passes the tidying steps unchanged. |
| NameCleaning.StandardNames | src/data/clean.py:119-135 | Every replacement target is tidy and not itself a variant. Each is a key of the province mapping, and none is `INDONESIA`. |
| NameCleaning.ReplaceCases | src/data/clean.py:137 | A listed variant is replaced by a standard spelling; any other name is kept. |
| NameCleaning.NormalizeTidy | src/data/clean.py:112-137 | A normalised name is tidy. It is empty iff the trimmed input is empty. |
| NameCleaning.NormalizeIdempotent | src/data/clean.py:112-137 | Normalising twice equals normalising once. |
| NameCleaning.VariantsDistinct | src/data/clean.py:119-135 | The variant keys are distinct. |
| NameCleaning.YogyakartaVariants | src/data/clean.py:120-123 | All four Yogyakarta spellings, in any case or spacing that tidies to one of them, give `DI YOGYAKARTA`. |
| NameCleaning.VariantNormalized | src/data/clean.py:119-137 | Each listed variant normalises to its own target, which is a mapping key. |
| NameCleaning.UnlistedKept | src/data/clean.py:137 | A name whose tidy form is not a variant normalises to its tidy form. |
| NameCleaning.NormalizeNotAggregate | src/data/clean.py:112-137 | A trimmed upper-case name other than `INDONESIA` never normalises to `INDONESIA`. |
| Clean.WithoutAggregateSpec | src/data/clean.py:27-33 | No row named `INDONESIA` is left and every other cleaned row is kept. The removed count is the number of aggregate rows. |
| Clean.RemoveIndonesiaRow | src/data/clean.py:14-37 | The caller's Province column is trimmed and upper-cased in place. A new frame holds the other rows in order, and `removed` is the length difference, which equals the aggregate count. |
| Clean.DropMissing | src/data/clean.py:165-172 | `drop` removes exactly the rows with a missing value and keeps the others in order. |
| Clean.FillZero | src/data/clean.py:174-176 | `fill_zero` keeps every row and sets each missing value to 0. |
| Clean.FillMean | src/data/clean.py:178-181 | `fill_mean` keeps every row and fills each missing value with the mean of the present values. With no present value there is no mean, and nothing is filled. |
| Clean.HandledNoMissing | src/data/clean.py:163-183 | After `drop` or `fill_zero` no value is missing. An unknown method returns the rows unchanged. |
| Clean.PresentValues | src/data/clean.py:179 | There is one present value per row that has a value. |
| Clean.RecordLeTotalPreorder | src/data/clean.py:259-260 | The (Year, Province) order is total and transitive. |
| Clean.ValidateDataQuality | src/data/clean.py:199-207 | No count in the report exceeds the row count. |
| Clean.DuplicatedSpec | src/data/clean.py:204 | The duplicate count is the number of rows `drop_duplicates` removes. It is zero iff no row repeats. |
| Clean.ReportMissing | src/data/clean.py:203 | Each missing count is zero iff no row has that field missing. |
| Clean.SurvivorsRowByRow | src/data/clean.py:239-253 | Steps 0 to 4 act row by row: the survivors are the cleaned surviving raw rows, in order. |
| Clean.SurvivorsSnoc | src/data/clean.py:239-253 | One more raw row adds its cleaned form iff it survives. |
| Clean.NamedSnoc | src/data/clean.py:240-241 | A row passes step 0 iff its name is present and not blank. |
| Clean.WithoutAggregateSnoc | src/data/clean.py:28-31 | A row passes step 1 iff its cleaned name is not `INDONESIA`. |
| Clean.FinishedSnoc | src/data/clean.py:247-253 | After step 1, a row is kept iff its value cleans to a number. |
| Clean.SurvivesIff | src/data/clean.py:239-253 | Surviving means passing every removing step, and a survivor becomes `CleanedRow`. |
| Clean.CleanedRowClean | src/data/clean.py:239-253 | A surviving row has these properties: a present, non-empty, tidy name that is not `INDONESIA`, and a value. |
| Clean.CleanedDataOrdered | src/data/clean.py:255-260 | The output holds each distinct survivor once and is sorted by (Year, Province). |
| Clean.CleanedDataMembers | src/data/clean.py:239-260 | A row is in the output iff it is the cleaned form of some surviving raw row. Every output row is clean. |
| Clean.CleanedDataReport | src/data/clean.py:255-265 | The report on the output counts no duplicate, no missing name and no missing value. |
| Clean.CleanElectricityData | src/data/clean.py:224-269 | The output has these properties: every row is clean, no row repeats, rows are sorted by (Year, Province), and the output is a permutation of the distinct survivors. The returned report describes exactly that output. |
| Clean.CleaningIdempotent | src/data/clean.py:224-269 | Cleaning an already cleaned table, read back with its values as number cells, gives the same rows in the same order. |
| ProvinceMapping.CleanName | src/utils/province_mapping.py:87 | The result is upper case, has no blank at either end and is no longer than the input. |
| ProvinceMapping.CleanCanonical | src/utils/province_mapping.py:87 | A name that is already trimmed and upper case is its own cleaned form. |
| ProvinceMapping.CleanIdempotent | src/utils/province_mapping.py:87 | Cleaning twice equals cleaning once. |
| ProvinceMapping.NormalizeProvinceName | src/utils/province_mapping.py:71-96 | `csv` and any unknown format give the cleaned name. `geojson` gives the statistics name of a known boundary name and falls back to the cleaned name. |
| ProvinceMapping.GetGeoJsonName | src/utils/province_mapping.py:98-116 | A non-string gives None. Otherwise the result is present iff the cleaned name is a key, and it is then that key's boundary name. |
| ProvinceMapping.ValidIffMappedOrAggregate | src/utils/province_mapping.py:118-132 | A name is valid iff it has a boundary name or cleans to `INDONESIA`, and `INDONESIA` has no boundary name. |
| ProvinceMapping.GetUnmappedProvinces | src/utils/province_mapping.py:134-152 | The result is the input entries, uncleaned and in order, whose cleaned form is neither a key nor `INDONESIA`. An entry is in the result iff it is in the input and is not valid. |
| ProvinceMapping.CsvNamesDistinct | src/utils/province_mapping.py:7-55 | The 34 keys are distinct. |
| ProvinceMapping.GeoJsonNamesDistinct | src/utils/province_mapping.py:7-55 | The 34 boundary names are distinct. |
| ProvinceMapping.MappingInjective | src/utils/province_mapping.py:7-55 | No two keys share a boundary name. |
| ProvinceMapping.ReverseLookup | src/utils/province_mapping.py:66 | `GEOJSON_TO_CSV[PROVINCE_MAPPING[k]] == k` for every key. |
| ProvinceMapping.NormalizeGeoJsonRoundTrip | src/utils/province_mapping.py:92-94 | A boundary name, in any case or padding, reads back with `geojson` as its own province. |
| ProvinceMapping.NotInMapping | src/utils/province_mapping.py:7-63 | No pending-split province and not `INDONESIA` is a key, so each of them has no boundary name. |
| ProvinceMapping.PendingCanonical | src/utils/province_mapping.py:58-63 | The pending-split names are trimmed and upper case. |
| GeoProcessing.PrepareGeojson | src/data/geo_processing.py:38-47 | The result fails iff the name column is absent. Otherwise the feature count is kept. |
| GeoProcessing.PrepareGeojsonNames | src/data/geo_processing.py:40-42 | Each feature keeps its geometry. A missing name stays missing. A present name becomes its trimmed, upper-case form. |
| GeoProcessing.AddGeojsonNamesSpec | src/data/geo_processing.py:66-69 | Every row is kept, in order. Its boundary name is present iff its cleaned province is a mapping key. |
| GeoProcessing.MappedUnmappedCounts | src/data/geo_processing.py:72-83 | Mapped plus unmapped rows make up all rows. The reported names are exactly the provinces of the unmapped rows. |
| GeoProcessing.PendingSplitsUnmapped | src/data/geo_processing.py:72-80 | A pending-split province, in any case or spacing, has no boundary name and is among the unmapped names. |
| GeoProcessing.JoinFeature | src/data/geo_processing.py:117-122 | A feature with k matching rows yields max(k, 1) joined rows. |
| GeoProcessing.JoinBlocks | src/data/geo_processing.py:117-122 | There is one block per feature, in feature order. |
| GeoProcessing.MergeWithGeojson | src/data/geo_processing.py:113-122 | The join fails iff the boundary table has no name column. |
| GeoProcessing.LeftJoinLength | src/data/geo_processing.py:117-122 | The joined row count is the sum over features of max(k, 1). |
| GeoProcessing.SumLengthsCopies | src/data/geo_processing.py:117-122 | The blocks' lengths add up to that sum. |
| GeoProcessing.SingleYearJoinLength | src/data/geo_processing.py:117-122 | With named features and at most one row per boundary name, the join has one row per feature. |
| GeoProcessing.AtMostOneMatch | src/data/geo_processing.py:117-122 | Without repeated boundary names, a named feature matches at most one row. |
| GeoProcessing.LeftJoinMembers | src/data/geo_processing.py:117-122 | Every feature appears. Each joined row agrees with its feature on the name. Every matching (feature, row) pair is joined. |
| GeoProcessing.JoinFeatureMembers | src/data/geo_processing.py:117-122 | A feature's block starts with that feature and holds exactly its matching rows. |
| GeoProcessing.UnmatchedCount | src/data/geo_processing.py:130-133 | With named features, the reported unmatched count is the number of features that no row matches. |
| GeoProcessing.JoinFeatureNulls | src/data/geo_processing.py:130-131 | A named feature adds one null-name joined row iff it matches no row. |
| GeoProcessing.FilterValidProvinces | src/data/geo_processing.py:181-193 | The removed count is the length difference. |
| GeoProcessing.FilterValidProvincesMembers | src/data/geo_processing.py:184-187 | The kept rows are exactly the annotated rows whose cleaned province is a mapping key. |
| GeoProcessing.FilterValidProvincesExcluded | src/data/geo_processing.py:184-187 | No pending split and no national aggregate survives. |
| GeoProcessing.FilterValidProvincesRemoved | src/data/geo_processing.py:187-189 | The removed count is the number of unmapped rows. |
| GeoProcessing.GetMergeStatistics | src/data/geo_processing.py:212-226 | `unmapped_csv` is the table's names minus the mapping keys. `unmatched_geojson` is the boundary names minus the mapping values. |
| GeoProcessing.MappedNamesAreValues | src/data/geo_processing.py:217-225 | A boundary name that some row maps to is never reported as unmatched. |
| GeoProcessing.UnmappedCsvMember | src/data/geo_processing.py:213-224 | A table name that is not literally a key is reported as unmapped. |
| GeoProcessing.UnmappedCsvAsWritten | src/data/geo_processing.py:213-224 | `" ACEH"` has a boundary name yet is reported as unmapped, because the names are compared as written. |
| GeoProcessing.KeyLeTotalPreorder | src/data/geo_processing.py:153-160 | The group order is total and transitive. |
| GeoProcessing.KeysMembers | src/data/geo_processing.py:151-160 | The listed keys are exactly the keys of rows that have a province. |
| GeoProcessing.SummaryKeysSpec | src/data/geo_processing.py:151-160 | Each group is listed once, in increasing key order. The groups are exactly the rows' (Province, Year) pairs, or their provinces when there is no Year column. |
| GeoProcessing.GroupValuesSpec | src/data/geo_processing.py:153-159 | The values summed for a group are the present values of exactly the rows of that group, in row order. |
| GeoProcessing.SummaryConservation | src/data/geo_processing.py:151-162 | The summary totals add up to the sum of the present values of all rows that have a province: no value is lost or counted twice. |
| GeoJsonNormalization.StandardizeProvinceName | scripts/normalize_geojson_provinces.py:15-29 | A non-string gives None. A string gives an output no longer than its input, made only of A to Z. |
| GeoJsonNormalization.StandardizeLetters | scripts/normalize_geojson_provinces.py:27-28 | Each letter A to Z occurs in the output as often as in the upper-cased input, and no other character occurs. |
| GeoJsonNormalization.StandardizeKeepsLetters | scripts/normalize_geojson_provinces.py:27-28 | A character's capital reaches the output iff the character is an ASCII letter. |
| GeoJsonNormalization.StandardizeIdempotent | scripts/normalize_geojson_provinces.py:27-28 | Standardising a standardised name gives it back. |
| GeoJsonNormalization.StandardizeNusaTenggaraBarat | scripts/normalize_geojson_provinces.py:19-21 | `'NUSA TENGGARA BARAT'` gives `'NUSATENGGARABARAT'`. |
| GeoJsonNormalization.StandardizeDiAceh | scripts/normalize_geojson_provinces.py:19-22 | `'DI. ACEH'` gives `'DIACEH'`. |
| GeoJsonNormalization.FirstNonObject | scripts/normalize_geojson_provinces.py:45-46 | The result is the index of the first feature whose properties are not an object, or the feature count. |
| GeoJsonNormalization.NormalizedSpec | scripts/normalize_geojson_provinces.py:45-56 | A feature gets `Province_std`. The value is null iff `Propinsi` is missing, null or not a string, and is the standardised name otherwise. The id and every other property are kept. |
| GeoJsonNormalization.MissingIdsSpec | scripts/normalize_geojson_provinces.py:48-51 | There is one collected id per feature without a name, and they are exactly those features' ids. |
| GeoJsonNormalization.NoMissingIds | scripts/normalize_geojson_provinces.py:48-51 | If every feature has a name, nothing is collected. |
| GeoJsonNormalization.NormalizeFeatures | scripts/normalize_geojson_provinces.py:43-56 | The features before the first non-object are normalised in place, the rest are untouched, and `missing` holds the ids of the nameless ones, in order. `ok` is true iff no feature stopped the loop. |
| Config.GetRegion | src/utils/config.py:218-231 | The result is a listed region iff the upper-cased name is a key, and otherwise `'Unknown'`. |
| Config.RegionValuesAreRegions | src/utils/config.py:86-149 | Every region value is one of the seven `REGIONS`, and none is `'Unknown'`. |
| Config.RegionKeysLayout | src/utils/config.py:86-138 | The region keys are the 34 name-mapping keys (the last two swapped) followed by the four pending splits. |
| Config.RegionKeysComplete | src/utils/config.py:67-138 | The table has 38 (`TOTAL_PROVINCES_FULL`) distinct keys. They are exactly the `PROVINCE_MAPPING` keys and the pending splits. |
| Config.JavaProvinces | src/utils/config.py:100-105 | Exactly the six keys listed at positions 10 to 15 map to `'Jawa'`. |
| Config.IsJavaIff | src/utils/config.py:234-247 | `is_java_province` holds iff the upper-cased name is one of those six keys. |
| Config.CategorizeConsumption | src/utils/config.py:250-272 | The result is one of the five labels. |
| Config.Band | src/utils/config.py:168-182 | The band index is below the number of labels. |
| Config.BandCases | src/utils/config.py:263-272 | The bands are: below 1000, [1000, 5000), [5000, 15000), [15000, 30000), and 30000 and above. |
| Config.CategorizeIsBand | src/utils/config.py:263-272 | The label is that of the number of thresholds the value reaches, so a value equal to a threshold goes in the higher band. |
| Config.CategorizeMonotone | src/utils/config.py:263-272 | A larger value never gets a lower band. |
| Config.LabelsDistinct | src/utils/config.py:176-182 | The five labels are distinct. |
| Transform.AddRegionColumn | src/data/transform.py:20-35 | The table keeps its length, and every row is kept. |
| Transform.AddRegionColumnSpec | src/data/transform.py:33-35 | A row has a region iff its province is a key of the region table. The region is one of the seven regions. For upper-case names it agrees with `get_region`. |
| Transform.AddConsumptionCategory | src/data/transform.py:38-78 | The table keeps its length, and every row is kept. |
| Transform.DefaultCategoryAgrees | src/data/transform.py:54-74 | With the default bounds, a present value gets the label of `categorize_consumption`. A missing value gets the top label. |
| Transform.CategorizeIsBand | src/data/transform.py:64-74 | For ordered bounds, the label is that of the number of bounds reached, so a value equal to a bound goes in the band above. |
| Transform.CategorizeMonotone | src/data/transform.py:64-74 | For ordered bounds, a larger value never gets a lower band. |
| Transform.ReachedMonotone | src/data/transform.py:64-74 | The number of bounds reached grows with the value. |
| Transform.AddRank | src/data/transform.py:121-126 | The result fails iff some value is missing. Otherwise it keeps every row, in order. |
| Transform.RankBounds | src/data/transform.py:124-126 | Every rank lies between 1 and the number of rows in that year. |
| Transform.MaximumRanksFirst | src/data/transform.py:124-126 | A row of its year's maximum value has rank 1. |
| Transform.TiesShareRank | src/data/transform.py:124-126 | Rows of one year with equal values share their rank. |
| Transform.RankStrictlyMonotone | src/data/transform.py:124-126 | Within a year, a strictly larger value has a strictly smaller rank. |
| Helpers.ValidateDataframe | src/utils/helpers.py:41-46 | The result succeeds with True iff every required column is present. Otherwise the error names exactly the missing columns, and that set is non-empty. |
| Helpers.ValidateMonotone | src/utils/helpers.py:41-46 | A passing table still passes with more columns or fewer requirements. |
| Helpers.FilterByYear | src/utils/helpers.py:93-96 | No more rows come out than go in. |
| Helpers.FilterByYearSpec | src/utils/helpers.py:93-96 | Each row of a listed year is kept as often as it occurs, and no other row is kept. The selection distributes over concatenation, so order is kept. |
| Helpers.FilterByProvince | src/utils/helpers.py:114-117 | No more rows come out than go in. |
| Helpers.FilterByProvinceSpec | src/utils/helpers.py:114-117 | Each row with a listed name is kept as often as it occurs, and no other row is kept. The selection distributes over concatenation. |
| Helpers.FilterByRegion | src/utils/helpers.py:120-140 | No more rows come out than go in. |
| Helpers.FilterByRegionSpec | src/utils/helpers.py:135-140 | The kept rows are exactly those whose province the region table maps to the given region. |
| Helpers.ValueOrdersArePreorders | src/utils/helpers.py:167-170 | Both value orders are total preorders. |
| Helpers.Kept | src/utils/helpers.py:168-170 | `nlargest(n)` returns no rows for n ≤ 0. Otherwise it returns n rows, or all rows when fewer are available. |
| Helpers.RankedSpec | src/utils/helpers.py:167-170 | The order `nlargest`/`nsmallest` return the year's rows in holds each of them once per occurrence: the rows with a value first, in value order, then the rows without a value. |
| Helpers.FilterTopNRows | src/utils/helpers.py:165-170 | At most n rows come back: exactly n when the year has that many rows, and all of the year's rows when it has fewer. All are rows of that year, and rows without a value come after every row with one. |
| Helpers.CandidatesMembers | src/utils/helpers.py:165-170 | The candidates are exactly the rows of that year that have a value; the missing rows are exactly the rows of that year without one. |
| Helpers.FilterTopNPartition | src/utils/helpers.py:165-170 | The returned rows and the omitted rows together are all of that year's rows, each as often as it occurs. |
| Helpers.FilterTopNOrder | src/utils/helpers.py:167-170 | While some omitted row has a value, every returned row has one and its value is ≥ the omitted value (≤ with `ascending`). Rows without a value are returned only after all rows with one. |
| Sorting.SortSorted | src/data/clean.py:259-260 | The sort's output is ordered. |
| Sorting.SortPermutation | src/data/clean.py:259-260 | The sort's output is a permutation of its input. |
| Sorting.SortOfSorted | src/data/clean.py:259-260 | A table already in order is left unchanged. |

## Left out

- File input and output are not modelled: `pd.read_csv`, `gpd.read_file`, `json.load`/`json.dump`, `save_interim_data`, `load_geojson` and `ensure_directories`.
  - A yearly table arrives as the rows following its two preamble lines, plus its header width.
  - `load_multiple_csv` gets the state of each year's file (read, unreadable or absent) as a map.
  - The boundary features arrive as an array.
- Console output is not modelled. The quality report that `clean_electricity_data` prints is returned beside the table, and the normalisation script's `missing` list is returned as well.
- Geometry is carried as an opaque value. Map shapes, centroids and the extra columns a join produces are not modelled.
- Column types are not modelled, because `read_csv`'s type inference has no counterpart here. Raw cells are text or missing. A value column that pandas reads as float (and so renders `2020` as `"2020.0"`) is not modelled.
- Column-name parameters are fixed at their defaults. The merge is modelled only with `how='left'`, the default and the only value the pipeline uses.
- `clean_electricity_data` without a Year column (src/data/clean.py:261-262) is not modelled, because the loader always adds Year. `create_province_summary` models both branches.
- The growth, CAGR, share, z-score, moving-average and percentile features are floating-point statistics and not part of this model. This covers the `Percentile` column of `add_ranking_features`. The same goes for the aggregation, outlier, export and formatting helpers of `src/utils/helpers.py`, and for `src/eda`, `src/viz` and the dashboard.
- Numerals.ParseDecimal: only decimal numerals are modelled: optional surrounding whitespace, a sign, digits and at most one point. `float`'s exponents, `inf`, `nan` and underscores are not modelled, so such text counts as not a number.
- Load.FourDigits: only the ASCII digits 0 to 9 count as digits, here and in `Numerals.IsDigit`. Python's `\d` and `float()` also accept other Unicode decimal digits; text written with those is not modelled.
- Clean.ValidateDataQuality: the per-column `missing_values` dictionary keeps only the Province and value counts. The Year count is left out, because every record carries a year, so that count is always zero.
- NumericCleaning.ParseNumberUS: the lemma needs a digit left in the integer part once its commas are removed. Text such as `,.5` is outside it.
- Text.ToUpper: only ASCII letters are upper-cased, and the model leaves every other character as it is. Python maps more: 'ß' becomes "SS" and 'ı' becomes "I", for example. `standardize_province_name`, `get_region` and every other `.upper()` of the pipeline inherit the difference: "ße" standardises to "SSE" in Python and to "E" in the model.
- Transform.AddConsumptionCategory: the thresholds are a record of the four bounds. A custom dictionary missing one of the keys, which raises `KeyError`, is not modelled.
- Helpers.FilterTopN: among rows of equal value the model keeps table order. This is what pandas' `keep='first'` does for the rows at the cut.
- Clean.CleanedData: rows with equal (Year, Province) keep their input order, which pandas' default sort does not promise.
- ProvinceMapping.GetGeoJsonName: a non-string argument (NaN, None, a number) is represented as `None`; no other non-string values are distinguished.
- GeoJsonNormalization.NormalizeFeatures: a feature whose `properties` is not a JSON object makes `props.get` raise in the script. The model stops there with `ok == false`, with the earlier features already updated.
- Values are exact reals: floating-point rounding in sums and means is not modelled.
