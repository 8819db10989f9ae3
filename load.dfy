/** Loading the yearly exports of the statistics agency: one table per year
    turned into `(Province, Year, Electricity_GWh)` rows by a fixed chain of
    row filters, and the multi-year loader that skips the years it cannot
    load. Reading the files is left to the caller: a table arrives as the
    rows that follow its two preamble lines. */
module Load {
  import opened Wrappers
  import Seqs
  import Text
  import Numerals

  /** A cell as the CSV reader gives it: its text, or `None` when it is empty. */
  type CsvCell = Option<string>

  /** The rows after the preamble; `width` is the number of header columns.
      The reader pads a short row with missing cells. */
  datatype CsvTable = CsvTable(width: nat, rows: seq<seq<CsvCell>>)

  function Cell(row: seq<CsvCell>, j: nat): CsvCell {
    if j < |row| then row[j] else None
  }

  /** A loaded row: trimmed province name, year and value. */
  datatype LoadedRow = LoadedRow(province: string, year: int, value: real)

  /** `str.match(r"^\d{4}$")`: four ASCII digits, optionally followed by one
      line feed, which `$` also accepts. */
  predicate FourDigits(s: string) {
    (|s| == 4 || (|s| == 5 && s[4] == '\n')) && Numerals.AllDigits(s[..4])
  }

  /** `astype(str)` of a cell: a missing cell becomes the text `"nan"`. */
  function CellText(c: CsvCell): string {
    match c
    case None => "nan"
    case Some(s) => s
  }

  /** The whitespace pandas' numeric parser skips around a number: the
      blank and the control characters `\t` to `\r`. */
  predicate IsAsciiSpace(c: char) { c == ' ' || '\t' <= c <= '\r' }

  /** Whether `s` holds whitespace that `str.isspace()` admits but pandas'
      numeric parser does not skip. */
  predicate HasWideSpace(s: string) {
    exists i :: 0 <= i < |s| && Text.IsSpace(s[i]) && !IsAsciiSpace(s[i])
  }

  /** `pd.to_numeric(cell, errors="coerce")`: the value of a numeral, or
      missing. Unlike `float()`, pandas skips only ASCII whitespace around
      the number, so text holding any other whitespace coerces to missing. */
  function ToNumeric(c: CsvCell): Option<real> {
    match c
    case None => None
    case Some(s) => if HasWideSpace(s) then None else Numerals.ParseDecimal(s)
  }

  /** What `load_single_csv` keeps of the row whose first two cells are the
      province `p` and the value `v`: nothing when the province is missing,
      blank after trimming or four digits, when the value's text is four
      digits, or when the value is not a number. */
  function LoadRow(p: CsvCell, v: CsvCell, year: int): Option<LoadedRow> {
    if p.None? then None
    else
      var name := Text.Strip(p.value);
      if name == "" || FourDigits(name) || FourDigits(CellText(v)) then None
      else
        match ToNumeric(v)
        case None => None
        case Some(x) => Some(LoadedRow(name, year, x))
  }

  /** The kept rows of `rows`, in their order. */
  function KeepRows(rows: seq<seq<CsvCell>>, year: int): (r: seq<LoadedRow>)
    ensures |r| <= |rows|
  {
    if rows == [] then []
    else
      var last := rows[|rows| - 1];
      KeepRows(rows[..|rows| - 1], year)
        + match LoadRow(Cell(last, 0), Cell(last, 1), year) case Some(row) => [row] case None => []
  }

  /** `load_single_csv(filepath, year)` after the read: a table with fewer
      than two columns cannot be given the two column names. */
  function LoadSingleCsv(t: CsvTable, year: int): Result<seq<LoadedRow>, string> {
    if t.width < 2 then Failure("Length mismatch: the table has fewer than two columns")
    else Success(KeepRows(t.rows, year))
  }

  /** A row is kept exactly when its province cell is present, not blank and
      not four digits once trimmed, its value's text is not four digits, and
      its value is a number; the kept row holds the trimmed name, the given
      year and that number. */
  lemma LoadRowIff(p: CsvCell, v: CsvCell, year: int)
    ensures LoadRow(p, v, year).Some? <==>
      p.Some? && Text.Strip(p.value) != "" && !FourDigits(Text.Strip(p.value))
      && !FourDigits(CellText(v)) && ToNumeric(v).Some?
    ensures LoadRow(p, v, year).Some? ==>
      LoadRow(p, v, year).value == LoadedRow(Text.Strip(p.value), year, ToNumeric(v).value)
  {
  }

  /** Every loaded row carries the given year and a province name that is
      present, trimmed, not empty and not four digits. */
  lemma {:induction false} KeptRowsClean(rows: seq<seq<CsvCell>>, year: int)
    ensures forall r :: r in KeepRows(rows, year) ==>
      r.year == year && r.province != "" && Text.NoEdgeSpace(r.province) && !FourDigits(r.province)
  {
    if rows != [] {
      KeptRowsClean(rows[..|rows| - 1], year);
    }
  }

  /** The kept rows of two stacked blocks are the kept rows of the first
      followed by those of the second: rows survive in their original order. */
  lemma {:induction false} KeepRowsConcat(a: seq<seq<CsvCell>>, b: seq<seq<CsvCell>>, year: int)
    ensures KeepRows(a + b, year) == KeepRows(a, year) + KeepRows(b, year)
  {
    if b == [] {
      assert a + b == a;
    } else {
      var b' := b[..|b| - 1];
      assert (a + b)[..|a + b| - 1] == a + b';
      KeepRowsConcat(a, b', year);
    }
  }

  /** A single row is kept as `LoadRow` decides. */
  lemma KeepOneRow(row: seq<CsvCell>, year: int)
    ensures KeepRows([row], year) == match LoadRow(Cell(row, 0), Cell(row, 1), year) case Some(r) => [r] case None => []
  {
    assert [row][..0] == [];
  }

  /** Only the first two columns are read: tables that agree on them load alike. */
  lemma {:induction false} KeepRowsFirstTwoColumns(rows: seq<seq<CsvCell>>, rows': seq<seq<CsvCell>>, year: int)
    requires |rows| == |rows'|
    requires forall i :: 0 <= i < |rows| ==> Cell(rows[i], 0) == Cell(rows'[i], 0) && Cell(rows[i], 1) == Cell(rows'[i], 1)
    ensures KeepRows(rows, year) == KeepRows(rows', year)
  {
    if rows != [] {
      KeepRowsFirstTwoColumns(rows[..|rows| - 1], rows'[..|rows'| - 1], year);
    }
  }

  /** A value written as exactly four digits is dropped although it is a
      number; a value written with a thousands separator does not coerce to
      a number and is dropped too. */
  lemma FourDigitValueDropped(p: CsvCell, year: int, a: string, b: string)
    requires a == "2937" && b == "2,937.99"
    ensures ToNumeric(Some(a)) == Some(2937.0)
    ensures LoadRow(p, Some(a), year) == None
    ensures ToNumeric(Some(b)) == None
    ensures LoadRow(p, Some(b), year) == None
  {
    FourDigitValue(a);
    FourDigitText(a);
    SeparatorValue(b);
    assert !FourDigits(CellText(Some(b)));
  }

  lemma FourDigitValue(a: string)
    requires a == "2937"
    ensures ToNumeric(Some(a)) == Some(2937.0)
  {
    PrintableNotWide(a);
    FourDigitNumber(a);
  }

  lemma SeparatorValue(b: string)
    requires b == "2,937.99"
    ensures ToNumeric(Some(b)) == None
  {
    PrintableNotWide(b);
    SeparatorNotNumeral(b);
  }

  /** A value padded with an ideographic space is a number to `float()` but
      not to pandas: it passes the four-digit filter, coerces to missing and
      its row is dropped. */
  lemma WideSpaceValueDropped(p: CsvCell, year: int, a: string)
    requires a == "2937\U{3000}"
    ensures Numerals.ParseDecimal(a) == Some(2937.0)
    ensures !FourDigits(CellText(Some(a)))
    ensures ToNumeric(Some(a)) == None
    ensures LoadRow(p, Some(a), year) == None
  {
    assert Text.IsSpace(a[4]) && !IsAsciiSpace(a[4]);
    WidePaddedNumber(a, "2937");
  }

  lemma WidePaddedNumber(a: string, d: string)
    requires d == "2937" && a == d + "\U{3000}"
    ensures Numerals.ParseDecimal(a) == Some(2937.0)
  {
    assert Text.LeadingSpaces(a) == 0;
    assert a[..4] == d;
    assert Text.TrailingSpaces(d) == 0;
    assert Text.TrailingSpaces(a) == 1;
    assert Text.Strip(a) == d;
    Text.StripNoEdgeSpace(d);
    FourDigitNumber(d);
  }

  /** Text of visible ASCII characters holds no whitespace at all. */
  lemma PrintableNotWide(s: string)
    requires forall i :: 0 <= i < |s| ==> '!' <= s[i] <= '~'
    ensures !HasWideSpace(s)
  {
  }

  lemma FourDigitText(a: string)
    requires a == "2937"
    ensures FourDigits(CellText(Some(a)))
  {
  }

  lemma FourDigitNumber(a: string)
    requires a == "2937"
    ensures Numerals.ParseDecimal(a) == Some(2937.0)
  {
    Numerals.ParseDigits(a);
    DigitsOf2937(a);
  }

  lemma DigitsOf2937(s: string)
    requires s == "2937"
    ensures Numerals.DigitsValue(s) == 2937
  {
    assert s[..3] == "293";
    assert s[..3][..2] == "29";
    assert s[..3][..2][..1] == "2";
    assert s[..3][..2][..1][..0] == "";
    assert Numerals.DigitsValue("2") == 2;
    assert Numerals.DigitsValue("29") == 29;
    assert Numerals.DigitsValue("293") == 293;
  }

  lemma SeparatorNotNumeral(s: string)
    requires s == "2,937.99"
    ensures Numerals.ParseDecimal(s) == None
  {
    Text.StripNoEdgeSpace(s);
    assert Text.LastIndex(s, '.') == 5 by {
      Numerals.LastIndexAfter("2,937", '.', "99");
      assert s == "2,937" + ['.'] + "99";
    }
    assert !Numerals.IsDigit(s[..5][1]);
  }

  /** The state of one year's file: read into a table, or missing or
      unreadable (the read raised). */
  datatype FileState = Found(table: CsvTable) | Unreadable

  /** The rows loaded for `year`, if its file exists and loads. */
  function YearTable(files: map<int, FileState>, year: int): Option<seq<LoadedRow>> {
    if year !in files then None
    else match files[year]
      case Unreadable => None
      case Found(t) =>
        match LoadSingleCsv(t, year)
        case Failure(_) => None
        case Success(rows) => Some(rows)
  }

  /** The loaded tables of the years that load, in the order of `years`. */
  function LoadedTables(files: map<int, FileState>, years: seq<int>): seq<seq<LoadedRow>> {
    if years == [] then []
    else
      LoadedTables(files, years[..|years| - 1])
        + match YearTable(files, years[|years| - 1]) case Some(rows) => [rows] case None => []
  }

  /** `load_multiple_csv(data_dir, years)`, with the directory given as the
      state of the file for each year (a year absent from `files` has no
      file). A year that cannot be loaded is skipped; when none loads the
      call fails, otherwise the loaded tables are concatenated in year order. */
  method LoadMultipleCsv(files: map<int, FileState>, years: seq<int>) returns (r: Result<seq<LoadedRow>, string>)
    ensures r.Failure? <==> LoadedTables(files, years) == []
    ensures r.Success? ==> r.value == Seqs.Flatten(LoadedTables(files, years))
  {
    var allData: seq<seq<LoadedRow>> := [];
    var i := 0;
    while i < |years|
      invariant 0 <= i <= |years|
      invariant allData == LoadedTables(files, years[..i])
    {
      var year := years[i];
      LoadedTablesStep(files, years, i);
      if year !in files {
        i := i + 1;
        continue;
      }
      match files[year] {
        case Unreadable =>
        case Found(t) =>
          var loaded := LoadSingleCsv(t, year);
          if loaded.Success? {
            allData := allData + [loaded.value];
          }
      }
      i := i + 1;
    }
    assert years[..i] == years;
    if allData == [] {
      return Failure("Tidak ada file CSV yang berhasil diload.");
    }
    r := Success(Seqs.Flatten(allData));
  }

  /** One more year adds its table when it loads. */
  lemma LoadedTablesStep(files: map<int, FileState>, years: seq<int>, i: nat)
    requires i < |years|
    ensures LoadedTables(files, years[..i + 1]) == LoadedTables(files, years[..i])
      + match YearTable(files, years[i]) case Some(rows) => [rows] case None => []
  {
    assert years[..i + 1][..i] == years[..i];
  }

  /** Every combined row comes from a year of `years` whose file loaded, and
      carries that year; the combined row count is the sum of the per-year
      row counts. */
  lemma {:induction false} LoadedTablesContents(files: map<int, FileState>, years: seq<int>)
    ensures |Seqs.Flatten(LoadedTables(files, years))| == Seqs.SumLengths(LoadedTables(files, years))
    ensures forall row :: row in Seqs.Flatten(LoadedTables(files, years)) ==>
      row.year in years && YearTable(files, row.year).Some? && row in YearTable(files, row.year).value
  {
    Seqs.FlattenContents(LoadedTables(files, years));
    if years != [] {
      var init := years[..|years| - 1];
      var y := years[|years| - 1];
      LoadedTablesContents(files, init);
      Seqs.FlattenContents(LoadedTables(files, init));
      forall row | row in Seqs.Flatten(LoadedTables(files, years))
        ensures row.year in years && YearTable(files, row.year).Some? && row in YearTable(files, row.year).value
      {
        assert Seqs.InSome(LoadedTables(files, years), row);
        if !(row in Seqs.Flatten(LoadedTables(files, init))) {
          var rows := YearTable(files, y).value;
          assert row in rows;
          YearRowsCarryYear(files, y);
        }
        assert init <= years;
      }
    }
  }

  /** The rows loaded for a year carry that year. */
  lemma YearRowsCarryYear(files: map<int, FileState>, year: int)
    requires YearTable(files, year).Some?
    ensures forall row :: row in YearTable(files, year).value ==> row.year == year
  {
    KeptRowsClean(files[year].table.rows, year);
  }

  /** A year that loads contributes its table, so the call fails only when
      no year loads. */
  lemma {:induction false} LoadedTablesNonEmpty(files: map<int, FileState>, years: seq<int>, i: nat)
    requires i < |years| && YearTable(files, years[i]).Some?
    ensures LoadedTables(files, years) != []
  {
    var init := years[..|years| - 1];
    if i < |years| - 1 {
      assert init[i] == years[i];
      LoadedTablesNonEmpty(files, init, i);
    }
  }
}
