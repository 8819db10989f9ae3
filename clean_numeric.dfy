/** The value cleaning of `clean_numeric_column`: a cell's text is read as a
    number after a guess at its separators. When both `,` and `.` occur the
    later one is the decimal mark and the other groups thousands; a lone comma
    is a decimal mark when one or two characters follow its last occurrence
    and a thousands separator otherwise. What `float` then rejects is
    missing, never an error. */
module NumericCleaning {
  import opened Wrappers
  import Seqs
  import Text
  import Numerals

  /** A value cell of the table handed to the cleaner: missing, a number the
      reader already parsed, or text. */
  datatype Cell = Missing | Num(x: real) | Text(s: string)

  /** The separator rewriting of `parse_number` on the trimmed text `v`. */
  function Rewrite(v: string): string {
    if ',' in v && '.' in v then
      if Text.LastIndex(v, ',') < Text.LastIndex(v, '.') then Text.RemoveChar(v, ',')
      else Text.ReplaceChar(Text.RemoveChar(v, '.'), ',', '.')
    else if ',' in v then
      var tail := |v| - 1 - Text.LastIndex(v, ',');
      if 0 < tail <= 2 then Text.ReplaceChar(v, ',', '.') else Text.RemoveChar(v, ',')
    else v
  }

  /** `parse_number(val)` on a text value. */
  function ParseNumber(val: string): Option<real> {
    if val == "" then None
    else Numerals.ParseDecimal(Rewrite(Text.Strip(val)))
  }

  /** `clean_numeric_column` on one cell: `astype(str)`, the literal `"-"`
      and a missing cell (which reads back as `"nan"`) become missing, the
      text is trimmed and parsed. A parsed number prints as text that reads
      back as the same number. */
  function CleanCell(c: Cell): (r: Option<real>)
    ensures c.Missing? || c == Text("-") || c == Text("") ==> r == None
    ensures c.Num? ==> r == Some(c.x)
  {
    match c
    case Missing => None
    case Num(x) => Some(x)
    case Text(s) => if s == "-" then None else ParseNumber(Text.Strip(s))
  }

  /** `clean_numeric_column(series)`: the cleaned column, cell by cell. What
      each cell becomes is stated by `CleanCell`'s contract and by the
      `ParseNumber` lemmas below. */
  function CleanNumericColumn(cells: seq<Cell>): (r: seq<Option<real>>)
    ensures |r| == |cells|
    ensures forall i :: 0 <= i < |cells| ==> r[i] == CleanCell(cells[i])
  {
    Seqs.Map(cells, CleanCell)
  }

  /** Every character of `s` is a digit or `c`. */
  predicate DigitsAnd(s: string, c: char) {
    forall i :: 0 <= i < |s| ==> Numerals.IsDigit(s[i]) || s[i] == c
  }

  /** Removing the separator from digits and separators leaves digits. */
  lemma RemoveSeparator(s: string, c: char)
    requires DigitsAnd(s, c)
    ensures Numerals.AllDigits(Text.RemoveChar(s, c))
  {
    var r := Text.RemoveChar(s, c);
    forall i | 0 <= i < |r| ensures Numerals.IsDigit(r[i]) {
      assert r[i] in r && r[i] != c;
      var j :| 0 <= j < |s| && s[j] == r[i];
    }
  }

  /** Removing a character that does not occur changes nothing. */
  lemma RemoveAbsent(s: string, c: char)
    requires c !in s
    ensures Text.RemoveChar(s, c) == s
  {
    Seqs.FilterAll(s, x => x != c);
  }

  /** Removing a character from a concatenation removes it from each part. */
  lemma RemoveConcat(a: string, b: string, c: char)
    ensures Text.RemoveChar(a + b, c) == Text.RemoveChar(a, c) + Text.RemoveChar(b, c)
  {
    Seqs.FilterConcat(a, b, x => x != c);
  }

  /** `a + [c] + b` with no `c` in `b` has no `c` after position `|a|`, and
      its last `c` is at `|a|`. */
  lemma LastAt(a: string, c: char, b: string)
    requires c !in b
    ensures Text.LastIndex(a + [c] + b, c) == |a|
  {
    Numerals.LastIndexAfter(a, c, b);
  }

  /** When `a` holds a `c` and `[d] + b` none, the last `c` of `a + [d] + b` is inside `a`. */
  lemma LastBefore(a: string, c: char, d: char, b: string)
    requires c in a && c != d && c !in b
    ensures 0 <= Text.LastIndex(a + [d] + b, c) < |a|
  {
    var s := a + [d] + b;
    var j :| 0 <= j < |a| && a[j] == c;
    assert s[j] == c;
    Text.LastIndexAtLeast(s, c, j);
    forall i | |a| <= i < |s| ensures s[i] != c {
      if i > |a| {
        assert s[i] == b[i - |a| - 1];
      }
    }
    Text.LastIndexBelow(s, c, |a|);
  }

  /** A numeral written as digits, a point and digits reads as its value. */
  lemma PointNumeral(d: string, f: string)
    requires Numerals.AllDigits(d) && Numerals.AllDigits(f) && |d| + |f| > 0
    ensures Numerals.ParseDecimal(d + "." + f) == Some(Numerals.Magnitude(d, f))
  {
    var n := Numerals.Numeral(false, false, d, true, f);
    var u := n.Render();
    assert u == d + ("." + f);
    assert u == d + "." + f;
    Numerals.ParseDecimalComplete(n);
  }

  /** On text without edge whitespace, `parse_number` parses the rewritten text. */
  lemma ParseTrimmed(v: string)
    requires v != "" && Text.NoEdgeSpace(v)
    ensures ParseNumber(v) == Numerals.ParseDecimal(Rewrite(v))
  {
    Text.StripNoEdgeSpace(v);
  }

  /** The branch taken when a comma precedes the last point. */
  lemma RewriteUS(v: string)
    requires ',' in v && '.' in v && Text.LastIndex(v, ',') < Text.LastIndex(v, '.')
    ensures Rewrite(v) == Text.RemoveChar(v, ',')
  {
  }

  /** The branch taken when the last comma follows the last point. */
  lemma RewriteEU(v: string)
    requires ',' in v && '.' in v && Text.LastIndex(v, ',') > Text.LastIndex(v, '.')
    ensures Rewrite(v) == Text.ReplaceChar(Text.RemoveChar(v, '.'), ',', '.')
  {
  }

  /** The branches taken when only commas occur. */
  lemma RewriteCommaOnly(v: string)
    requires ',' in v && '.' !in v
    ensures 0 < |v| - 1 - Text.LastIndex(v, ',') <= 2 ==> Rewrite(v) == Text.ReplaceChar(v, ',', '.')
    ensures !(0 < |v| - 1 - Text.LastIndex(v, ',') <= 2) ==> Rewrite(v) == Text.RemoveChar(v, ',')
  {
  }

  /** A text made only of digits and the characters `a` and `b` has no edge whitespace. */
  lemma NoSpaceAtEdges(s: string, a: char, b: char)
    requires forall i :: 0 <= i < |s| ==> Numerals.IsDigit(s[i]) || s[i] == a || s[i] == b
    requires !Text.IsSpace(a) && !Text.IsSpace(b)
    ensures Text.NoEdgeSpace(s)
  {
  }

  /** `a + [c] + b`, with digits and `c`s in `a` and digits in `b`, is made of digits, `c` and `x`. */
  lemma Joined(a: string, c: char, b: string, x: char)
    requires DigitsAnd(a, x) && Numerals.AllDigits(b)
    ensures forall i :: 0 <= i < |a + [c] + b| ==> Numerals.IsDigit((a + [c] + b)[i]) || (a + [c] + b)[i] == x || (a + [c] + b)[i] == c
  {
    var s := a + [c] + b;
    forall i | 0 <= i < |s| ensures Numerals.IsDigit(s[i]) || s[i] == x || s[i] == c {
      if i < |a| {
        assert s[i] == a[i];
      } else if i > |a| {
        assert s[i] == b[i - |a| - 1];
      }
    }
  }

  /** US format: commas before the last point group thousands and are
      dropped, so `d.f` with grouping commas in `d` is read as `d` without
      its commas, then the fraction `f`. The integer part must keep a digit
      once its commas are removed: text such as `,.5` is outside this
      lemma. */
  lemma ParseNumberUS(v: string, d: string, f: string)
    requires v == d + "." + f
    requires DigitsAnd(d, ',') && ',' in d && Numerals.AllDigits(f)
    requires Text.RemoveChar(d, ',') != []
    ensures Numerals.AllDigits(Text.RemoveChar(d, ',')) && ParseNumber(v) ==
      Some(Numerals.Magnitude(Text.RemoveChar(d, ','), f))
  {
    RemoveSeparator(d, ',');
    TakesUSBranch(d, f);
    RemoveAround(d, '.', f, ',');
    PointNumeral(Text.RemoveChar(d, ','), f);
  }

  lemma TakesUSBranch(d: string, f: string)
    requires DigitsAnd(d, ',') && ',' in d && Numerals.AllDigits(f)
    ensures ParseNumber(d + "." + f) == Numerals.ParseDecimal(Text.RemoveChar(d + "." + f, ','))
  {
    var v := d + "." + f;
    assert v == d + ['.'] + f;
    Joined(d, '.', f, ',');
    NoSpaceAtEdges(v, ',', '.');
    ParseTrimmed(v);
    Numerals.NoPointInDigits(f);
    assert '.' !in d && ',' !in f;
    LastAt(d, '.', f);
    LastBefore(d, ',', '.', f);
    assert v[Text.LastIndex(v, ',')] == ',' && v[|d|] == '.';
    RewriteUS(v);
  }

  /** Removing `c` from `a + [x] + f`, with digits in `f` and `x != c`. */
  lemma RemoveAround(a: string, x: char, f: string, c: char)
    requires Numerals.AllDigits(f) && x != c && !Numerals.IsDigit(c)
    ensures Text.RemoveChar(a + [x] + f, c) == Text.RemoveChar(a, c) + [x] + f
  {
    assert a + [x] + f == a + ([x] + f);
    assert c !in [x] + f by {
      assert forall i :: 0 <= i < |f| ==> f[i] != c;
    }
    RemoveConcat(a, [x] + f, c);
    RemoveAbsent([x] + f, c);
  }

  /** European format: points before the last comma group thousands and
      are dropped, and the comma is the decimal mark. */
  lemma ParseNumberEU(v: string, e: string, f: string)
    requires v == e + "," + f
    requires DigitsAnd(e, '.') && '.' in e && Numerals.AllDigits(f)
    requires |Text.RemoveChar(e, '.')| + |f| > 0
    ensures Numerals.AllDigits(Text.RemoveChar(e, '.')) && ParseNumber(v) ==
      Some(Numerals.Magnitude(Text.RemoveChar(e, '.'), f))
  {
    var v := e + "," + f;
    assert v == e + [','] + f == e + ("," + f);
    Joined(e, ',', f, '.');
    NoSpaceAtEdges(v, ',', '.');
    ParseTrimmed(v);
    Numerals.NoPointInDigits(f);
    assert ',' !in e && ',' !in f;
    LastAt(e, ',', f);
    LastBefore(e, '.', ',', f);
    assert v[Text.LastIndex(v, '.')] == '.' && v[|e|] == ',';
    RewriteEU(v);
    var w := Text.RemoveChar(e, '.');
    RemoveConcat(e, "," + f, '.');
    RemoveAbsent("," + f, '.');
    RemoveSeparator(e, '.');
    CommaToPoint(w, f);
    PointNumeral(w, f);
  }

  /** Turning the one comma of `w,f` into a point, when `w` and `f` are digits. */
  lemma CommaToPoint(w: string, f: string)
    requires Numerals.AllDigits(w) && Numerals.AllDigits(f)
    ensures Text.ReplaceChar(w + ("," + f), ',', '.') == w + "." + f
  {
    var v := w + ("," + f);
    var r := Text.ReplaceChar(v, ',', '.');
    forall i | 0 <= i < |r| ensures r[i] == (w + "." + f)[i] {
      if i < |w| {
        assert v[i] == w[i];
      } else if i > |w| {
        assert v[i] == f[i - |w| - 1];
      }
    }
  }

  /** A lone comma followed by one or two digits is a decimal comma. */
  lemma ParseNumberDecimalComma(v: string, a: string, f: string)
    requires v == a + "," + f
    requires Numerals.AllDigits(a) && Numerals.AllDigits(f) && 1 <= |f| <= 2
    ensures ParseNumber(v) == Some(Numerals.Magnitude(a, f))
  {
    var v := a + "," + f;
    assert v == a + [','] + f == a + ("," + f);
    Joined(a, ',', f, ',');
    NoSpaceAtEdges(v, ',', ',');
    ParseTrimmed(v);
    Numerals.NoPointInDigits(a);
    Numerals.NoPointInDigits(f);
    assert ',' !in f;
    assert '.' !in v by {
      assert forall i :: 0 <= i < |v| ==> Numerals.IsDigit(v[i]) || v[i] == ',';
    }
    LastAt(a, ',', f);
    RewriteCommaOnly(v);
    CommaToPoint(a, f);
    PointNumeral(a, f);
  }

  /** Commas whose last occurrence is followed by no character or by three
      or more are thousands separators and are dropped. */
  lemma ParseNumberGrouping(v: string, a: string, f: string)
    requires v == a + "," + f
    requires DigitsAnd(a, ',') && Numerals.AllDigits(f) && (|f| == 0 || |f| >= 3)
    requires |Text.RemoveChar(a, ',')| + |f| > 0
    ensures Numerals.AllDigits(Text.RemoveChar(a, ',') + f)
    ensures ParseNumber(v) == Some(Numerals.DigitsValue(Text.RemoveChar(a, ',') + f) as real)
  {
    RemoveSeparator(a, ',');
    TakesGroupingBranch(a, f);
    RemoveDropping(a, f, ',');
    Numerals.DigitsConcat(Text.RemoveChar(a, ','), f);
    Numerals.ParseDigits(Text.RemoveChar(a, ',') + f);
  }

  lemma TakesGroupingBranch(a: string, f: string)
    requires DigitsAnd(a, ',') && Numerals.AllDigits(f) && (|f| == 0 || |f| >= 3)
    ensures ParseNumber(a + "," + f) == Numerals.ParseDecimal(Text.RemoveChar(a + "," + f, ','))
  {
    var v := a + "," + f;
    assert v == a + [','] + f;
    Joined(a, ',', f, ',');
    NoSpaceAtEdges(v, ',', ',');
    ParseTrimmed(v);
    Numerals.NoPointInDigits(f);
    assert ',' !in f;
    assert '.' !in v by {
      assert forall i :: 0 <= i < |v| ==> Numerals.IsDigit(v[i]) || v[i] == ',';
    }
    LastAt(a, ',', f);
    RewriteCommaOnly(v);
  }

  /** Removing `c` from `a + [c] + f`, with digits in `f`. */
  lemma RemoveDropping(a: string, f: string, c: char)
    requires Numerals.AllDigits(f) && !Numerals.IsDigit(c)
    ensures Text.RemoveChar(a + [c] + f, c) == Text.RemoveChar(a, c) + f
  {
    var t := [c] + f;
    assert a + [c] + f == a + t;
    assert c !in f by {
      assert forall i :: 0 <= i < |f| ==> f[i] != c;
    }
    RemoveConcat([c], f, c);
    RemoveSingle(c);
    RemoveAbsent(f, c);
    assert Text.RemoveChar(t, c) == f;
    RemoveConcat(a, t, c);
  }

  lemma RemoveSingle(c: char)
    ensures Text.RemoveChar([c], c) == []
  {
    assert [c][..0] == [];
    assert Seqs.Filter([c], x => x != c) == Seqs.Filter([], x => x != c) + [];
  }

  /** Text without commas is read exactly as `float` reads it. */
  lemma ParseNumberPlain(v: string)
    requires ',' !in v && v != ""
    ensures ParseNumber(v) == Numerals.ParseDecimal(v)
  {
    var u := Text.Strip(v);
    assert forall i :: 0 <= i < |u| ==> u[i] == v[Text.LeadingSpaces(v) + i];
    assert ',' !in u;
    Text.StripNoEdgeSpace(u);
  }

  /** Every decimal numeral written without separators is read as its value. */
  lemma ParseNumberNumeral(n: Numerals.Numeral)
    requires n.WellFormed()
    ensures ParseNumber(n.Render()) == Some(n.Value())
  {
    Numerals.RenderNoEdgeSpace(n);
    var u := n.Render();
    assert ',' !in u by {
      forall i | 0 <= i < |u| ensures u[i] != ',' {
      }
    }
    ParseNumberPlain(u);
    Numerals.ParseDecimalComplete(n);
  }

  /** `"1,234.56"` is read in US format. */
  lemma ExampleUS()
    ensures ParseNumber("1,234.56") == Some(1234.56)
  {
    GroupedThousand("1,234", ',');
    ThousandValue();
    ParseNumberUS("1,234.56", "1,234", "56");
  }

  /** `"1.234,56"` is read in European format. */
  lemma ExampleEU()
    ensures ParseNumber("1.234,56") == Some(1234.56)
  {
    GroupedThousand("1.234", '.');
    ThousandValue();
    ParseNumberEU("1.234,56", "1.234", "56");
  }

  /** `"2,90"` has a decimal comma and `"2,900"` a thousands separator. */
  lemma ExampleCommaOnly()
    ensures ParseNumber("2,90") == Some(2.9)
    ensures ParseNumber("2,900") == Some(2900.0)
  {
    CommaOnlyParts();
    ParseNumberDecimalComma("2,90", "2", "90");
    ParseNumberGrouping("2,900", "2", "900");
  }

  lemma GroupedThousand(d: string, c: char)
    requires d == "1" + [c] + "234" && (c == ',' || c == '.')
    ensures DigitsAnd(d, c) && c in d && Text.RemoveChar(d, c) == "1234"
  {
    RemoveDropping("1", "234", c);
    RemoveAbsent("1", c);
    assert d[1] == c;
  }

  lemma ThousandValue()
    ensures Numerals.AllDigits("1234") && Numerals.AllDigits("56")
    ensures Numerals.Magnitude("1234", "56") == 1234.56
  {
    DigitsValues();
  }

  lemma CommaOnlyParts()
    ensures Numerals.AllDigits("2") && Numerals.AllDigits("90") && Numerals.AllDigits("900")
    ensures Text.RemoveChar("2", ',') + "900" == "2900"
    ensures Numerals.Magnitude("2", "90") == 2.9
    ensures Numerals.DigitsValue("2900") == 2900
  {
    RemoveAbsent("2", ',');
    DigitsValues();
  }

  lemma DigitsValues()
    ensures Numerals.DigitsValue("1234") == 1234 && Numerals.DigitsValue("56") == 56
    ensures Numerals.DigitsValue("2") == 2 && Numerals.DigitsValue("90") == 90
    ensures Numerals.DigitsValue("2900") == 2900
    ensures Numerals.Pow10(2) == 100
  {
    assert "1234"[..3] == "123" && "123"[..2] == "12" && "12"[..1] == "1" && "1"[..0] == "";
    assert "56"[..1] == "5" && "5"[..0] == "";
    assert "2"[..0] == "" && "90"[..1] == "9" && "9"[..0] == "";
    assert "2900"[..3] == "290" && "290"[..2] == "29" && "29"[..1] == "2";
  }
}
