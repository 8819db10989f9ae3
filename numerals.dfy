/** Plain decimal numerals: the part of Python's `float(text)` (and of
    `pd.to_numeric(text)`) that the pipeline relies on. A numeral is optional
    surrounding whitespace, an optional sign, digits with at most one decimal
    point, and at least one digit. */
module Numerals {
  import opened Wrappers
  import Text

  predicate IsDigit(c: char) { '0' <= c <= '9' }

  predicate AllDigits(s: string) {
    forall i :: 0 <= i < |s| ==> IsDigit(s[i])
  }

  function DigitValue(c: char): nat
    requires IsDigit(c)
  {
    c as int - '0' as int
  }

  /** The natural number a digit string denotes. */
  function DigitsValue(s: string): nat
    requires AllDigits(s)
  {
    if s == [] then 0 else DigitsValue(s[..|s| - 1]) * 10 + DigitValue(s[|s| - 1])
  }

  function Pow10(n: nat): (p: nat)
    ensures p > 0
  {
    if n == 0 then 1 else 10 * Pow10(n - 1)
  }

  /** The value of the digits `s` written after a decimal point. */
  function FractionValue(s: string): real
    requires AllDigits(s)
  {
    DigitsValue(s) as real / Pow10(|s|) as real
  }

  /** The value of the digits `d` before and `f` after a decimal point. */
  function Magnitude(d: string, f: string): real
    requires AllDigits(d) && AllDigits(f)
  {
    DigitsValue(d) as real + FractionValue(f)
  }

  /** The parts of a decimal numeral: its sign, the digits before the point,
      whether a point is written, and the digits after it. */
  datatype Numeral = Numeral(negative: bool, plusSign: bool, intDigits: string, point: bool, fracDigits: string)
  {
    ghost predicate WellFormed() {
      && !(negative && plusSign)
      && AllDigits(intDigits) && AllDigits(fracDigits)
      && |intDigits| + |fracDigits| > 0
      && (!point ==> fracDigits == [])
    }

    function Value(): real
      requires AllDigits(intDigits) && AllDigits(fracDigits)
    {
      if negative then -Magnitude(intDigits, fracDigits) else Magnitude(intDigits, fracDigits)
    }

    /** The text of the numeral after its sign. */
    function UnsignedText(): string {
      intDigits + (if point then "." + fracDigits else "")
    }

    /** The text of the numeral, without surrounding whitespace. */
    function Render(): string {
      (if negative then "-" else if plusSign then "+" else "") + UnsignedText()
    }
  }

  /** The numeral that `float(t)` reads, restricted to the grammar above;
      `None` where Python would raise (or read an exponent, `inf`, `nan`
      or underscores, which this grammar leaves out). */
  function ParseDecimal(t: string): Option<real> {
    var u := Text.Strip(t);
    if |u| > 0 && (u[0] == '-' || u[0] == '+') then ParseUnsigned(u[1..], u[0] == '-', u[0] == '+')
    else ParseUnsigned(u, false, false)
  }

  /** The numeral `body` without its sign: split at its decimal point. */
  function SplitNumeral(body: string, negative: bool, plusSign: bool): Numeral {
    var k := Text.LastIndex(body, '.');
    if k < 0 then Numeral(negative, plusSign, body, false, [])
    else Numeral(negative, plusSign, body[..k], true, body[k + 1..])
  }

  function ParseUnsigned(body: string, negative: bool, plusSign: bool): Option<real> {
    var n := SplitNumeral(body, negative, plusSign);
    if AllDigits(n.intDigits) && AllDigits(n.fracDigits) && |n.intDigits| + |n.fracDigits| > 0
    then Some(n.Value())
    else None
  }

  lemma LastIndexAbsent(s: string, c: char)
    requires c !in s
    ensures Text.LastIndex(s, c) == -1
  {
  }

  /** The last `c` of `a + [c] + b` is the one after `a` when `b` holds none. */
  lemma {:induction false} LastIndexAfter(a: string, c: char, b: string)
    requires c !in b
    ensures Text.LastIndex(a + [c] + b, c) == |a|
  {
    var s := a + [c] + b;
    if b != [] {
      var b' := b[..|b| - 1];
      assert s[..|s| - 1] == a + [c] + b';
      assert s[|s| - 1] == b[|b| - 1];
      LastIndexAfter(a, c, b');
    }
  }

  lemma NoPointInDigits(s: string)
    requires AllDigits(s)
    ensures '.' !in s
  {
    assert forall i :: 0 <= i < |s| ==> s[i] != '.';
  }

  /** The unsigned text of a well-formed numeral splits back into its parts. */
  lemma SplitNumeralComplete(n: Numeral)
    requires n.WellFormed()
    ensures SplitNumeral(n.UnsignedText(), n.negative, n.plusSign) == n
  {
    if n.point {
      NoPointInDigits(n.fracDigits);
      var body := n.intDigits + ("." + n.fracDigits);
      assert body == n.intDigits + ['.'] + n.fracDigits;
      LastIndexAfter(n.intDigits, '.', n.fracDigits);
      assert body[..|n.intDigits|] == n.intDigits;
      assert body[|n.intDigits| + 1..] == n.fracDigits;
    } else {
      NoPointInDigits(n.intDigits);
      assert n.intDigits + "" == n.intDigits;
      LastIndexAbsent(n.intDigits, '.');
    }
  }

  /** A rendered numeral has no whitespace at its edges. */
  lemma RenderNoEdgeSpace(n: Numeral)
    requires n.WellFormed()
    ensures n.Render() != [] && Text.NoEdgeSpace(n.Render())
  {
    var u := n.Render();
    if !n.negative && !n.plusSign && n.intDigits != [] {
      assert u[0] == n.intDigits[0];
    }
    if n.point && n.fracDigits != [] {
      assert u[|u| - 1] == n.fracDigits[|n.fracDigits| - 1];
    } else if !n.point {
      assert u[|u| - 1] == n.intDigits[|n.intDigits| - 1];
    }
  }

  /** Reading a signed numeral without edge whitespace. */
  lemma ParseDecimalSigned(u: string)
    requires Text.NoEdgeSpace(u) && |u| > 0 && (u[0] == '-' || u[0] == '+')
    ensures ParseDecimal(u) == ParseUnsigned(u[1..], u[0] == '-', u[0] == '+')
  {
    Text.StripNoEdgeSpace(u);
  }

  /** Reading an unsigned numeral without edge whitespace. */
  lemma ParseDecimalUnsigned(u: string)
    requires Text.NoEdgeSpace(u) && (u == [] || (u[0] != '-' && u[0] != '+'))
    ensures ParseDecimal(u) == ParseUnsigned(u, false, false)
  {
    Text.StripNoEdgeSpace(u);
  }

  lemma ParseSignedComplete(n: Numeral)
    requires n.WellFormed() && (n.negative || n.plusSign)
    ensures ParseDecimal(n.Render()) == Some(n.Value())
  {
    var u := n.Render();
    var body := n.UnsignedText();
    RenderNoEdgeSpace(n);
    SplitNumeralComplete(n);
    assert u == (if n.negative then "-" else "+") + body;
    ParseDecimalSigned(u);
    assert u[1..] == body;
  }

  lemma ParseUnsignedComplete(n: Numeral)
    requires n.WellFormed() && !n.negative && !n.plusSign
    ensures ParseDecimal(n.Render()) == Some(n.Value())
  {
    var u := n.Render();
    var body := n.UnsignedText();
    RenderNoEdgeSpace(n);
    SplitNumeralComplete(n);
    assert u == body;
    assert u[0] != '-' && u[0] != '+' by {
      if n.intDigits != [] {
        assert u[0] == n.intDigits[0];
      } else {
        assert u[0] == '.';
      }
    }
    ParseDecimalUnsigned(u);
  }

  /** Every well-formed numeral is read back as its own value. */
  lemma ParseDecimalComplete(n: Numeral)
    requires n.WellFormed()
    ensures ParseDecimal(n.Render()) == Some(n.Value())
  {
    if n.negative || n.plusSign {
      ParseSignedComplete(n);
    } else {
      ParseUnsignedComplete(n);
    }
  }

  /** Splitting at the decimal point loses no character. */
  lemma SplitNumeralSound(body: string, negative: bool, plusSign: bool)
    ensures SplitNumeral(body, negative, plusSign).UnsignedText() == body
  {
    var k := Text.LastIndex(body, '.');
    if k >= 0 {
      assert body == body[..k] + ("." + body[k + 1..]);
    } else {
      assert body == body + "";
    }
  }

  /** Whatever `ParseDecimal` accepts is the text of a well-formed numeral,
      and the value it returns is that numeral's value. */
  lemma ParseDecimalSound(t: string)
    requires ParseDecimal(t).Some?
    ensures exists n: Numeral :: n.WellFormed() && n.Render() == Text.Strip(t)
                                 && ParseDecimal(t) == Some(n.Value())
  {
    var u := Text.Strip(t);
    var n := ReadNumeral(u);
    ReadNumeralSound(t);
    assert n.WellFormed() && n.Render() == u && ParseDecimal(t) == Some(n.Value());
  }

  /** The numeral `ParseDecimal` reads from stripped text. */
  function ReadNumeral(u: string): Numeral {
    if |u| > 0 && (u[0] == '-' || u[0] == '+') then SplitNumeral(u[1..], u[0] == '-', u[0] == '+')
    else SplitNumeral(u, false, false)
  }

  lemma ReadNumeralSound(t: string)
    requires ParseDecimal(t).Some?
    ensures ReadNumeral(Text.Strip(t)).WellFormed()
    ensures ReadNumeral(Text.Strip(t)).Render() == Text.Strip(t)
    ensures ParseDecimal(t) == Some(ReadNumeral(Text.Strip(t)).Value())
  {
    var u := Text.Strip(t);
    if |u| > 0 && (u[0] == '-' || u[0] == '+') {
      var neg, plus := u[0] == '-', u[0] == '+';
      assert ParseDecimal(t) == ParseUnsigned(u[1..], neg, plus);
      ParseUnsignedSound(u[1..], neg, plus);
      RenderSigned(u);
    } else {
      assert ParseDecimal(t) == ParseUnsigned(u, false, false);
      ParseUnsignedSound(u, false, false);
    }
  }

  lemma RenderSigned(u: string)
    requires |u| > 0 && (u[0] == '-' || u[0] == '+')
    ensures SplitNumeral(u[1..], u[0] == '-', u[0] == '+').Render() == u
  {
    var n := SplitNumeral(u[1..], u[0] == '-', u[0] == '+');
    SplitNumeralSound(u[1..], u[0] == '-', u[0] == '+');
    assert u == [u[0]] + u[1..];
    if u[0] == '-' {
      assert n.Render() == "-" + u[1..];
    } else {
      assert n.Render() == "+" + u[1..];
    }
  }

  /** An accepted unsigned body is the text of the well-formed numeral it
      splits into. */
  lemma ParseUnsignedSound(body: string, negative: bool, plusSign: bool)
    requires ParseUnsigned(body, negative, plusSign).Some? && !(negative && plusSign)
    ensures SplitNumeral(body, negative, plusSign).WellFormed()
    ensures SplitNumeral(body, negative, plusSign).UnsignedText() == body
    ensures ParseUnsigned(body, negative, plusSign) == Some(SplitNumeral(body, negative, plusSign).Value())
  {
    SplitNumeralSound(body, negative, plusSign);
  }

  /** A plain run of digits is read as the number it denotes. */
  lemma ParseDigits(d: string)
    requires d != [] && AllDigits(d)
    ensures ParseDecimal(d) == Some(DigitsValue(d) as real)
  {
    var n := Numeral(false, false, d, false, "");
    assert n.UnsignedText() == d + "" == d;
    assert FractionValue("") == 0.0;
    ParseDecimalComplete(n);
  }

  lemma DigitsConcat(a: string, b: string)
    requires AllDigits(a) && AllDigits(b)
    ensures AllDigits(a + b)
  {
    forall i | 0 <= i < |a + b| ensures IsDigit((a + b)[i]) {
      if i >= |a| {
        assert (a + b)[i] == b[i - |a|];
      }
    }
  }
}
