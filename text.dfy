/** The string operations the pipeline applies to province names and to
    value text: Python's `str.strip()`, `str.upper()` (on ASCII letters), the
    whitespace collapse `re.sub(r'\s+', ' ', s)`, character removal and
    replacement, `str.rindex` and code-point string ordering. */
module Text {
  import Seqs

  /** The characters for which Python's `str.isspace()` holds; the regex
      class `\s` on text patterns matches the same characters. */
  predicate IsSpace(c: char) {
    c == ' ' || ('\t' <= c <= '\r') || ('\U{1c}' <= c <= '\U{1f}')
    || c == '\U{85}' || c == '\U{a0}' || c == '\U{1680}'
    || ('\U{2000}' <= c <= '\U{200a}') || c == '\U{2028}' || c == '\U{2029}'
    || c == '\U{202f}' || c == '\U{205f}' || c == '\U{3000}'
  }

  predicate IsLowerAscii(c: char) { 'a' <= c <= 'z' }

  predicate IsUpperAscii(c: char) { 'A' <= c <= 'Z' }

  /** `c.upper()` for ASCII letters; every other character is kept. */
  function UpperChar(c: char): (u: char)
    ensures !IsLowerAscii(u)
    ensures IsSpace(u) <==> IsSpace(c)
    ensures IsLowerAscii(c) ==> IsUpperAscii(u)
    ensures !IsLowerAscii(c) ==> u == c
  {
    if IsLowerAscii(c) then (c as int - 32) as char else c
  }

  /** `s.upper()`, restricted to ASCII case mapping. */
  function ToUpper(s: string): (r: string)
    ensures |r| == |s|
    ensures forall i :: 0 <= i < |s| ==> r[i] == UpperChar(s[i])
  {
    seq(|s|, i requires 0 <= i < |s| => UpperChar(s[i]))
  }

  /** No lower-case ASCII letter occurs. */
  predicate IsUpperCase(s: string) {
    forall i :: 0 <= i < |s| ==> !IsLowerAscii(s[i])
  }

  /** Neither the first nor the last character is whitespace. */
  predicate NoEdgeSpace(s: string) {
    s == [] || (!IsSpace(s[0]) && !IsSpace(s[|s| - 1]))
  }

  /** Every whitespace character is a single blank between two non-blanks. */
  predicate SingleSpaced(s: string) {
    forall i :: 0 <= i < |s| && IsSpace(s[i]) ==>
      s[i] == ' ' && (i + 1 < |s| ==> !IsSpace(s[i + 1]))
  }

  /** Number of whitespace characters at the front of `s`. */
  function LeadingSpaces(s: string): (k: nat)
    ensures k <= |s|
    ensures forall i :: 0 <= i < k ==> IsSpace(s[i])
    ensures k == |s| || !IsSpace(s[k])
  {
    if s != [] && IsSpace(s[0]) then 1 + LeadingSpaces(s[1..]) else 0
  }

  /** Number of whitespace characters at the end of `s`. */
  function TrailingSpaces(s: string): (k: nat)
    ensures k <= |s|
    ensures forall i :: |s| - k <= i < |s| ==> IsSpace(s[i])
    ensures k == |s| || !IsSpace(s[|s| - k - 1])
  {
    if s != [] && IsSpace(s[|s| - 1]) then 1 + TrailingSpaces(s[..|s| - 1]) else 0
  }

  /** `s.strip()`: the part of `s` between its leading and trailing whitespace. */
  function Strip(s: string): (r: string)
    ensures NoEdgeSpace(r)
    ensures |r| <= |s| - LeadingSpaces(s)
    ensures r == s[LeadingSpaces(s)..][..|r|]
  {
    var t := s[LeadingSpaces(s)..];
    t[..|t| - TrailingSpaces(t)]
  }

  /** Stripping a string without edge whitespace changes nothing. */
  lemma StripNoEdgeSpace(s: string)
    requires NoEdgeSpace(s)
    ensures Strip(s) == s
  {
    assert LeadingSpaces(s) == 0;
    assert TrailingSpaces(s) == 0;
  }

  /** A leading whitespace character is stripped away. */
  lemma StripLeadingSpace(c: char, s: string)
    requires IsSpace(c)
    ensures Strip([c] + s) == Strip(s)
  {
    assert ([c] + s)[1..] == s;
    assert LeadingSpaces([c] + s) == 1 + LeadingSpaces(s);
    assert ([c] + s)[LeadingSpaces([c] + s)..] == s[LeadingSpaces(s)..];
  }

  /** Upper-casing keeps whitespace at the same places. */
  lemma UpperNoEdgeSpace(s: string)
    requires NoEdgeSpace(s)
    ensures NoEdgeSpace(ToUpper(s))
  {
  }

  /** Upper-casing an upper-case string changes nothing. */
  lemma UpperOfUpperCase(s: string)
    requires IsUpperCase(s)
    ensures ToUpper(s) == s
  {
  }

  /** The suffix of `s` after its leading whitespace. */
  function DropSpaces(s: string): (r: string)
    ensures |r| <= |s|
    ensures r == s[|s| - |r|..]
    ensures r == [] || !IsSpace(r[0])
    ensures forall i :: 0 <= i < |s| - |r| ==> IsSpace(s[i])
  {
    if s != [] && IsSpace(s[0]) then
      var r := DropSpaces(s[1..]);
      DropSpacesStep(s, r);
      r
    else s
  }

  lemma DropSpacesStep(s: string, r: string)
    requires s != [] && IsSpace(s[0]) && |r| <= |s| - 1 && r == s[1..][|s| - 1 - |r|..]
    requires forall i :: 0 <= i < |s| - 1 - |r| ==> IsSpace(s[1..][i])
    ensures r == s[|s| - |r|..]
    ensures forall i :: 0 <= i < |s| - |r| ==> IsSpace(s[i])
  {
    forall i | 0 < i < |s| - |r| ensures IsSpace(s[i]) {
      assert s[i] == s[1..][i - 1];
    }
  }

  /** `re.sub(r'\s+', ' ', s)`: every maximal run of whitespace becomes one blank. */
  function CollapseSpaces(s: string): (r: string)
    ensures SingleSpaced(r)
    ensures r != [] && IsSpace(r[0]) ==> s != [] && IsSpace(s[0])
    ensures s != [] && !IsSpace(s[0]) ==> r != [] && r[0] == s[0]
    decreases |s|
  {
    if s == [] then []
    else if IsSpace(s[0]) then
      var d := DropSpaces(s[1..]);
      var rest := CollapseSpaces(d);
      SingleSpacedCons(' ', rest);
      [' '] + rest
    else
      var rest := CollapseSpaces(s[1..]);
      SingleSpacedCons(s[0], rest);
      [s[0]] + rest
  }

  /** A character in front of a single-spaced string keeps it single-spaced
      unless it is whitespace before whitespace. */
  lemma SingleSpacedCons(c: char, rest: string)
    requires SingleSpaced(rest)
    requires IsSpace(c) ==> c == ' ' && (rest == [] || !IsSpace(rest[0]))
    ensures SingleSpaced([c] + rest)
  {
    var t := [c] + rest;
    forall i | 0 <= i < |t| && IsSpace(t[i]) ensures t[i] == ' ' && (i + 1 < |t| ==> !IsSpace(t[i + 1])) {
      if i > 0 {
        assert t[i] == rest[i - 1];
        if i + 1 < |t| {
          assert t[i + 1] == rest[i];
        }
      }
    }
  }

  /** Collapsing keeps a non-blank last character in place. */
  lemma {:induction false} CollapseLast(s: string)
    requires s != [] && !IsSpace(s[|s| - 1])
    ensures CollapseSpaces(s) != []
    ensures CollapseSpaces(s)[|CollapseSpaces(s)| - 1] == s[|s| - 1]
    decreases |s|
  {
    if IsSpace(s[0]) {
      var d := DropSpaces(s[1..]);
      assert d != [] && d[|d| - 1] == s[|s| - 1];
      CollapseLast(d);
    } else if |s| > 1 {
      CollapseLast(s[1..]);
    }
  }

  /** Collapsing introduces no lower-case letter. */
  lemma {:induction false} CollapseUpperCase(s: string)
    requires IsUpperCase(s)
    ensures IsUpperCase(CollapseSpaces(s))
    decreases |s|
  {
    if s != [] {
      if IsSpace(s[0]) {
        var d := DropSpaces(s[1..]);
        assert IsUpperCase(d);
        CollapseUpperCase(d);
      } else {
        CollapseUpperCase(s[1..]);
      }
    }
  }

  /** A single-spaced string is its own collapse. */
  lemma {:induction false} CollapseSingleSpaced(s: string)
    requires SingleSpaced(s)
    ensures CollapseSpaces(s) == s
    decreases |s|
  {
    if s != [] {
      assert SingleSpaced(s[1..]);
      if IsSpace(s[0]) {
        assert DropSpaces(s[1..]) == s[1..];
      }
      CollapseSingleSpaced(s[1..]);
    }
  }

  /** Collapsing keeps a string free of edge whitespace, and empty only when
      it was empty. */
  lemma CollapseNoEdgeSpace(s: string)
    requires NoEdgeSpace(s)
    ensures NoEdgeSpace(CollapseSpaces(s))
    ensures CollapseSpaces(s) == [] <==> s == []
  {
    if s != [] {
      CollapseLast(s);
    }
  }

  /** No whitespace at all. */
  predicate SpaceFree(s: string) {
    forall i :: 0 <= i < |s| ==> !IsSpace(s[i])
  }

  /** Collapsing leaves a string without whitespace unchanged. */
  lemma CollapseSpaceFree(s: string)
    requires SpaceFree(s)
    ensures CollapseSpaces(s) == s
  {
    CollapseSingleSpaced(s);
  }

  /** Collapsing keeps at least one blank of a string that has whitespace. */
  lemma {:induction false} CollapseKeepsSpace(s: string)
    requires !SpaceFree(s)
    ensures ' ' in CollapseSpaces(s)
    decreases |s|
  {
    var i :| 0 <= i < |s| && IsSpace(s[i]);
    if !IsSpace(s[0]) {
      assert IsSpace(s[1..][i - 1]);
      CollapseKeepsSpace(s[1..]);
      assert CollapseSpaces(s) == [s[0]] + CollapseSpaces(s[1..]);
    }
  }

  /** `s.replace(c, '')`. */
  function RemoveChar(s: string, c: char): (r: string)
    ensures c !in r
    ensures forall x :: x != c ==> (x in r <==> x in s)
  {
    Seqs.FilterMembers(s, x => x != c);
    Seqs.Filter(s, x => x != c)
  }

  /** `s.replace(c, d)` for single characters. */
  function ReplaceChar(s: string, c: char, d: char): (r: string)
    ensures |r| == |s|
    ensures forall i :: 0 <= i < |s| ==> r[i] == if s[i] == c then d else s[i]
  {
    Seqs.Map(s, x => if x == c then d else x)
  }

  /** `s.rindex(c)`, or -1 when `c` does not occur. */
  function LastIndex(s: string, c: char): (k: int)
    ensures -1 <= k < |s|
    ensures k >= 0 ==> s[k] == c
    ensures forall i :: k < i < |s| ==> s[i] != c
  {
    if s == [] then -1
    else if s[|s| - 1] == c then |s| - 1
    else LastIndex(s[..|s| - 1], c)
  }

  /** The last `c` is at or after any given `c`. */
  lemma {:induction false} LastIndexAtLeast(s: string, c: char, j: nat)
    requires j < |s| && s[j] == c
    ensures LastIndex(s, c) >= j
  {
    if s[|s| - 1] != c {
      LastIndexAtLeast(s[..|s| - 1], c, j);
    }
  }

  /** When no `c` occurs from position `m` on, the last `c` is before `m`. */
  lemma {:induction false} LastIndexBelow(s: string, c: char, m: nat)
    requires forall i :: m <= i < |s| ==> s[i] != c
    ensures LastIndex(s, c) < m
  {
    if s != [] && |s| > m {
      LastIndexBelow(s[..|s| - 1], c, m);
    }
  }

  /** Python's `a <= b` on strings: lexicographic by code point. */
  predicate StrLe(a: string, b: string) {
    if a == [] then true
    else if b == [] then false
    else if a[0] != b[0] then a[0] < b[0]
    else StrLe(a[1..], b[1..])
  }

  lemma {:induction false} StrLeTotal(a: string, b: string)
    ensures StrLe(a, b) || StrLe(b, a)
  {
    if a != [] && b != [] && a[0] == b[0] {
      StrLeTotal(a[1..], b[1..]);
    }
  }

  lemma {:induction false} StrLeTransitive(a: string, b: string, c: string)
    requires StrLe(a, b) && StrLe(b, c)
    ensures StrLe(a, c)
  {
    if a != [] && b != [] && c != [] && a[0] == b[0] && b[0] == c[0] {
      StrLeTransitive(a[1..], b[1..], c[1..]);
    }
  }

  lemma {:induction false} StrLeAntisymmetric(a: string, b: string)
    requires StrLe(a, b) && StrLe(b, a)
    ensures a == b
  {
    if a != [] && b != [] {
      StrLeAntisymmetric(a[1..], b[1..]);
    }
  }
}
