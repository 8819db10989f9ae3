/** The province-name cleaning of `normalize_province_names`: trim,
    upper-case and collapse whitespace, then replace a whole name found in a
    closed table of spelling variants by its standard spelling. */
module NameCleaning {
  import opened Wrappers
  import Seqs
  import Text
  import Tables
  import ProvinceMapping

  const Yogyakarta: string := "DI YOGYAKARTA"
  const Jakarta: string := "DKI JAKARTA"
  const BangkaBelitung: string := "KEP. BANGKA BELITUNG"
  const KepRiau: string := "KEP. RIAU"

  /** The keys of the `replacements` table in listing order. */
  const Variants: seq<string> := [
    "D.I. YOGYAKARTA", "D I YOGYAKARTA", "YOGYAKARTA", "DAERAH ISTIMEWA YOGYAKARTA",
    "D.K.I. JAKARTA", "D K I JAKARTA", "JAKARTA",
    "KEP BANGKA BELITUNG", "KEPULAUAN BANGKA BELITUNG", "BANGKA BELITUNG",
    "KEP RIAU", "KEPULAUAN RIAU"
  ]

  /** The standard spelling listed with each variant. */
  const Standard: seq<string> := [
    Yogyakarta, Yogyakarta, Yogyakarta, Yogyakarta,
    Jakarta, Jakarta, Jakarta,
    BangkaBelitung, BangkaBelitung, BangkaBelitung,
    KepRiau, KepRiau
  ]

  /** Trimmed, upper case and single-spaced: the form names have before the
      replacement step. */
  predicate Tidy(s: string) {
    Text.IsUpperCase(s) && Text.NoEdgeSpace(s) && Text.SingleSpaced(s)
  }

  /** `s.strip().upper()` followed by `re.sub(r'\s+', ' ', ...)`. */
  function TidyName(name: string): (r: string)
    ensures Tidy(r)
    ensures r == [] <==> Text.Strip(name) == []
  {
    var t := Text.ToUpper(Text.Strip(name));
    Text.UpperNoEdgeSpace(Text.Strip(name));
    Text.CollapseUpperCase(t);
    Text.CollapseNoEdgeSpace(t);
    Text.CollapseSpaces(t)
  }

  /** A tidy name is left as it is by the tidying steps. */
  lemma TidyNameOfTidy(s: string)
    requires Tidy(s)
    ensures TidyName(s) == s
  {
    Text.StripNoEdgeSpace(s);
    Text.UpperOfUpperCase(s);
    Text.CollapseSingleSpaced(s);
  }

  /** `Series.replace(replacements)`: a whole name that is a listed variant
      becomes its standard spelling; every other name is kept. */
  function Replace(s: string): string {
    Tables.Lookup(Variants, Standard, s).GetOr(s)
  }

  /** `normalize_province_names` on one name. */
  function NormalizeName(name: string): string {
    Replace(TidyName(name))
  }

  /** The standard spellings are tidy, are not variants themselves and are
      keys of the province mapping. */
  lemma StandardNames(s: string)
    requires Seqs.Contains(Standard, s)
    ensures s != [] && s != ProvinceMapping.Indonesia
    ensures Tidy(s) && !Seqs.Contains(Variants, s) && ProvinceMapping.IsKey(s)
  {
    Seqs.ContainsIff(Standard, s);
    var i :| 0 <= i < |Standard| && Standard[i] == s;
    StandardOneOfFour(i);
    Seqs.ContainsIff(Variants, s);
    Seqs.ContainsIff(ProvinceMapping.CsvNames, s);
    StandardNotVariants();
    StandardAreKeys();
    if s == Yogyakarta {
      YogyakartaTidy();
    } else if s == Jakarta {
      JakartaTidy();
    } else if s == BangkaBelitung {
      BangkaBelitungTidy();
    } else {
      KepRiauTidy();
    }
  }

  lemma StandardOneOfFour(i: nat)
    requires i < |Standard|
    ensures Standard[i] == Yogyakarta || Standard[i] == Jakarta || Standard[i] == BangkaBelitung || Standard[i] == KepRiau
  {
  }

  lemma YogyakartaTidy() ensures Tidy(Yogyakarta) { }
  lemma JakartaTidy() ensures Tidy(Jakarta) { }
  lemma BangkaBelitungTidy() ensures Tidy(BangkaBelitung) {
    BangkaBelitungUpper();
    BangkaBelitungSpaced();
  }
  lemma BangkaBelitungUpper() ensures Text.IsUpperCase(BangkaBelitung) { }
  lemma BangkaBelitungSpaced() ensures Text.SingleSpaced(BangkaBelitung) { }
  lemma KepRiauTidy() ensures Tidy(KepRiau) { }

  lemma StandardNotVariants()
    ensures forall i :: 0 <= i < |Variants| ==>
      Variants[i] != Yogyakarta && Variants[i] != Jakarta && Variants[i] != BangkaBelitung && Variants[i] != KepRiau
  {
  }

  lemma StandardAreKeys()
    ensures Yogyakarta == ProvinceMapping.CsvNames[13] && Jakarta == ProvinceMapping.CsvNames[10]
    ensures BangkaBelitung == ProvinceMapping.CsvNames[8] && KepRiau == ProvinceMapping.CsvNames[9]
  {
  }

  /** A name is replaced only by a standard spelling. */
  lemma ReplaceCases(s: string)
    ensures Seqs.Contains(Variants, s) ==> s != [] && Seqs.Contains(Standard, Replace(s))
    ensures !Seqs.Contains(Variants, s) ==> Replace(s) == s
  {
    Tables.LookupSome(Variants, Standard, s);
    Seqs.ContainsIff(Variants, s);
    VariantsNonEmpty();
  }

  lemma VariantsNonEmpty()
    ensures forall i :: 0 <= i < |Variants| ==> Variants[i] != []
  {
  }

  /** Normalised names are tidy; a name already normalised is kept. */
  lemma NormalizeTidy(name: string)
    ensures Tidy(NormalizeName(name))
    ensures NormalizeName(name) == [] <==> Text.Strip(name) == []
  {
    var t := TidyName(name);
    ReplaceCases(t);
    if Seqs.Contains(Variants, t) {
      StandardNames(Replace(t));
    }
  }

  /** Normalising twice is normalising once: no standard spelling is itself
      a variant. */
  lemma NormalizeIdempotent(name: string)
    ensures NormalizeName(NormalizeName(name)) == NormalizeName(name)
  {
    var t := TidyName(name);
    var z := Replace(t);
    NormalizeTidy(name);
    TidyNameOfTidy(z);
    ReplaceCases(t);
    if Seqs.Contains(Variants, t) {
      StandardNames(z);
    }
    ReplaceCases(z);
  }

  lemma VariantsDistinct()
    ensures Seqs.NoDuplicates(Variants)
  {
  }

  /** The four Yogyakarta spellings, in any case and spacing that tidies to
      them, normalise to `DI YOGYAKARTA`. */
  lemma YogyakartaVariants(name: string, i: nat)
    requires i < 4 && TidyName(name) == Variants[i]
    ensures NormalizeName(name) == Yogyakarta
  {
    VariantsDistinct();
    Tables.LookupAt(Variants, Standard, i);
  }

  /** Every listed variant normalises to its standard spelling, which is a key
      of the province mapping. */
  lemma VariantNormalized(name: string, i: nat)
    requires i < |Variants| && TidyName(name) == Variants[i]
    ensures NormalizeName(name) == Standard[i] && ProvinceMapping.IsKey(NormalizeName(name))
  {
    VariantsDistinct();
    Tables.LookupAt(Variants, Standard, i);
    Seqs.ContainsIff(Standard, Standard[i]);
    StandardNames(Standard[i]);
  }

  /** A name whose tidy form is not a variant normalises to its tidy form. */
  lemma UnlistedKept(name: string)
    requires !Seqs.Contains(Variants, TidyName(name))
    ensures NormalizeName(name) == TidyName(name)
  {
    ReplaceCases(TidyName(name));
  }

  /** The national aggregate cannot be produced by normalising another
      trimmed upper-case name: tidying keeps whitespace and no variant or
      standard spelling is `INDONESIA`. */
  lemma NormalizeNotAggregate(name: string)
    requires Text.IsUpperCase(name) && Text.NoEdgeSpace(name) && name != ProvinceMapping.Indonesia
    ensures NormalizeName(name) != ProvinceMapping.Indonesia
  {
    var t := TidyName(name);
    Text.StripNoEdgeSpace(name);
    Text.UpperOfUpperCase(name);
    assert t == Text.CollapseSpaces(name);
    ReplaceCases(t);
    if Seqs.Contains(Variants, t) {
      StandardNames(Replace(t));
    } else {
      AggregateHasNoSpace();
      if Text.SpaceFree(name) {
        Text.CollapseSpaceFree(name);
      } else {
        Text.CollapseKeepsSpace(name);
      }
    }
  }

  lemma AggregateHasNoSpace()
    ensures ' ' !in ProvinceMapping.Indonesia
  {
  }
}
