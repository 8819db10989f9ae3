/** The boundary-file name standardiser: every feature of the GeoJSON
    collection gets a `Province_std` property, the upper-case letters of its
    `Propinsi` name, and the ids of the features without a name are
    collected. */
module GeoJsonNormalization {
  import opened Wrappers
  import Seqs
  import Text

  /** A JSON value as far as the script looks at it: `null`, a string, or
      any other value (a number, a boolean, a list or an object). */
  datatype Json = JNull | JString(s: string) | JOther(code: int)

  /** The `properties` member of a feature: absent, an object, or some
      other JSON value, on which `dict.get` is not defined. */
  datatype Properties = Absent | Object(fields: map<string, Json>) | NotObject(value: Json)

  /** A feature; an absent `id` reads as `null`, as `feature.get("id")`
      returns `None` for both. */
  datatype Feature = Feature(id: Json, properties: Properties)

  const PropinsiKey: string := "Propinsi"
  const StdKey: string := "Province_std"

  // The standardiser.

  /** `standardize_province_name`: `None` for a non-string, otherwise the
      characters A to Z of the upper-cased name, in order. */
  function StandardizeProvinceName(name: Json): (r: Option<string>)
    ensures r.None? <==> !name.JString?
    ensures r.Some? ==> |r.value| <= |name.s|
    ensures r.Some? ==> forall c :: c in r.value ==> Text.IsUpperAscii(c)
  {
    if name.JString? then
      var t := Text.ToUpper(name.s);
      Seqs.FilterMembers(t, Text.IsUpperAscii);
      Some(Seqs.Filter(t, Text.IsUpperAscii))
    else
      None
  }

  /** Each letter A to Z occurs in the result as often as it occurs in the
      upper-cased name, and no other character occurs. */
  lemma StandardizeLetters(s: string)
    ensures forall c :: (multiset(StandardizeProvinceName(JString(s)).value)[c] ==
      if Text.IsUpperAscii(c) then multiset(Text.ToUpper(s))[c] else 0)
  {
    Seqs.FilterMultiset(Text.ToUpper(s), Text.IsUpperAscii);
  }

  /** A lower-case letter of the name reaches the result as its capital; a
      character that is not an ASCII letter is dropped. */
  lemma StandardizeKeepsLetters(s: string, i: nat)
    requires i < |s|
    ensures Text.IsLowerAscii(s[i]) || Text.IsUpperAscii(s[i]) <==>
      Text.UpperChar(s[i]) in StandardizeProvinceName(JString(s)).value
  {
    var t := Text.ToUpper(s);
    Seqs.FilterMembers(t, Text.IsUpperAscii);
    assert t[i] in t;
  }

  /** Standardising a standardised name gives it back. */
  lemma StandardizeIdempotent(s: string)
    ensures StandardizeProvinceName(JString(StandardizeProvinceName(JString(s)).value)) ==
      StandardizeProvinceName(JString(s))
  {
    var r := StandardizeProvinceName(JString(s)).value;
    assert forall i :: 0 <= i < |r| ==> r[i] in r;
    Text.UpperOfUpperCase(r);
    Seqs.FilterAll(r, Text.IsUpperAscii);
  }

  /** The first example of the documentation comment. */
  lemma StandardizeNusaTenggaraBarat(a: string, b: string)
    requires a == "NUSA TENGGARA BARAT" && b == "NUSATENGGARABARAT"
    ensures StandardizeProvinceName(JString(a)) == Some(b)
  {
    var nusa, tenggara, barat := "NUSA", "TENGGARA", "BARAT";
    assert a == nusa + [' '] + (tenggara + [' '] + barat);
    assert b == nusa + (tenggara + barat);
    Capitals(nusa);
    Capitals(tenggara);
    Capitals(barat);
    Text.UpperOfUpperCase(a);
    Seqs.FilterDrop(tenggara, ' ', barat, Text.IsUpperAscii);
    Seqs.FilterDrop(nusa, ' ', tenggara + [' '] + barat, Text.IsUpperAscii);
    Seqs.FilterAll(barat, Text.IsUpperAscii);
    assert Text.ToUpper(a) == a;
    assert Seqs.Filter(a, Text.IsUpperAscii) == b;
  }

  /** The second example of the documentation comment. */
  lemma StandardizeDiAceh(a: string, b: string)
    requires a == "DI. ACEH" && b == "DIACEH"
    ensures StandardizeProvinceName(JString(a)) == Some(b)
  {
    var di, aceh := "DI", "ACEH";
    var tail := [' '] + aceh;
    assert [] + [' '] + aceh == tail;
    assert a == di + ['.'] + tail;
    assert b == di + aceh;
    Capitals(di);
    Capitals(aceh);
    Text.UpperOfUpperCase(a);
    Seqs.FilterDrop([], ' ', aceh, Text.IsUpperAscii);
    Seqs.FilterDrop(di, '.', tail, Text.IsUpperAscii);
    Seqs.FilterAll(aceh, Text.IsUpperAscii);
    assert Text.ToUpper(a) == a;
    assert Seqs.Filter(tail, Text.IsUpperAscii) == aceh;
    assert Seqs.Filter(a, Text.IsUpperAscii) == b;
  }

  /** The words of the examples are runs of capitals. */
  lemma Capitals(w: string)
    requires w == "NUSA" || w == "TENGGARA" || w == "BARAT" || w == "DI" || w == "ACEH"
    ensures forall i :: 0 <= i < |w| ==> Text.IsUpperAscii(w[i])
  {
  }

  // The per-feature loop of `normalize_geojson`.

  /** `feature.get("properties", {})` when it is an object. */
  function FieldsOf(p: Properties): map<string, Json> {
    if p.Object? then p.fields else map[]
  }

  /** `props.get("Propinsi")`, with a missing key read as `null`. */
  function RawName(fields: map<string, Json>): Json {
    if PropinsiKey in fields then fields[PropinsiKey] else JNull
  }

  /** The `Province_std` value written for a raw name. */
  function StdValue(raw: Json): Json {
    if raw == JNull then JNull
    else match StandardizeProvinceName(raw)
      case Some(t) => JString(t)
      case None => JNull
  }

  /** One step of the loop: the feature with `Province_std` set. A feature
      whose properties are not an object is the one the loop stops at. */
  function Normalized(f: Feature): Feature {
    if f.properties.NotObject? then f
    else
      var fields := FieldsOf(f.properties);
      Feature(f.id, Object(fields[StdKey := StdValue(RawName(fields))]))
  }

  /** The feature has no `Propinsi` name, so its id is collected. */
  predicate HasNoName(f: Feature) {
    !f.properties.NotObject? && RawName(FieldsOf(f.properties)) == JNull
  }

  function IdOf(f: Feature): Json { f.id }

  /** The ids collected in `missing`, in feature order. */
  function MissingIds(fs: seq<Feature>): seq<Json> {
    Seqs.Map(Seqs.Filter(fs, HasNoName), IdOf)
  }

  /** The index of the first feature whose properties are not an object,
      or the number of features when there is none. */
  function FirstNonObject(fs: seq<Feature>): (k: nat)
    ensures k <= |fs|
    ensures forall i :: 0 <= i < k ==> !fs[i].properties.NotObject?
    ensures k < |fs| ==> fs[k].properties.NotObject?
  {
    if fs == [] then 0
    else if fs[0].properties.NotObject? then 0
    else 1 + FirstNonObject(fs[1..])
  }

  /** What one step does to a feature with object properties: it now has a
      `Province_std`, which is `null` exactly when `Propinsi` is missing,
      null or not a string and is the standardised name otherwise; the id
      and every other property are kept. */
  lemma NormalizedSpec(f: Feature)
    requires !f.properties.NotObject?
    ensures Normalized(f).id == f.id && Normalized(f).properties.Object?
    ensures StdKey in Normalized(f).properties.fields
    ensures var std := Normalized(f).properties.fields[StdKey];
      var raw := RawName(FieldsOf(f.properties));
      (std == JNull <==> !raw.JString?)
      && (raw.JString? ==> std == JString(StandardizeProvinceName(raw).value))
    ensures forall key :: key != StdKey ==>
      (key in Normalized(f).properties.fields <==> key in FieldsOf(f.properties))
      && (key in FieldsOf(f.properties) ==> Normalized(f).properties.fields[key] == FieldsOf(f.properties)[key])
  {
  }

  /** The collected ids are the ids of the features without a name, one per
      such feature. */
  lemma MissingIdsSpec(fs: seq<Feature>)
    ensures |MissingIds(fs)| == Seqs.Count(fs, HasNoName)
    ensures forall id :: id in MissingIds(fs) <==> exists i :: 0 <= i < |fs| && HasNoName(fs[i]) && id == fs[i].id
  {
    Seqs.MapFilterMembers(fs, HasNoName, IdOf);
  }

  /** A collection whose features all have a name collects nothing. */
  lemma NoMissingIds(fs: seq<Feature>)
    requires forall i :: 0 <= i < |fs| ==> !HasNoName(fs[i])
    ensures MissingIds(fs) == []
  {
    Seqs.CountZero(fs, HasNoName);
  }

  /** The loop over `features`, updating each feature in place. It stops
      with `ok == false` at the first feature whose properties are not an
      object, as `props.get` raises there; the features before it are
      already updated and the rest are untouched. */
  method NormalizeFeatures(features: array<Feature>) returns (missing: seq<Json>, ok: bool)
    modifies features
    ensures var k := FirstNonObject(old(features[..]));
      ok == (k == features.Length)
      && features[..k] == Seqs.Map(old(features[..])[..k], Normalized)
      && features[k..] == old(features[..])[k..]
      && missing == MissingIds(old(features[..])[..k])
  {
    ghost var orig := features[..];
    ghost var k := FirstNonObject(orig);
    missing := [];
    var i := 0;
    while i < features.Length
      invariant 0 <= i <= k
      invariant features[..i] == Seqs.Map(orig[..i], Normalized)
      invariant features[i..] == orig[i..]
      invariant missing == MissingIds(orig[..i])
    {
      var f := features[i];
      assert f == orig[i];
      if f.properties.NotObject? {
        assert i == k;
        ok := false;
        return;
      }
      var fields := FieldsOf(f.properties);
      var raw := RawName(fields);
      if raw == JNull {
        missing := missing + [f.id];
      }
      features[i] := Feature(f.id, Object(fields[StdKey := StdValue(raw)]));
      assert orig[..i + 1] == orig[..i] + [f];
      Seqs.FilterSnoc(orig[..i], f, HasNoName);
      Seqs.MapSnoc(Seqs.Filter(orig[..i], HasNoName), f, IdOf);
      i := i + 1;
    }
    ok := true;
  }
}
