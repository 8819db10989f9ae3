/** Fixed lookup tables (`dict` displays and comprehensions), given by their
    keys and values in listing order. */
module Tables {
  import opened Wrappers
  import Seqs

  /** `d.get(k)` for the dict whose i-th listed item is `ks[i]: vs[i]`;
      when a key is listed twice the later item wins, as in a dict display. */
  function Lookup<K(==), V>(ks: seq<K>, vs: seq<V>, k: K): Option<V>
    requires |ks| == |vs|
  {
    if ks == [] then None
    else if ks[|ks| - 1] == k then Some(vs[|vs| - 1])
    else Lookup(ks[..|ks| - 1], vs[..|vs| - 1], k)
  }

  /** A key has an entry exactly when it is listed. */
  lemma {:induction false} LookupSome<K, V>(ks: seq<K>, vs: seq<V>, k: K)
    requires |ks| == |vs|
    ensures Lookup(ks, vs, k).Some? <==> Seqs.Contains(ks, k)
    ensures Lookup(ks, vs, k).Some? ==> Seqs.Contains(vs, Lookup(ks, vs, k).value)
  {
    Seqs.ContainsIff(ks, k);
    if ks != [] {
      var n := |ks| - 1;
      LookupSome(ks[..n], vs[..n], k);
      Seqs.ContainsIff(ks[..n], k);
      assert ks == ks[..n] + [ks[n]];
      var r := Lookup(ks, vs, k);
      if r.Some? {
        Seqs.ContainsIff(vs, r.value);
        Seqs.ContainsIff(vs[..n], r.value);
        assert vs == vs[..n] + [vs[n]];
      }
    }
  }

  /** With distinct keys, the i-th listed key looks up the i-th listed value. */
  lemma {:induction false} LookupAt<K, V>(ks: seq<K>, vs: seq<V>, i: nat)
    requires |ks| == |vs| && Seqs.NoDuplicates(ks) && i < |ks|
    ensures Lookup(ks, vs, ks[i]) == Some(vs[i])
  {
    var n := |ks| - 1;
    if i < n {
      assert Seqs.NoDuplicates(ks[..n]);
      assert ks[..n][i] == ks[i] && vs[..n][i] == vs[i];
      LookupAt(ks[..n], vs[..n], i);
    }
  }

  /** With distinct keys, a key's entry comes from the position where it
      is listed. */
  lemma LookupIndex<K, V>(ks: seq<K>, vs: seq<V>, k: K)
    requires |ks| == |vs| && Seqs.NoDuplicates(ks) && Lookup(ks, vs, k).Some?
    ensures exists i :: 0 <= i < |ks| && ks[i] == k && vs[i] == Lookup(ks, vs, k).value
  {
    LookupSome(ks, vs, k);
    Seqs.ContainsIff(ks, k);
    var i :| 0 <= i < |ks| && ks[i] == k;
    LookupAt(ks, vs, i);
  }

  /** The dict inverted item by item (`{v: k for k, v in d.items()}`) maps
      every value back to its key when both keys and values are distinct. */
  lemma Inverse<K, V>(ks: seq<K>, vs: seq<V>, k: K)
    requires |ks| == |vs| && Seqs.NoDuplicates(ks) && Seqs.NoDuplicates(vs)
    requires Seqs.Contains(ks, k)
    ensures Lookup(ks, vs, k).Some?
    ensures Lookup(vs, ks, Lookup(ks, vs, k).value) == Some(k)
  {
    Seqs.ContainsIff(ks, k);
    var i :| 0 <= i < |ks| && ks[i] == k;
    LookupAt(ks, vs, i);
    LookupAt(vs, ks, i);
  }
}
