/** Sequence operations shared by the pipeline stages: the row filters and
    column maps of the tables, first-occurrence de-duplication, concatenation
    of per-year tables and sums. */
module Seqs {

  /** The elements of `s` that satisfy `p`, in their original order
      (a boolean-mask selection `df[mask]`). */
  function Filter<T(==,!new)>(s: seq<T>, p: T -> bool): (r: seq<T>)
    ensures |r| <= |s|
  {
    if s == [] then []
    else Filter(s[..|s| - 1], p) + (if p(s[|s| - 1]) then [s[|s| - 1]] else [])
  }

  /** Filtering a table grown by one row (the step of a filtering loop). */
  lemma FilterSnoc<T(!new)>(s: seq<T>, x: T, p: T -> bool)
    ensures Filter(s + [x], p) == Filter(s, p) + (if p(x) then [x] else [])
  {
    assert (s + [x])[..|s|] == s;
  }

  /** Filtering one more element of a prefix (the step of a filtering loop
      over `s`). */
  lemma FilterPrefixStep<T(!new)>(s: seq<T>, i: nat, p: T -> bool)
    requires i < |s|
    ensures Filter(s[..i + 1], p) == Filter(s[..i], p) + (if p(s[i]) then [s[i]] else [])
  {
    assert s[..i + 1][..i] == s[..i];
  }

  /** The kept elements are exactly the elements that satisfy `p`. */
  lemma {:induction false} FilterMembers<T(!new)>(s: seq<T>, p: T -> bool)
    ensures forall x :: x in Filter(s, p) <==> x in s && p(x)
  {
    if s != [] {
      FilterMembers(s[..|s| - 1], p);
      assert s == s[..|s| - 1] + [s[|s| - 1]];
    }
  }

  /** Each kept element is kept as often as it occurs. */
  lemma {:induction false} FilterMultiset<T(!new)>(s: seq<T>, p: T -> bool)
    ensures forall x :: multiset(Filter(s, p))[x] == if p(x) then multiset(s)[x] else 0
  {
    if s != [] {
      FilterMultiset(s[..|s| - 1], p);
      assert s == s[..|s| - 1] + [s[|s| - 1]];
    }
  }

  /** Filtering distributes over concatenation: together with the single-row
      case this pins the order of the kept rows down completely. */
  lemma {:induction false} FilterConcat<T(!new)>(a: seq<T>, b: seq<T>, p: T -> bool)
    ensures Filter(a + b, p) == Filter(a, p) + Filter(b, p)
  {
    if b == [] {
      assert a + b == a;
    } else {
      var b' := b[..|b| - 1];
      assert (a + b)[..|a + b| - 1] == a + b';
      FilterConcat(a, b', p);
    }
  }

  /** Filtering keeps everything exactly when every element passes. */
  lemma {:induction false} FilterAll<T(!new)>(s: seq<T>, p: T -> bool)
    requires forall i :: 0 <= i < |s| ==> p(s[i])
    ensures Filter(s, p) == s
  {
    if s != [] {
      FilterAll(s[..|s| - 1], p);
    }
  }

  /** An element that fails `p`, after a run that passes, is dropped. */
  lemma FilterDrop<T(!new)>(u: seq<T>, x: T, v: seq<T>, p: T -> bool)
    requires forall i :: 0 <= i < |u| ==> p(u[i])
    requires !p(x)
    ensures Filter(u + [x] + v, p) == u + Filter(v, p)
  {
    FilterConcat(u + [x], v, p);
    FilterAll(u, p);
    assert Filter(u + [x], p) == Filter(u, p);
  }

  /** Number of elements that satisfy `p`. */
  function Count<T(==,!new)>(s: seq<T>, p: T -> bool): (n: nat)
    ensures n <= |s|
  {
    |Filter(s, p)|
  }

  /** A weaker condition counts at least as many elements. */
  lemma {:induction false} CountMono<T(!new)>(s: seq<T>, p: T -> bool, q: T -> bool)
    requires forall x :: p(x) ==> q(x)
    ensures Count(s, p) <= Count(s, q)
  {
    if s != [] {
      CountMono(s[..|s| - 1], p, q);
    }
  }

  /** ... and strictly more when some element satisfies only the weaker one. */
  lemma {:induction false} CountStrict<T(!new)>(s: seq<T>, p: T -> bool, q: T -> bool, i: nat)
    requires forall x :: p(x) ==> q(x)
    requires i < |s| && q(s[i]) && !p(s[i])
    ensures Count(s, p) < Count(s, q)
  {
    var init := s[..|s| - 1];
    if i == |s| - 1 {
      CountMono(init, p, q);
    } else {
      CountStrict(init, p, q, i);
    }
  }

  /** A filter and its complement split the rows between them. */
  lemma {:induction false} FilterSplit<T(!new)>(s: seq<T>, p: T -> bool, q: T -> bool)
    requires forall x :: q(x) == !p(x)
    ensures |Filter(s, p)| + |Filter(s, q)| == |s|
  {
    if s != [] {
      FilterSplit(s[..|s| - 1], p, q);
    }
  }

  /** No element is counted exactly when none satisfies `p`. */
  lemma CountZero<T(!new)>(s: seq<T>, p: T -> bool)
    ensures Count(s, p) == 0 <==> forall i :: 0 <= i < |s| ==> !p(s[i])
  {
    FilterMembers(s, p);
    if Count(s, p) != 0 {
      assert Filter(s, p)[0] in Filter(s, p);
    }
  }

  /** Element-wise map of a column (`series.apply(f)`). */
  function Map<T, U>(s: seq<T>, f: T -> U): (r: seq<U>)
    ensures |r| == |s|
    ensures forall i :: 0 <= i < |s| ==> r[i] == f(s[i])
  {
    seq(|s|, i requires 0 <= i < |s| => f(s[i]))
  }

  /** Mapping a table grown by one row (the step of a mapping loop). */
  lemma MapSnoc<T, U>(s: seq<T>, x: T, f: T -> U)
    ensures Map(s + [x], f) == Map(s, f) + [f(x)]
  {
  }

  /** The images of the kept elements are the images of the elements of
      `s` that satisfy `p`. */
  lemma MapFilterMembers<T(!new), U(!new)>(s: seq<T>, p: T -> bool, f: T -> U)
    ensures forall y :: y in Map(Filter(s, p), f) <==> exists i :: 0 <= i < |s| && p(s[i]) && y == f(s[i])
  {
    var kept := Filter(s, p);
    FilterMembers(s, p);
    forall y ensures y in Map(kept, f) <==> exists i :: 0 <= i < |s| && p(s[i]) && y == f(s[i]) {
      if y in Map(kept, f) {
        var k :| 0 <= k < |kept| && Map(kept, f)[k] == y;
        assert kept[k] in s;
        var i :| 0 <= i < |s| && s[i] == kept[k];
      }
      if exists i :: 0 <= i < |s| && p(s[i]) && y == f(s[i]) {
        var i :| 0 <= i < |s| && p(s[i]) && y == f(s[i]);
        assert s[i] in kept;
        var k :| 0 <= k < |kept| && kept[k] == s[i];
        assert Map(kept, f)[k] == y;
      }
    }
  }

  predicate Contains<T(==)>(s: seq<T>, x: T) {
    s != [] && (s[0] == x || Contains(s[1..], x))
  }

  lemma {:induction false} ContainsIff<T>(s: seq<T>, x: T)
    ensures Contains(s, x) <==> x in s
  {
    if s != [] {
      ContainsIff(s[1..], x);
      assert s == [s[0]] + s[1..];
    }
  }

  predicate NoDuplicates<T(==)>(s: seq<T>) {
    forall i, j :: 0 <= i < j < |s| ==> s[i] != s[j]
  }

  /** Two lists without repeats and without common elements concatenate
      to a list without repeats. */
  lemma NoDuplicatesConcat<T>(a: seq<T>, b: seq<T>)
    requires NoDuplicates(a) && NoDuplicates(b)
    requires forall i, j :: 0 <= i < |a| && 0 <= j < |b| ==> a[i] != b[j]
    ensures NoDuplicates(a + b)
  {
    var ab := a + b;
    forall i, j | 0 <= i < j < |ab| ensures ab[i] != ab[j] {
      if j < |a| {
        assert ab[i] == a[i] && ab[j] == a[j];
      } else if i >= |a| {
        assert ab[i] == b[i - |a|] && ab[j] == b[j - |a|];
      } else {
        assert ab[i] == a[i] && ab[j] == b[j - |a|];
      }
    }
  }

  /** Position of the first occurrence of `x` in `s`. */
  function FirstIndex<T(==)>(s: seq<T>, x: T): (k: nat)
    requires x in s
    ensures k < |s| && s[k] == x && x !in s[..k]
  {
    if s[0] == x then 0 else 1 + FirstIndex(s[1..], x)
  }

  /** The distinct elements of `s`, each at its first occurrence
      (`drop_duplicates()` / `unique()` with the default keep='first'). */
  function Distinct<T(==,!new)>(s: seq<T>): (r: seq<T>)
    ensures |r| <= |s|
    ensures NoDuplicates(r)
    ensures forall x :: x in r <==> x in s
  {
    if s == [] then []
    else
      var init := s[..|s| - 1];
      assert s == init + [s[|s| - 1]];
      if s[|s| - 1] in init then Distinct(init) else Distinct(init) + [s[|s| - 1]]
  }

  lemma FirstIndexOfPrefix<T>(s: seq<T>, n: nat, x: T)
    requires n <= |s| && x in s[..n]
    ensures FirstIndex(s, x) == FirstIndex(s[..n], x)
  {
    var k := FirstIndex(s[..n], x);
    var k' := FirstIndex(s, x);
    assert s[..n][..k] == s[..k];
  }

  /** `Distinct` lists the elements in the order of their first occurrences. */
  lemma {:induction false} DistinctOrder<T(!new)>(s: seq<T>)
    ensures forall i, j :: 0 <= i < j < |Distinct(s)| ==>
      FirstIndex(s, Distinct(s)[i]) < FirstIndex(s, Distinct(s)[j])
  {
    if s != [] {
      var init := s[..|s| - 1];
      var last := s[|s| - 1];
      assert s == init + [last];
      DistinctOrder(init);
      var d := Distinct(init);
      forall x | x in d ensures FirstIndex(s, x) == FirstIndex(init, x) && FirstIndex(init, x) < |init| {
        FirstIndexOfPrefix(s, |init|, x);
      }
      if last !in init {
        assert FirstIndex(s, last) == |s| - 1;
      }
    }
  }

  /** A sequence without repeated elements is its own `Distinct`. */
  lemma {:induction false} DistinctOfNoDuplicates<T(!new)>(s: seq<T>)
    requires NoDuplicates(s)
    ensures Distinct(s) == s
  {
    if s != [] {
      var init := s[..|s| - 1];
      assert s == init + [s[|s| - 1]];
      DistinctOfNoDuplicates(init);
      assert s[|s| - 1] !in init;
    }
  }

  lemma NoDuplicatesSnoc<T>(s: seq<T>, x: T)
    ensures NoDuplicates(s + [x]) <==> NoDuplicates(s) && x !in s
  {
    var t := s + [x];
    if NoDuplicates(s) && x !in s {
      forall i, j | 0 <= i < j < |t| ensures t[i] != t[j] {
        if j == |s| {
          assert t[i] in s;
        } else {
          assert t[i] == s[i] && t[j] == s[j];
        }
      }
    }
    if NoDuplicates(t) {
      assert forall i, j :: 0 <= i < j < |s| ==> t[i] == s[i] && t[j] == s[j];
      forall k | 0 <= k < |s| ensures s[k] != x {
        assert t[k] == s[k] && t[|s|] == x;
      }
    }
  }

  /** No element repeats exactly when every element occurs at most once. */
  lemma {:induction false} NoDuplicatesMultiset<T>(s: seq<T>)
    ensures NoDuplicates(s) <==> forall x :: multiset(s)[x] <= 1
  {
    if s != [] {
      var init := s[..|s| - 1];
      var last := s[|s| - 1];
      assert s == init + [last];
      NoDuplicatesMultiset(init);
      NoDuplicatesSnoc(init, last);
      assert multiset(s) == multiset(init) + multiset{last};
      if forall x :: multiset(s)[x] <= 1 {
        assert forall x :: multiset(init)[x] <= multiset(s)[x];
        assert multiset(init)[last] == 0;
      }
    }
  }

  /** A rearrangement of a sequence without repetitions has none either. */
  lemma NoDuplicatesPermutation<T>(a: seq<T>, b: seq<T>)
    requires multiset(a) == multiset(b) && NoDuplicates(b)
    ensures NoDuplicates(a)
  {
    NoDuplicatesMultiset(a);
    NoDuplicatesMultiset(b);
  }

  /** Concatenation of a list of tables (`pd.concat` with ignore_index). */
  function Flatten<T>(ss: seq<seq<T>>): seq<T> {
    if ss == [] then [] else Flatten(ss[..|ss| - 1]) + ss[|ss| - 1]
  }

  function SumLengths<T>(ss: seq<seq<T>>): nat {
    if ss == [] then 0 else SumLengths(ss[..|ss| - 1]) + |ss[|ss| - 1]|
  }

  /** `x` is an element of one of the tables in `ss`. */
  ghost predicate InSome<T>(ss: seq<seq<T>>, x: T) {
    exists i :: 0 <= i < |ss| && x in ss[i]
  }

  /** The combined row count is the sum of the per-table row counts,
      and the combined rows are exactly the rows of the tables. */
  lemma {:induction false} FlattenContents<T>(ss: seq<seq<T>>)
    ensures |Flatten(ss)| == SumLengths(ss)
    ensures forall x :: x in Flatten(ss) <==> InSome(ss, x)
  {
    if ss != [] {
      var init := ss[..|ss| - 1];
      FlattenContents(init);
      forall x | x in Flatten(ss) ensures InSome(ss, x) {
        if x in Flatten(init) {
          assert InSome(init, x);
          var i :| 0 <= i < |init| && x in init[i];
          assert x in ss[i];
        } else {
          assert x in ss[|ss| - 1];
        }
      }
      forall x | InSome(ss, x) ensures x in Flatten(ss) {
        var i :| 0 <= i < |ss| && x in ss[i];
        if i < |ss| - 1 {
          assert x in init[i];
        }
      }
    }
  }

  /** Sum of a column of reals. */
  function Sum(s: seq<real>): real {
    if s == [] then 0.0 else Sum(s[..|s| - 1]) + s[|s| - 1]
  }

  /** The sum of two stacked columns is the sum of their sums. */
  lemma {:induction false} SumConcat(a: seq<real>, b: seq<real>)
    ensures Sum(a + b) == Sum(a) + Sum(b)
  {
    if b == [] {
      assert a + b == a;
    } else {
      var init := b[..|b| - 1];
      assert (a + b)[..|a + b| - 1] == a + init;
      assert (a + b)[|a + b| - 1] == b[|b| - 1];
      SumConcat(a, init);
    }
  }
}
