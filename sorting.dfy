/** Sorting rows by a key (`DataFrame.sort_values`): a stable insertion sort
    over any total preorder, with its two defining properties (the result is
    ordered and is a permutation of the input) and the fact that an ordered
    table is left as it is. */
module Sorting {

  /** `le` is total and transitive, as the comparison of sort keys is. */
  ghost predicate TotalPreorder<T(!new)>(le: (T, T) -> bool) {
    && (forall a, b :: le(a, b) || le(b, a))
    && (forall a, b, c :: le(a, b) && le(b, c) ==> le(a, c))
  }

  predicate Sorted<T>(s: seq<T>, le: (T, T) -> bool) {
    forall i, j :: 0 <= i < j < |s| ==> le(s[i], s[j])
  }

  /** Places `x` after every leading element of `s` that is not strictly greater. */
  function Insert<T>(x: T, s: seq<T>, le: (T, T) -> bool): seq<T> {
    if s == [] then [x]
    else if !le(s[0], x) then [x] + s
    else [s[0]] + Insert(x, s[1..], le)
  }

  /** `s` ordered by `le`; elements that compare equal keep their order. */
  function Sort<T>(s: seq<T>, le: (T, T) -> bool): seq<T> {
    if s == [] then [] else Insert(s[|s| - 1], Sort(s[..|s| - 1], le), le)
  }

  lemma SortedTail<T>(s: seq<T>, le: (T, T) -> bool)
    requires s != [] && Sorted(s, le)
    ensures Sorted(s[1..], le)
    ensures forall y :: y in s[1..] ==> le(s[0], y)
  {
    forall i, j | 0 <= i < j < |s[1..]| ensures le(s[1..][i], s[1..][j]) {
      assert s[1..][i] == s[i + 1] && s[1..][j] == s[j + 1];
    }
  }

  /** Inserting keeps every element and adds `x` once. */
  lemma {:induction false} InsertPermutation<T>(x: T, s: seq<T>, le: (T, T) -> bool)
    ensures multiset(Insert(x, s, le)) == multiset(s) + multiset{x}
  {
    if s != [] && le(s[0], x) {
      InsertPermutation(x, s[1..], le);
      assert s == [s[0]] + s[1..];
    }
  }

  /** Inserting into an ordered sequence keeps it ordered. */
  lemma {:induction false} InsertSorted<T(!new)>(x: T, s: seq<T>, le: (T, T) -> bool)
    requires TotalPreorder(le) && Sorted(s, le)
    ensures Sorted(Insert(x, s, le), le)
  {
    if s == [] {
    } else if !le(s[0], x) {
      forall y | y in s ensures le(x, y) {
        assert le(x, s[0]) && (y == s[0] || le(s[0], y));
      }
      PrependSorted(x, s, le);
    } else {
      SortedTail(s, le);
      InsertSorted(x, s[1..], le);
      var t := Insert(x, s[1..], le);
      InsertPermutation(x, s[1..], le);
      forall y | y in t ensures le(s[0], y) {
        assert y in multiset(t);
      }
      PrependSorted(s[0], t, le);
    }
  }

  /** An element below every element of an ordered sequence can go first. */
  lemma PrependSorted<T>(x: T, s: seq<T>, le: (T, T) -> bool)
    requires Sorted(s, le) && forall y :: y in s ==> le(x, y)
    ensures Sorted([x] + s, le)
  {
    var r := [x] + s;
    forall i, j | 0 <= i < j < |r| ensures le(r[i], r[j]) {
      if i == 0 {
        assert r[j] in s;
      } else {
        assert r[i] == s[i - 1] && r[j] == s[j - 1];
      }
    }
  }

  /** The sorted sequence is ordered. */
  lemma {:induction false} SortSorted<T(!new)>(s: seq<T>, le: (T, T) -> bool)
    requires TotalPreorder(le)
    ensures Sorted(Sort(s, le), le)
  {
    if s != [] {
      SortSorted(s[..|s| - 1], le);
      InsertSorted(s[|s| - 1], Sort(s[..|s| - 1], le), le);
    }
  }

  /** The sorted sequence is a permutation of the input. */
  lemma {:induction false} SortPermutation<T>(s: seq<T>, le: (T, T) -> bool)
    ensures multiset(Sort(s, le)) == multiset(s)
    ensures |Sort(s, le)| == |s|
  {
    if s != [] {
      SortPermutation(s[..|s| - 1], le);
      InsertPermutation(s[|s| - 1], Sort(s[..|s| - 1], le), le);
      assert s == s[..|s| - 1] + [s[|s| - 1]];
    }
    assert |multiset(Sort(s, le))| == |Sort(s, le)|;
  }

  /** Inserting an element that no element exceeds appends it. */
  lemma {:induction false} InsertLast<T>(x: T, s: seq<T>, le: (T, T) -> bool)
    requires forall i :: 0 <= i < |s| ==> le(s[i], x)
    ensures Insert(x, s, le) == s + [x]
  {
    if s != [] {
      assert le(s[0], x);
      InsertLast(x, s[1..], le);
      assert s == [s[0]] + s[1..];
    }
  }

  /** Sorting a table that is already in order changes nothing. */
  lemma {:induction false} SortOfSorted<T>(s: seq<T>, le: (T, T) -> bool)
    requires Sorted(s, le)
    ensures Sort(s, le) == s
  {
    if s != [] {
      var init := s[..|s| - 1];
      assert Sorted(init, le);
      SortOfSorted(init, le);
      InsertLast(s[|s| - 1], init, le);
      assert s == init + [s[|s| - 1]];
    }
  }

  /** Elements of multiset-equal sequences are the same elements. */
  lemma SameElements<T>(a: seq<T>, b: seq<T>)
    requires multiset(a) == multiset(b)
    ensures forall x :: x in a <==> x in b
  {
    forall x ensures x in a <==> x in b {
      assert x in a <==> x in multiset(a);
      assert x in b <==> x in multiset(b);
    }
  }
}
