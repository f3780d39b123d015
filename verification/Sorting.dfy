/** Stable sorting by a strict weak order, and what makes its result unique. */
module Sorting {

  /** Asymmetric, and incomparability is transitive: a comparison of keys. */
  ghost predicate StrictWeak<T(!new)>(less: (T, T) -> bool) {
    && (forall x, y :: less(x, y) ==> !less(y, x))
    && (forall x, y, z :: !less(x, y) && !less(y, z) ==> !less(x, z))
  }

  ghost predicate Sorted<T>(s: seq<T>, less: (T, T) -> bool) {
    forall i, j :: 0 <= i < j < |s| ==> !less(s[j], s[i])
  }

  /** `x` placed after everything not greater than it. */
  function Insert<T>(s: seq<T>, x: T, less: (T, T) -> bool): seq<T>
    decreases |s|
  {
    if |s| == 0 then [x]
    else if less(x, s[|s| - 1]) then Insert(s[..|s| - 1], x, less) + [s[|s| - 1]]
    else s + [x]
  }

  function SortBy<T>(s: seq<T>, less: (T, T) -> bool): seq<T>
    decreases |s|
  {
    if |s| == 0 then [] else Insert(SortBy(s[..|s| - 1], less), s[|s| - 1], less)
  }

  lemma {:induction false} InsertPermutes<T>(s: seq<T>, x: T, less: (T, T) -> bool)
    ensures multiset(Insert(s, x, less)) == multiset(s) + multiset{x}
    decreases |s|
  {
    if |s| > 0 {
      var n := |s| - 1;
      assert s == s[..n] + [s[n]];
      if less(x, s[n]) { InsertPermutes(s[..n], x, less); }
    }
  }

  lemma {:induction false} SortPermutes<T>(s: seq<T>, less: (T, T) -> bool)
    ensures multiset(SortBy(s, less)) == multiset(s)
    ensures |SortBy(s, less)| == |s|
    ensures forall x :: x in SortBy(s, less) <==> x in s
    decreases |s|
  {
    if |s| > 0 {
      var n := |s| - 1;
      SortPermutes(s[..n], less);
      InsertPermutes(SortBy(s[..n], less), s[n], less);
      assert s == s[..n] + [s[n]];
    }
    var r := SortBy(s, less);
    assert |r| == |multiset(r)| == |s|;
    forall x ensures x in r <==> x in s {
      assert x in r <==> x in multiset(r);
      assert x in s <==> x in multiset(s);
    }
  }

  lemma AppendSorts<T>(s: seq<T>, last: T, less: (T, T) -> bool)
    requires Sorted(s, less) && forall y :: y in s ==> !less(last, y)
    ensures Sorted(s + [last], less)
  {}

  /** Inserting below the last element leaves it greatest. */
  lemma InsertBelow<T(!new)>(s: seq<T>, x: T, less: (T, T) -> bool, y: T)
    requires StrictWeak(less) && Sorted(s, less) && |s| > 0 && less(x, s[|s| - 1])
    requires y in Insert(s[..|s| - 1], x, less)
    ensures !less(s[|s| - 1], y)
  {
    var n := |s| - 1;
    InsertPermutes(s[..n], x, less);
    assert y in multiset(Insert(s[..n], x, less));
    if y != x {
      assert y in s[..n];
      var k :| 0 <= k < n && s[k] == y;
    }
  }

  lemma {:induction false} InsertSorts<T(!new)>(s: seq<T>, x: T, less: (T, T) -> bool)
    requires StrictWeak(less) && Sorted(s, less)
    ensures Sorted(Insert(s, x, less), less)
    decreases |s|
  {
    if |s| > 0 {
      var n := |s| - 1;
      if less(x, s[n]) {
        InsertSorts(s[..n], x, less);
        forall y | y in Insert(s[..n], x, less) ensures !less(s[n], y) { InsertBelow(s, x, less, y); }
        AppendSorts(Insert(s[..n], x, less), s[n], less);
      } else {
        forall y | y in s ensures !less(x, y) {
          var i :| 0 <= i < |s| && s[i] == y;
          assert i < n ==> !less(s[n], s[i]);
        }
        AppendSorts(s, x, less);
      }
    }
  }

  lemma {:induction false} SortSorts<T(!new)>(s: seq<T>, less: (T, T) -> bool)
    requires StrictWeak(less)
    ensures Sorted(SortBy(s, less), less)
    decreases |s|
  {
    if |s| > 0 {
      SortSorts(s[..|s| - 1], less);
      InsertSorts(SortBy(s[..|s| - 1], less), s[|s| - 1], less);
    }
  }

  /** Different elements compare. */
  ghost predicate Separates<T>(s: seq<T>, less: (T, T) -> bool) {
    forall i, j :: 0 <= i < |s| && 0 <= j < |s| && s[i] != s[j] ==> less(s[i], s[j]) || less(s[j], s[i])
  }

  lemma InitMultiset<T>(s: seq<T>)
    requires |s| > 0
    ensures multiset(s[..|s| - 1]) == multiset(s) - multiset{s[|s| - 1]}
  {
    assert s == s[..|s| - 1] + [s[|s| - 1]];
  }

  lemma InitSorted<T>(s: seq<T>, less: (T, T) -> bool)
    requires |s| > 0 && Sorted(s, less)
    ensures Sorted(s[..|s| - 1], less)
  {}

  lemma InitSeparates<T>(s: seq<T>, less: (T, T) -> bool)
    requires |s| > 0 && Separates(s, less)
    ensures Separates(s[..|s| - 1], less)
  {}

  lemma SameLast<T>(a: seq<T>, b: seq<T>, less: (T, T) -> bool)
    requires |a| == |b| > 0 && multiset(a) == multiset(b)
    requires Sorted(a, less) && Sorted(b, less) && Separates(a, less)
    ensures a[|a| - 1] == b[|b| - 1]
  {
    var n := |a| - 1;
    assert a[n] in multiset(b) && b[n] in multiset(a);
    var i :| 0 <= i < |b| && b[i] == a[n];
    var j :| 0 <= j < |a| && a[j] == b[n];
  }

  /** Sorted lists with the same elements are equal once different elements compare. */
  lemma {:induction false} SortedUnique<T>(a: seq<T>, b: seq<T>, less: (T, T) -> bool)
    requires |a| == |b| && multiset(a) == multiset(b)
    requires Sorted(a, less) && Sorted(b, less) && Separates(a, less)
    ensures a == b
    decreases |a|
  {
    hide Sorted, Separates;
    if |a| > 0 {
      var n := |a| - 1;
      SameLast(a, b, less);
      InitMultiset(a);
      InitMultiset(b);
      InitSorted(a, less);
      InitSorted(b, less);
      InitSeparates(a, less);
      SortedUnique(a[..n], b[..n], less);
      assert a == a[..n] + [a[n]] && b == b[..n] + [b[n]];
    }
  }

  /** Sorting does not depend on the order in which the elements came. */
  lemma SortForgetsOrder<T(!new)>(a: seq<T>, b: seq<T>, less: (T, T) -> bool)
    requires StrictWeak(less) && multiset(a) == multiset(b) && Separates(a, less)
    ensures SortBy(a, less) == SortBy(b, less)
  {
    SortPermutes(a, less);
    SortPermutes(b, less);
    assert |a| == |multiset(a)| == |multiset(b)| == |b|;
    SortSorts(a, less);
    SortSorts(b, less);
    var r := SortBy(a, less);
    forall i, j | 0 <= i < |r| && 0 <= j < |r| && r[i] != r[j] ensures less(r[i], r[j]) || less(r[j], r[i]) {
      assert r[i] in a && r[j] in a;
    }
    SortedUnique(r, SortBy(b, less), less);
  }

  // ------------------------------------------------------------------------
  // Sorting with duplicates dropped
  // ------------------------------------------------------------------------

  ghost predicate StrictlySorted<T>(s: seq<T>, less: (T, T) -> bool) {
    forall i, j :: 0 <= i < j < |s| ==> less(s[i], s[j])
  }

  ghost predicate Asymmetric<T(!new)>(less: (T, T) -> bool) {
    forall x, y :: less(x, y) ==> !less(y, x)
  }

  ghost predicate SameElements<T>(a: seq<T>, b: seq<T>) {
    (forall x :: x in a ==> x in b) && (forall x :: x in b ==> x in a)
  }

  /** `dedup`: equal neighbours collapse. */
  function Dedup<T(==)>(s: seq<T>): seq<T>
    decreases |s|
  {
    if |s| < 2 then s
    else
      var front := Dedup(s[..|s| - 1]);
      if s[|s| - 1] == s[|s| - 2] then front else front + [s[|s| - 1]]
  }

  lemma {:induction false} DedupStrict<T>(s: seq<T>, less: (T, T) -> bool)
    requires Sorted(s, less) && Separates(s, less)
    ensures StrictlySorted(Dedup(s), less) && SameElements(Dedup(s), s) && |Dedup(s)| <= |s|
    decreases |s|
  {
    if |s| >= 2 {
      var n := |s| - 1;
      var front := Dedup(s[..n]);
      DedupStrict(s[..n], less);
      assert s == s[..n] + [s[n]];
      if s[n] == s[n - 1] {
        assert s[n] in s[..n];
      } else {
        forall i | 0 <= i < |front| ensures less(front[i], s[n]) {
          assert front[i] in s[..n];
          var k :| 0 <= k < n && s[k] == front[i];
          LastIsNew(s, less, k);
        }
      }
    }
  }

  lemma LastIsNew<T>(s: seq<T>, less: (T, T) -> bool, k: nat)
    requires Sorted(s, less) && Separates(s, less) && k < |s| - 1 && s[|s| - 1] != s[|s| - 2]
    ensures less(s[k], s[|s| - 1])
  {}

  lemma SameTop<T(!new)>(a: seq<T>, b: seq<T>, less: (T, T) -> bool)
    requires Asymmetric(less) && StrictlySorted(a, less) && StrictlySorted(b, less) && SameElements(a, b) && |a| > 0
    ensures |b| > 0 && a[|a| - 1] == b[|b| - 1]
  {
    var m, n := |a| - 1, |b| - 1;
    assert a[m] in b;
    assert b[n] in a;
    var i :| 0 <= i <= n && b[i] == a[m];
    var j :| 0 <= j <= m && a[j] == b[n];
  }

  lemma SameInit<T(!new)>(a: seq<T>, b: seq<T>, less: (T, T) -> bool)
    requires Asymmetric(less) && StrictlySorted(a, less) && StrictlySorted(b, less) && SameElements(a, b)
    requires |a| > 0 && |b| > 0 && a[|a| - 1] == b[|b| - 1]
    ensures SameElements(a[..|a| - 1], b[..|b| - 1])
    ensures StrictlySorted(a[..|a| - 1], less) && StrictlySorted(b[..|b| - 1], less)
  {
    var m, n := |a| - 1, |b| - 1;
    InitElements(a, less);
    InitElements(b, less);
    forall x ensures x in a[..m] <==> x in b[..n] {
      assert x in a <==> x in b;
    }
  }

  /** A strictly sorted list is determined by its elements. */
  lemma {:induction false} StrictUnique<T(!new)>(a: seq<T>, b: seq<T>, less: (T, T) -> bool)
    requires Asymmetric(less) && StrictlySorted(a, less) && StrictlySorted(b, less) && SameElements(a, b)
    ensures a == b
    decreases |a|
  {
    assert |b| > 0 ==> b[0] in b;
    if |a| > 0 {
      SameTop(a, b, less);
      SameInit(a, b, less);
      hide StrictlySorted, Asymmetric, SameElements;
      StrictUnique(a[..|a| - 1], b[..|b| - 1], less);
      assert a == a[..|a| - 1] + [a[|a| - 1]] && b == b[..|b| - 1] + [b[|b| - 1]];
    }
  }

  lemma InitElements<T(!new)>(a: seq<T>, less: (T, T) -> bool)
    requires Asymmetric(less) && StrictlySorted(a, less) && |a| > 0
    ensures forall x :: x in a[..|a| - 1] <==> x in a && x != a[|a| - 1]
  {}

  function SortDedup<T(==)>(s: seq<T>, less: (T, T) -> bool): seq<T> {
    Dedup(SortBy(s, less))
  }

  /** A strict order under which any two different values compare. */
  ghost predicate StrictTotal<T(!new)>(less: (T, T) -> bool) {
    StrictWeak(less) && forall x, y :: x != y ==> less(x, y) || less(y, x)
  }

  lemma SortDedupStrict<T(!new)>(s: seq<T>, less: (T, T) -> bool)
    requires StrictTotal(less)
    ensures StrictlySorted(SortDedup(s, less), less) && SameElements(SortDedup(s, less), s)
  {
    SortPermutes(s, less);
    SortSorts(s, less);
    DedupStrict(SortBy(s, less), less);
  }

  /** Sorting and dropping duplicates depends on the set of elements only. */
  lemma SortDedupForgets<T(!new)>(a: seq<T>, b: seq<T>, less: (T, T) -> bool)
    requires StrictTotal(less) && SameElements(a, b)
    ensures SortDedup(a, less) == SortDedup(b, less)
  {
    SortDedupStrict(a, less);
    SortDedupStrict(b, less);
    StrictUnique(SortDedup(a, less), SortDedup(b, less), less);
  }

  /** A strictly sorted list is its own canonical form. */
  lemma SortDedupFixed<T(!new)>(s: seq<T>, less: (T, T) -> bool)
    requires StrictTotal(less) && StrictlySorted(s, less)
    ensures SortDedup(s, less) == s
  {
    SortDedupStrict(s, less);
    StrictUnique(SortDedup(s, less), s, less);
  }

  // ------------------------------------------------------------------------
  // Repetition
  // ------------------------------------------------------------------------

  ghost predicate NoRepeat<T>(s: seq<T>) {
    forall i, j :: 0 <= i < |s| && 0 <= j < |s| && s[i] == s[j] ==> i == j
  }

  lemma {:induction false} CountsAtMostOnce<T>(s: seq<T>, x: T)
    requires NoRepeat(s)
    ensures multiset(s)[x] <= 1
    decreases |s|
  {
    if |s| > 0 {
      var n := |s| - 1;
      assert s == s[..n] + [s[n]];
      CountsAtMostOnce(s[..n], x);
      assert s[n] !in s[..n];
    }
  }

  lemma RepeatCountsTwice<T>(s: seq<T>, i: nat, j: nat)
    requires i < j < |s| && s[i] == s[j]
    ensures multiset(s)[s[i]] >= 2
  {
    assert s == s[..j] + [s[j]] + s[j + 1..];
    assert s[..j][i] in multiset(s[..j]);
  }

  /** A rearrangement of a list without repetition has none either. */
  lemma PermutationDistinct<T>(s: seq<T>, r: seq<T>)
    requires NoRepeat(s) && multiset(r) == multiset(s)
    ensures NoRepeat(r)
  {
    forall i, j | 0 <= i < j < |r| ensures r[i] != r[j] {
      CountsAtMostOnce(s, r[i]);
      if r[i] == r[j] {
        RepeatCountsTwice(r, i, j);
        assert false;
      }
    }
  }
}
