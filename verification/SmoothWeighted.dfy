/** Smooth weighted round-robin on vectors: every round adds each weight to its deficit,
    picks the first largest deficit and charges it the total weight. */
module SmoothWeighted {

  function Sum(v: seq<real>): real {
    if |v| == 0 then 0.0 else v[0] + Sum(v[1..])
  }

  /** `x` added up `n` times. */
  function Times(n: nat, x: real): real {
    if n == 0 then 0.0 else Times(n - 1, x) + x
  }

  /** One round takes deficits `d` to `e` and picks `k`: the largest sum wins, and among
      equal sums the first. */
  ghost predicate Round(d: seq<real>, w: seq<real>, k: nat, e: seq<real>) {
    && |d| == |w| == |e| && k < |d|
    && (forall i :: 0 <= i < |d| ==> d[i] + w[i] <= d[k] + w[k])
    && (forall i :: 0 <= i < k ==> d[i] + w[i] < d[k] + w[k])
    && (forall i :: 0 <= i < |d| ==> e[i] == d[i] + w[i] - (if i == k then Sum(w) else 0.0))
  }

  /** `ds[n]` are the deficits after `n` rounds, `picks[n]` the pick of round `n`. */
  ghost predicate Run(w: seq<real>, ds: seq<seq<real>>, picks: seq<nat>) {
    && |ds| == |picks| + 1 && |ds[0]| == |w| > 0
    && (forall n :: 0 <= n < |picks| ==> RoundAt(w, ds, picks, n))
  }

  ghost predicate RoundAt(w: seq<real>, ds: seq<seq<real>>, picks: seq<nat>, n: nat)
    requires |ds| == |picks| + 1 && n < |picks|
  {
    Round(ds[n], w, picks[n], ds[n + 1])
  }

  /** Phases as drawn for gateways new to the state: p_i in [0, w_i), all w_i positive. */
  ghost predicate Phases(p: seq<real>, w: seq<real>) {
    |p| == |w| > 0 && forall i :: 0 <= i < |p| ==> 0.0 <= p[i] < w[i]
  }

  /** How often `i` occurs. */
  function Count(picks: seq<nat>, i: nat): nat { multiset(picks)[i] }

  // ------------------------------------------------------------------------
  // Sums and multiples
  // ------------------------------------------------------------------------

  lemma {:induction false} TimesIsProduct(n: nat, x: real)
    ensures Times(n, x) == n as real * x
  {
    if n > 0 {
      TimesIsProduct(n - 1, x);
      assert n as real * x == (n - 1) as real * x + x;
    }
  }

  lemma {:induction false} TimesMonotone(m: nat, n: nat, x: real)
    requires m <= n && x > 0.0
    ensures Times(m, x) <= Times(n, x)
    ensures m < n ==> Times(m, x) + x <= Times(n, x)
    decreases n
  {
    if m < n { TimesMonotone(m, n - 1, x); }
  }

  lemma {:induction false} TimesAdd(m: nat, n: nat, x: real)
    ensures Times(m + n, x) == Times(m, x) + Times(n, x)
  {
    if n > 0 { TimesAdd(m, n - 1, x); }
  }

  /** Summing pointwise differences. */
  lemma {:induction false} SumShift(v: seq<real>, w: seq<real>, k: nat, c: real, e: seq<real>)
    requires |v| == |w| == |e|
    requires forall i :: 0 <= i < |v| ==> e[i] == v[i] + w[i] - (if i == k then c else 0.0)
    ensures Sum(e) == Sum(v) + Sum(w) - (if k < |v| then c else 0.0)
    decreases |v|
  {
    if |v| > 0 {
      if k == 0 {
        SumShift(v[1..], w[1..], |v|, c, e[1..]);
      } else {
        SumShift(v[1..], w[1..], k - 1, c, e[1..]);
      }
    }
  }

  /** Some entry carries the comparison of two sums. */
  lemma {:induction false} SomeAtLeast(v: seq<real>, w: seq<real>) returns (j: nat)
    requires |v| == |w| > 0 && Sum(v) >= Sum(w)
    ensures j < |v| && v[j] >= w[j]
    decreases |v|
  {
    if v[0] >= w[0] {
      j := 0;
    } else {
      j := SomeAtLeast(v[1..], w[1..]);
      j := j + 1;
    }
  }

  lemma {:induction false} SumDominated(v: seq<real>, w: seq<real>)
    requires |v| == |w| && forall i :: 0 <= i < |v| ==> v[i] <= w[i]
    ensures Sum(v) <= Sum(w)
    ensures Sum(v) == Sum(w) ==> v == w
    decreases |v|
  {
    if |v| > 0 {
      SumDominated(v[1..], w[1..]);
      assert v == [v[0]] + v[1..] && w == [w[0]] + w[1..];
    }
  }

  lemma {:induction false} SumConstant(w: seq<real>, c: real)
    requires forall i :: 0 <= i < |w| ==> w[i] == c
    ensures Sum(w) == Times(|w|, c)
    decreases |w|
  {
    if |w| > 0 { SumConstant(w[1..], c); }
  }

  lemma {:induction false} EntryBelowSum(w: seq<real>, i: nat)
    requires i < |w| && forall j :: 0 <= j < |w| ==> w[j] > 0.0
    ensures 0.0 < w[i] <= Sum(w)
    decreases |w|
  {
    var zero := seq(|w|, j => 0.0);
    var only := zero[i := w[i]];
    SumConstant(zero, 0.0);
    TimesIsProduct(|w|, 0.0);
    SumShift(zero, zero, i, -w[i], only);
    SumDominated(only, w);
  }

  /** One entry is bounded by the total once every other entry is bounded below. */
  lemma SumOthers(v: seq<real>, b: real, i: nat)
    requires i < |v| && forall j :: 0 <= j < |v| ==> v[j] >= b
    ensures v[i] + Times(|v| - 1, b) <= Sum(v)
  {
    var low := seq(|v|, j => b);
    var zero := seq(|v|, j => 0.0);
    SumConstant(low, b);
    SumConstant(zero, 0.0);
    TimesIsProduct(|v|, 0.0);
    SumShift(low, zero, i, b - v[i], low[i := v[i]]);
    SumDominated(low[i := v[i]], v);
  }

  // ------------------------------------------------------------------------
  // Exact long-run share
  // ------------------------------------------------------------------------

  /** What everyone would hold after crediting if all held the same. */
  function Average(d: seq<real>, w: seq<real>): real
    requires |w| > 0
  {
    (Sum(d) + Sum(w)) / |w| as real
  }

  /** The first of the credited deficits to be charged is at least their average. */
  lemma WinnerAboveAverage(d: seq<real>, w: seq<real>, k: nat, e: seq<real>)
    requires Round(d, w, k, e)
    ensures d[k] + w[k] >= Average(d, w)
  {
    hide Average;
    var top := d[k] + w[k];
    var before := seq(|d|, i requires 0 <= i < |d| => d[i] + w[i]);
    var level := seq(|d|, i => top);
    SumShift(d, w, |d|, 0.0, before);
    SumDominated(before, level);
    SumConstant(level, top);
    AverageBound(d, w, top);
  }

  lemma AverageBound(d: seq<real>, w: seq<real>, top: real)
    requires |w| > 0 && Sum(d) + Sum(w) <= Times(|w|, top)
    ensures Average(d, w) <= top
  {
    hide Sum, Times;
    TimesIsProduct(|w|, top);
    DivideBound(Sum(d) + Sum(w), |w| as real, top);
  }

  lemma DivideBound(x: real, n: real, y: real)
    requires n > 0.0 && x <= n * y
    ensures x / n <= y
  {
    assert x / n * n == x;
  }

  lemma DividePositive(x: real, n: real)
    requires n > 0.0 && x > 0.0
    ensures x / n > 0.0
  {
    assert x / n * n == x;
  }

  /** The least a deficit can ever be, from deficits `d` on: what it was, or the average less
      the total, which is the least that being charged can leave. */
  function Floor(d: seq<real>, w: seq<real>, i: nat): real
    requires i < |d| == |w|
  {
    var charged := Average(d, w) - Sum(w);
    if d[i] < charged then d[i] else charged
  }

  function Floors(d: seq<real>, w: seq<real>): (f: seq<real>)
    requires |d| == |w|
    ensures |f| == |d| && forall i :: 0 <= i < |d| ==> f[i] == Floor(d, w, i)
  {
    seq(|d|, i requires 0 <= i < |d| => Floor(d, w, i))
  }

  /** The most it can ever be: what is left of the sum when all others are at their least. */
  function Ceiling(d: seq<real>, w: seq<real>, i: nat): real
    requires i < |d| == |w|
  {
    Sum(d) - (Sum(Floors(d, w)) - Floor(d, w, i))
  }

  ghost predicate Positive(w: seq<real>) { forall i :: 0 <= i < |w| ==> w[i] > 0.0 }

  /** What every run keeps from any deficits at all: their sum, and a floor under each that
      depends only on the deficits it started from. */
  lemma {:induction false} DeficitsBounded(w: seq<real>, ds: seq<seq<real>>, picks: seq<nat>, n: nat)
    requires Run(w, ds, picks) && Positive(w) && n <= |picks|
    ensures |ds[n]| == |w| && Sum(ds[n]) == Sum(ds[0])
    ensures forall i :: 0 <= i < |w| ==> ds[n][i] >= Floor(ds[0], w, i)
  {
    if n > 0 {
      DeficitsBounded(w, ds, picks, n - 1);
      assert RoundAt(w, ds, picks, n - 1);
      SumShift(ds[n - 1], w, picks[n - 1], Sum(w), ds[n]);
      WinnerAboveAverage(ds[n - 1], w, picks[n - 1], ds[n]);
    }
  }

  lemma BelowCeiling(w: seq<real>, d0: seq<real>, d: seq<real>, i: nat)
    requires i < |w| == |d0| == |d| && Sum(d) == Sum(d0)
    requires forall j :: 0 <= j < |w| ==> d[j] >= Floor(d0, w, j)
    ensures d[i] <= Ceiling(d0, w, i)
  {
    var f := Floors(d0, w);
    var zero := seq(|w|, j => 0.0);
    SumConstant(zero, 0.0);
    TimesIsProduct(|w|, 0.0);
    SumShift(f, zero, i, f[i] - d[i], f[i := d[i]]);
    SumDominated(f[i := d[i]], d);
  }

  /** Exact long-run share from any deficits, carried over or drawn: however long the run,
      count_i * W - n * w_i stays between two constants fixed at its start, so count_i / n
      tends to w_i / W. */
  lemma ShareFromAnyDeficits(w: seq<real>, ds: seq<seq<real>>, picks: seq<nat>, n: nat, i: nat)
    requires Run(w, ds, picks) && Positive(w) && n <= |picks| && i < |w|
    ensures ShareBetween(ds[0][i] - Ceiling(ds[0], w, i), Count(picks[..n], i), n, Sum(w), w[i], ds[0][i] - Floor(ds[0], w, i))
  {
    hide Floor, Ceiling, ShareBetween;
    DeficitsBounded(w, ds, picks, n);
    BelowCeiling(w, ds[0], ds[n], i);
    DeficitIsDebt(w, ds, picks, n, i);
    GapBetween(ds[0][i], ds[n][i], Ceiling(ds[0], w, i), Floor(ds[0], w, i), Count(picks[..n], i), n, Sum(w), w[i]);
  }

  /** low <= count * W - n * w <= high. */
  ghost predicate ShareBetween(low: real, count: nat, n: nat, total: real, wi: real, high: real) {
    low <= count as real * total - n as real * wi <= high
  }

  lemma GapBetween(d0: real, d: real, ceiling: real, floor: real, count: nat, n: nat, total: real, wi: real)
    requires d == d0 + Times(n, wi) - Times(count, total) && floor <= d <= ceiling
    ensures ShareBetween(d0 - ceiling, count, n, total, wi, d0 - floor)
  {
    TimesIsProduct(n, wi);
    TimesIsProduct(count, total);
  }

  lemma {:induction false} SumNonNegative(v: seq<real>)
    requires forall i :: 0 <= i < |v| ==> v[i] >= 0.0
    ensures Sum(v) >= 0.0
    decreases |v|
  {
    if |v| > 0 { SumNonNegative(v[1..]); }
  }

  /** From phases as they are drawn, the floor under every deficit is above minus the total. */
  lemma {:induction false} DeficitsConserved(w: seq<real>, ds: seq<seq<real>>, picks: seq<nat>, n: nat)
    requires Run(w, ds, picks) && Phases(ds[0], w) && n <= |picks|
    ensures |ds[n]| == |w| && Sum(ds[n]) == Sum(ds[0]) >= 0.0
    ensures forall i :: 0 <= i < |w| ==> ds[n][i] > -Sum(w)
  {
    EntryBelowSum(w, 0);
    SumNonNegative(ds[0]);
    DeficitsBounded(w, ds, picks, n);
    DividePositive(Sum(ds[0]) + Sum(w), |w| as real);
  }

  /** A deficit records exactly what is owed: d_i = p_i + n * w_i - count_i * W. */
  lemma {:induction false} DeficitIsDebt(w: seq<real>, ds: seq<seq<real>>, picks: seq<nat>, n: nat, i: nat)
    requires Run(w, ds, picks) && n <= |picks| && i < |w|
    ensures |ds[n]| == |w|
    ensures ds[n][i] == ds[0][i] + Times(n, w[i]) - Times(Count(picks[..n], i), Sum(w))
  {
    if n == 0 {
      assert picks[..0] == [];
    } else {
      DeficitIsDebt(w, ds, picks, n - 1, i);
      assert RoundAt(w, ds, picks, n - 1);
      assert picks[..n] == picks[..n - 1] + [picks[n - 1]];
      var c := Count(picks[..n - 1], i);
      assert Count(picks[..n], i) == if picks[n - 1] == i then c + 1 else c;
    }
  }

  /** |count * W - n * w| < k * W. */
  ghost predicate ShareWithin(count: nat, n: nat, k: nat, total: real, wi: real) {
    -(k as real * total) < count as real * total - n as real * wi < k as real * total
  }

  lemma GapBound(k: nat, total: real, phases: real, p: real, wi: real, d: real, count: nat, n: nat)
    requires k >= 2 && 0.0 <= p < wi <= total && phases < total
    requires d == p + Times(n, wi) - Times(count, total)
    requires -total < d && d + Times(k - 1, -total) <= phases
    ensures ShareWithin(count, n, k, total, wi)
  {
    TimesNegated(k - 1, total);
    TimesMonotone(1, k, total);
    assert Times(1, total) == total;
    TimesIsProduct(k, total);
    TimesIsProduct(n, wi);
    TimesIsProduct(count, total);
  }

  lemma {:induction false} TimesNegated(n: nat, x: real)
    ensures Times(n, -x) == -Times(n, x)
  {
    if n > 0 { TimesNegated(n - 1, x); }
  }

  lemma {:induction false} SumBelow(p: seq<real>, w: seq<real>)
    requires |p| == |w| > 0 && forall i :: 0 <= i < |p| ==> p[i] < w[i]
    ensures Sum(p) < Sum(w)
    decreases |p|
  {
    if |p| > 1 { SumBelow(p[1..], w[1..]); } else { assert p[1..] == [] == w[1..]; }
  }

  /** The two sides between which a deficit lives. */
  lemma DebtBounds(w: seq<real>, p: seq<real>, d: seq<real>, i: nat)
    requires Phases(p, w) && |d| == |w| && i < |w| && Sum(d) == Sum(p)
    requires forall j :: 0 <= j < |d| ==> d[j] > -Sum(w)
    ensures d[i] + Times(|w| - 1, -Sum(w)) <= Sum(p) < Sum(w) && 0.0 < w[i] <= Sum(w)
  {
    SumOthers(d, -Sum(w), i);
    SumBelow(p, w);
    EntryBelowSum(w, i);
  }

  /** Exact long-run share: for k >= 2 gateways, |count_i * W - n * w_i| < k * W after every
      number `n` of selections, so count_i / n tends to w_i / W. */
  lemma ExactLongRunShare(w: seq<real>, ds: seq<seq<real>>, picks: seq<nat>, n: nat, i: nat)
    requires Run(w, ds, picks) && Phases(ds[0], w) && |w| >= 2 && n <= |picks| && i < |w|
    ensures ShareWithin(Count(picks[..n], i), n, |w|, Sum(w), w[i])
  {
    var count, total, p, d := Count(picks[..n], i), Sum(w), ds[0], ds[n];
    DeficitsConserved(w, ds, picks, n);
    DeficitIsDebt(w, ds, picks, n, i);
    DebtBounds(w, p, d, i);
    GapBound(|w|, total, Sum(p), p[i], w[i], d[i], count, n);
  }

  // ------------------------------------------------------------------------
  // Equal weights rotate
  // ------------------------------------------------------------------------

  ghost predicate Equal(w: seq<real>, c: real) {
    |w| >= 2 && c > 0.0 && forall i :: 0 <= i < |w| ==> w[i] == c
  }

  /** Deficits so close together that being charged the total once puts anyone behind
      everyone else. */
  ghost predicate Tight(d: seq<real>, total: real) {
    forall i, j :: 0 <= i < |d| && 0 <= j < |d| && i != j ==>
      d[i] - d[j] < total || (d[i] - d[j] == total && j < i)
  }

  /** Phases as they are drawn are that close. */
  lemma PhasesAreTight(p: seq<real>, w: seq<real>, c: real)
    requires Phases(p, w) && Equal(w, c)
    ensures Tight(p, Sum(w))
  {
    EntryBelowSum(w, 0);
  }

  /** Within the first cycle a gateway picked once is behind one not picked yet. */
  lemma NoEarlyRepeat(w: seq<real>, c: real, ds: seq<seq<real>>, picks: seq<nat>, n: nat)
    requires Run(w, ds, picks) && Tight(ds[0], Sum(w)) && Equal(w, c) && n < |w| && n < |picks|
    requires Count(picks[..n], picks[n]) <= 1
    ensures Count(picks[..n], picks[n]) == 0
  {
    var k := picks[n];
    assert RoundAt(w, ds, picks, n);
    DeficitsBounded(w, ds, picks, n);
    var j := SomeAtLeast(ds[n], ds[0]);
    DeficitIsDebt(w, ds, picks, n, j);
    DeficitIsDebt(w, ds, picks, n, k);
    SumConstant(w, c);
    NotYetPicked(|w|, c, Sum(w), n, Count(picks[..n], j));
    assert Times(1, Sum(w)) == Sum(w);
  }

  lemma NotYetPicked(size: nat, c: real, total: real, n: nat, count: nat)
    requires size >= 1 && c > 0.0 && total == Times(size, c) && n < size
    requires Times(n, c) >= Times(count, total)
    ensures count == 0
  {
    TimesMonotone(n, size, c);
    if count > 0 {
      assert Times(0, c) == 0.0 && Times(1, total) == total;
      TimesMonotone(0, n, c);
      TimesMonotone(1, count, total);
      assert false;
    }
  }

  lemma {:induction false} FirstCycleCounts(w: seq<real>, c: real, ds: seq<seq<real>>, picks: seq<nat>, n: nat, i: nat)
    requires Run(w, ds, picks) && Tight(ds[0], Sum(w)) && Equal(w, c) && n <= |w| && n <= |picks|
    ensures Count(picks[..n], i) <= 1
  {
    if n > 0 {
      FirstCycleCounts(w, c, ds, picks, n - 1, i);
      FirstCycleCounts(w, c, ds, picks, n - 1, picks[n - 1]);
      NoEarlyRepeat(w, c, ds, picks, n - 1);
      assert picks[..n] == picks[..n - 1] + [picks[n - 1]];
    }
  }

  /** After one full cycle every deficit is back where it was. */
  lemma CycleReturns(w: seq<real>, c: real, ds: seq<seq<real>>, picks: seq<nat>)
    requires Run(w, ds, picks) && Tight(ds[0], Sum(w)) && Equal(w, c) && |w| <= |picks|
    ensures ds[|w|] == ds[0]
  {
    var k := |w|;
    DeficitsBounded(w, ds, picks, k);
    SumConstant(w, c);
    forall i | 0 <= i < k ensures ds[0][i] <= ds[k][i] {
      FirstCycleCounts(w, c, ds, picks, k, i);
      DeficitIsDebt(w, ds, picks, k, i);
      assert Times(1, Sum(w)) == Sum(w) && Times(0, Sum(w)) == 0.0;
      EntryBelowSum(w, i);
    }
    SumDominated(ds[0], ds[k]);
  }

  /** The same deficits make the same pick. */
  lemma RoundUnique(d: seq<real>, w: seq<real>, k: nat, e: seq<real>, l: nat, f: seq<real>)
    requires Round(d, w, k, e) && Round(d, w, l, f)
    ensures k == l && e == f
  {}

  lemma {:induction false} CyclePeriodic(w: seq<real>, c: real, ds: seq<seq<real>>, picks: seq<nat>, n: nat)
    requires Run(w, ds, picks) && Tight(ds[0], Sum(w)) && Equal(w, c) && n + |w| <= |picks|
    ensures ds[n + |w|] == ds[n]
  {
    if n == 0 {
      CycleReturns(w, c, ds, picks);
    } else {
      CyclePeriodic(w, c, ds, picks, n - 1);
      assert RoundAt(w, ds, picks, n - 1) && RoundAt(w, ds, picks, n - 1 + |w|);
      RoundUnique(ds[n - 1], w, picks[n - 1], ds[n], picks[n - 1 + |w|], ds[n + |w|]);
    }
  }

  /** Equal weights, deficits close together: every window of k consecutive picks, wherever
      it starts, holds each of the k gateways exactly once. */
  lemma EveryWindowIsAPermutation(w: seq<real>, c: real, ds: seq<seq<real>>, picks: seq<nat>, n: nat, i: nat)
    requires Run(w, ds, picks) && Tight(ds[0], Sum(w)) && Equal(w, c) && n + |w| <= |picks| && i < |w|
    ensures Once(picks, |w|, n, i)
  {
    var k := |w|;
    CyclePeriodic(w, c, ds, picks, n);
    DeficitIsDebt(w, ds, picks, n, i);
    DeficitIsDebt(w, ds, picks, n + k, i);
    assert picks[..n + k] == picks[..n] + picks[n..n + k];
    var a, m := Count(picks[..n], i), Count(picks[n..n + k], i);
    assert Count(picks[..n + k], i) == a + m;
    SumConstant(w, c);
    EntryBelowSum(w, i);
    TimesAdd(n, k, c);
    TimesAdd(a, m, Sum(w));
    assert Times(m, Sum(w)) == Sum(w) == Times(1, Sum(w));
    if m == 0 {
      assert false;
    } else if m > 1 {
      TimesMonotone(1, m, Sum(w));
      assert false;
    }
  }

  /** The `k` picks from round `n` on are a permutation of all `k` gateways. */
  ghost predicate FullCycle(picks: seq<nat>, k: nat, n: nat)
    requires n + k <= |picks|
  {
    forall i: nat :: i < k ==> Once(picks, k, n, i)
  }

  ghost predicate Once(picks: seq<nat>, k: nat, n: nat, i: nat)
    requires n + k <= |picks|
  {
    Count(picks[n..n + k], i) == 1
  }

  /** Only close deficits rotate: if the very first cycle serves everyone once, no gateway was
      ahead of another by a full total. */
  lemma FirstCycleIsTight(w: seq<real>, c: real, ds: seq<seq<real>>, picks: seq<nat>, i: nat, j: nat)
    requires Run(w, ds, picks) && Equal(w, c) && |w| <= |picks| && FullCycle(picks, |w|, 0)
    requires i < |w| && j < |w| && i != j
    ensures ds[0][i] - ds[0][j] < Sum(w) || (ds[0][i] - ds[0][j] == Sum(w) && j < i)
  {
    var k := |w|;
    var cycle := picks[0..k];
    assert Once(picks, k, 0, i) && Once(picks, k, 0, j);
    var n :| 0 <= n < k && cycle[n] == j;
    assert RoundAt(w, ds, picks, n) && picks[n] == j;
    assert cycle == picks[..n] + [j] + picks[n + 1..k];
    assert Count(picks[..n], j) == 0 && Count(picks[..n], i) <= Count(cycle, i) == 1;
    DeficitIsDebt(w, ds, picks, n, i);
    DeficitIsDebt(w, ds, picks, n, j);
    EntryBelowSum(w, 0);
    assert Times(0, Sum(w)) == 0.0 && Times(1, Sum(w)) == Sum(w);
  }

  /** Exactly when equal weights rotate: every window of every run from these deficits is a
      permutation if and only if no gateway is ahead of another by a full total, or by exactly
      that much only where the other comes first. */
  lemma RotatesIff(w: seq<real>, c: real, ds: seq<seq<real>>, picks: seq<nat>)
    requires Run(w, ds, picks) && Equal(w, c) && |w| <= |picks|
    ensures (forall n :: 0 <= n <= |picks| - |w| ==> FullCycle(picks, |w|, n)) <==> Tight(ds[0], Sum(w))
  {
    if Tight(ds[0], Sum(w)) {
      forall n | 0 <= n <= |picks| - |w| ensures FullCycle(picks, |w|, n) {
        forall i: nat | i < |w| ensures Once(picks, |w|, n, i) { EveryWindowIsAPermutation(w, c, ds, picks, n, i); }
      }
    } else {
      var i, j :| 0 <= i < |w| && 0 <= j < |w| && i != j
                  && !(ds[0][i] - ds[0][j] < Sum(w) || (ds[0][i] - ds[0][j] == Sum(w) && j < i));
      if FullCycle(picks, |w|, 0) {
        FirstCycleIsTight(w, c, ds, picks, i, j);
        assert false;
      }
    }
  }

  // ------------------------------------------------------------------------
  // Immediate repetition
  // ------------------------------------------------------------------------

  /** `i` is ahead of everyone else even after paying the total. */
  ghost predicate Outruns(d: seq<real>, total: real, i: nat) {
    i < |d| && forall j :: 0 <= j < |d| && j != i ==> d[i] - d[j] > total || (d[i] - d[j] == total && i < j)
  }

  /** Once two picks in a row differ, all later ones do: whoever was picked just before is
      still ahead of the one picked after it. */
  lemma {:induction false} DifferenceLasts(w: seq<real>, c: real, ds: seq<seq<real>>, picks: seq<nat>, n: nat)
    requires Run(w, ds, picks) && Equal(w, c) && 2 <= |picks| && picks[0] != picks[1] && n + 1 < |picks|
    ensures picks[n] != picks[n + 1]
  {
    if n > 0 {
      DifferenceLasts(w, c, ds, picks, n - 1);
      assert RoundAt(w, ds, picks, n - 1) && RoundAt(w, ds, picks, n) && RoundAt(w, ds, picks, n + 1);
      StaysAhead(w, c, ds[n - 1], picks[n - 1], ds[n], picks[n], ds[n + 1], picks[n + 1], ds[n + 2]);
    }
  }

  lemma StaysAhead(w: seq<real>, c: real, d0: seq<real>, i: nat, d1: seq<real>, j: nat, d2: seq<real>, k: nat, d3: seq<real>)
    requires Equal(w, c) && Round(d0, w, i, d1) && Round(d1, w, j, d2) && Round(d2, w, k, d3) && i != j
    ensures k != j
  {
    assert d2[i] == d0[i] + c + c - Sum(w) && d2[j] == d0[j] + c + c - Sum(w);
  }

  lemma OutrunnerRepeats(w: seq<real>, c: real, d0: seq<real>, i: nat, d1: seq<real>, j: nat, d2: seq<real>, k: nat)
    requires Equal(w, c) && Round(d0, w, i, d1) && Round(d1, w, j, d2) && Outruns(d0, Sum(w), k)
    ensures i == j == k
  {
    EntryBelowSum(w, 0);
  }

  /** Exactly when equal weights never repeat immediately: if and only if no gateway outruns
      all others at the start. */
  lemma NeverRepeatsIff(w: seq<real>, c: real, ds: seq<seq<real>>, picks: seq<nat>)
    requires Run(w, ds, picks) && Equal(w, c) && 2 <= |picks|
    ensures (forall n :: 0 <= n < |picks| - 1 ==> picks[n] != picks[n + 1]) <==> !exists i :: Outruns(ds[0], Sum(w), i)
  {
    assert RoundAt(w, ds, picks, 0) && RoundAt(w, ds, picks, 1);
    EntryBelowSum(w, 0);
    if i :| Outruns(ds[0], Sum(w), i) { OutrunnerRepeats(w, c, ds[0], picks[0], ds[1], picks[1], ds[2], i); }
    if picks[0] == picks[1] {
      assert Outruns(ds[0], Sum(w), picks[0]);
    } else {
      forall n | 0 <= n < |picks| - 1 ensures picks[n] != picks[n + 1] { DifferenceLasts(w, c, ds, picks, n); }
    }
  }
}
