/** Big-endian positional numerals of a fixed width, the common core of base32 and hex. */
module Positional {

  function Times(base: nat, x: nat): nat { base * x }

  function Quotient(v: nat, base: nat): nat
    requires base > 0
  {
    v / base
  }

  function Remainder(v: nat, base: nat): (r: nat)
    requires base > 0
    ensures r < base
  {
    v % base
  }

  function Pow(base: nat, n: nat): nat {
    if n == 0 then 1 else Times(base, Pow(base, n - 1))
  }

  ghost predicate InBase(s: seq<nat>, base: nat) {
    forall i :: 0 <= i < |s| ==> s[i] < base
  }

  function Value(s: seq<nat>, base: nat): nat {
    if |s| == 0 then 0 else Times(base, Value(s[..|s| - 1], base)) + s[|s| - 1]
  }

  /** The `n` low digits of `v`, most significant first. */
  function Digits(v: nat, base: nat, n: nat): (s: seq<nat>)
    requires base > 0
    ensures |s| == n && InBase(s, base)
    decreases n
  {
    if n == 0 then [] else Digits(Quotient(v, base), base, n - 1) + [Remainder(v, base)]
  }

  lemma Grows(base: nat, x: nat, y: nat)
    requires x < y
    ensures Times(base, x) + base <= Times(base, y)
  {
    assert base * (x + 1) <= base * y;
  }

  lemma Divides(v: nat, base: nat)
    requires base > 0
    ensures v == Times(base, Quotient(v, base)) + Remainder(v, base)
  {}

  lemma DivideMultiple(base: nat, q: nat, r: nat)
    requires r < base
    ensures Quotient(Times(base, q) + r, base) == q && Remainder(Times(base, q) + r, base) == r
  {
    hide Times, Quotient, Remainder;
    var v := Times(base, q) + r;
    Divides(v, base);
    if Quotient(v, base) < q {
      Grows(base, Quotient(v, base), q);
    } else if Quotient(v, base) > q {
      Grows(base, q, Quotient(v, base));
    }
  }

  lemma {:induction false} ValueBound(s: seq<nat>, base: nat)
    requires InBase(s, base)
    ensures Value(s, base) < Pow(base, |s|)
    decreases |s|
  {
    hide Times;
    if |s| > 0 {
      var front := s[..|s| - 1];
      ValueBound(front, base);
      Grows(base, Value(front, base), Pow(base, |front|));
    }
  }

  /** Writing down a numeral's value gives the numeral back. */
  lemma {:induction false} DigitsOfValue(s: seq<nat>, base: nat)
    requires base > 0 && InBase(s, base)
    ensures Digits(Value(s, base), base, |s|) == s
    decreases |s|
  {
    hide Times, Quotient, Remainder;
    if |s| > 0 {
      var front, last := s[..|s| - 1], s[|s| - 1];
      DigitsOfValue(front, base);
      DivideMultiple(base, Value(front, base), last);
      assert s == front + [last];
    }
  }

  lemma QuotientBound(v: nat, base: nat, top: nat)
    requires base > 0 && v < Times(base, top)
    ensures Quotient(v, base) < top
  {}

  /** Every value below base^n is that of its `n` digits. */
  lemma {:induction false} ValueOfDigits(v: nat, base: nat, n: nat)
    requires base > 0 && v < Pow(base, n)
    ensures Value(Digits(v, base, n), base) == v
    decreases n
  {
    hide Times, Quotient, Remainder;
    if n > 0 {
      QuotientBound(v, base, Pow(base, n - 1));
      ValueOfDigits(Quotient(v, base), base, n - 1);
      var s := Digits(v, base, n);
      assert s[..n - 1] == Digits(Quotient(v, base), base, n - 1) && s[n - 1] == Remainder(v, base);
      Divides(v, base);
    }
  }
}
