/** Decimal digit strings and the intervals that digit generation aims at. */
module Decimals {
  import opened Arithmetic

  function Digit(d: nat): char
    requires d < 10
  {
    '0' + d as char
  }

  predicate IsDigit(c: char) {
    '0' <= c <= '9'
  }

  function DigitValue(c: char): (d: nat)
    requires IsDigit(c)
    ensures d < 10
  {
    c as int - '0' as int
  }

  predicate IsDigits(s: string) {
    forall i :: 0 <= i < |s| ==> IsDigit(s[i])
  }

  /** The number that a digit string denotes. */
  function Dec(s: string): nat
    requires IsDigits(s)
  {
    if s == "" then 0 else 10 * Dec(s[..|s| - 1]) + DigitValue(s[|s| - 1])
  }

  function Pow10(n: nat): (p: nat)
    ensures p > 0
  {
    Pow(10, n)
  }

  lemma Pow10Next(n: nat)
    ensures Pow10(n + 1) == 10 * Pow10(n) && Pow10(0) == 1
  {}

  lemma DecAppend(s: string, c: char)
    requires IsDigits(s) && IsDigit(c)
    ensures IsDigits(s + [c]) && Dec(s + [c]) == 10 * Dec(s) + DigitValue(c)
  {
    assert (s + [c])[..|s|] == s;
  }

  lemma {:induction false} DecBound(s: string)
    requires IsDigits(s)
    ensures Dec(s) < Pow10(|s|)
  {
    if s != "" {
      DecBound(s[..|s| - 1]);
      Pow10Next(|s| - 1);
    }
  }

  /** The number b / S with the margins ml / S below and mh / S above it, their ends included or not. */
  datatype Target = Target(b: nat, S: nat, ml: nat, mh: nat, inclusive: bool)

  /** A decimal D with its point after the first of n digits lies between (b - ml) / S and (b + mh) / S. */
  ghost predicate InInterval(D: nat, n: nat, v: Target)
    requires n > 0
  {
    var t := Pow10(n - 1);
    if v.inclusive then v.b * t - v.ml * t <= D * v.S <= v.b * t + v.mh * t
    else v.b * t - v.ml * t < D * v.S < v.b * t + v.mh * t
  }

  ghost function Distance(x: int, y: int): nat {
    if x < y then y - x else x - y
  }

  /** No decimal of fewer than n digits lies in the interval. */
  ghost predicate NoneShorter(n: nat, v: Target) {
    forall m: nat, D: nat :: 0 < m < n ==> !InInterval(D, m, v)
  }

  /** Of the n-digit decimals in the interval, none is nearer to b / S. */
  ghost predicate Nearest(D: nat, n: nat, v: Target)
    requires n > 0
  {
    forall E: nat :: InInterval(E, n, v) ==>
      Distance(D * v.S, v.b * Pow10(n - 1)) <= Distance(E * v.S, v.b * Pow10(n - 1))
  }

  /** A point of the way through b / S: N is what n digits have said of it, r is left of the scaled numerator. */
  ghost predicate Truncated(N: nat, r: nat, n: nat, v: Target)
    requires n > 0
  {
    v.b * Pow10(n - 1) == N * v.S + r && r < v.S
  }

  /** The truncated decimal is in the interval exactly when the remainder is within the lower margin. */
  lemma TruncatedInInterval(N: nat, r: nat, n: nat, v: Target)
    requires n > 0 && Truncated(N, r, n, v) && v.ml > 0 && v.mh > 0
    ensures InInterval(N, n, v) <==>
            r < v.ml * Pow10(n - 1) || (v.inclusive && r == v.ml * Pow10(n - 1))
  {
    MulAtLeast(v.mh, Pow10(n - 1));
  }

  /** The next one up, exactly when what is missing is within the upper margin. */
  lemma RoundedUpInInterval(N: nat, r: nat, n: nat, v: Target)
    requires n > 0 && Truncated(N, r, n, v) && v.ml > 0 && v.mh > 0
    ensures InInterval(N + 1, n, v) <==>
            v.S < r + v.mh * Pow10(n - 1) || (v.inclusive && v.S == r + v.mh * Pow10(n - 1))
  {
    MulAtLeast(v.ml, Pow10(n - 1));
    assert (N + 1) * v.S == N * v.S + v.S;
  }

  /** Every other decimal of as many digits is further from the middle on one side. */
  lemma OthersFurther(N: nat, r: nat, n: nat, v: Target, E: nat)
    requires n > 0 && Truncated(N, r, n, v) && InInterval(E, n, v)
    ensures E <= N ==> E * v.S <= N * v.S && (v.ml > 0 && v.mh > 0 ==> InInterval(N, n, v))
    ensures E > N ==> E * v.S >= (N + 1) * v.S && (v.ml > 0 && v.mh > 0 ==> InInterval(N + 1, n, v))
  {
    MulMonotone(E, N, v.S);
    MulMonotone(N + 1, E, v.S);
    MulAtLeast(v.mh, Pow10(n - 1));
    MulAtLeast(v.ml, Pow10(n - 1));
    assert (N + 1) * v.S == N * v.S + v.S;
  }

  /** Where neither neighbour is in the interval, no decimal of n digits is. */
  lemma NoneHere(N: nat, r: nat, n: nat, v: Target)
    requires n > 0 && Truncated(N, r, n, v) && v.ml > 0 && v.mh > 0
    requires !InInterval(N, n, v) && !InInterval(N + 1, n, v)
    requires NoneShorter(n, v)
    ensures NoneShorter(n + 1, v)
  {
    forall m: nat, D: nat | 0 < m < n + 1
      ensures !InInterval(D, m, v)
    {
      if m == n && InInterval(D, n, v) {
        OthersFurther(N, r, n, v, D);
      }
    }
  }

  /** Nearest when the other neighbour is out or no nearer. */
  lemma TruncatedNearest(N: nat, r: nat, n: nat, v: Target)
    requires n > 0 && Truncated(N, r, n, v) && v.ml > 0 && v.mh > 0
    requires InInterval(N + 1, n, v) ==> 2 * r <= v.S
    ensures Nearest(N, n, v)
  {
    forall E: nat | InInterval(E, n, v)
      ensures Distance(N * v.S, v.b * Pow10(n - 1)) <= Distance(E * v.S, v.b * Pow10(n - 1))
    {
      OthersFurther(N, r, n, v, E);
      assert (N + 1) * v.S == N * v.S + v.S;
    }
  }

  lemma RoundedUpNearest(N: nat, r: nat, n: nat, v: Target)
    requires n > 0 && Truncated(N, r, n, v) && v.ml > 0 && v.mh > 0
    requires InInterval(N, n, v) ==> 2 * r >= v.S
    ensures Nearest(N + 1, n, v)
  {
    forall E: nat | InInterval(E, n, v)
      ensures Distance((N + 1) * v.S, v.b * Pow10(n - 1)) <= Distance(E * v.S, v.b * Pow10(n - 1))
    {
      OthersFurther(N, r, n, v, E);
      assert (N + 1) * v.S == N * v.S + v.S;
    }
  }

  /** A decimal ending in zero says nothing that one digit less does not. */
  lemma DropZero(D: nat, n: nat, v: Target)
    requires n > 1 && InInterval(10 * D, n, v)
    ensures InInterval(D, n - 1, v)
  {
    var t := Pow10(n - 2);
    Pow10Next(n - 2);
    assert v.b * (10 * t) == 10 * (v.b * t) && v.ml * (10 * t) == 10 * (v.ml * t) && v.mh * (10 * t) == 10 * (v.mh * t);
    assert 10 * D * v.S == 10 * (D * v.S);
  }

  /** D is b * 10^(n-1) / S rounded to an integer, ties to even: the n-digit decimal nearest to b / S. */
  ghost predicate RoundedHalfEven(D: nat, n: nat, b: nat, S: nat)
    requires n > 0
  {
    var d := Distance(D * S, b * Pow10(n - 1));
    2 * d <= S && (2 * d == S ==> D % 2 == 0)
  }

  /** No integer is nearer. */
  lemma RoundedIsNearest(D: nat, n: nat, b: nat, S: nat, E: nat)
    requires n > 0 && RoundedHalfEven(D, n, b, S)
    ensures Distance(D * S, b * Pow10(n - 1)) <= Distance(E * S, b * Pow10(n - 1))
  {
    MulAtLeast(D - E, S);
    MulAtLeast(E - D, S);
    assert (D - E) * S == D * S - E * S && (E - D) * S == E * S - D * S;
  }
}
