/**
 The numbers that doubles make of dtoa's shortest-digit loop (bundle/lua-cjson-2.1.0.5/dtoa.c, lines 4084 to 4196): for
 none of them is a nine carried past a nearer one.
 */
module Doubles {
  import opened Arithmetic
  import opened Decimals
  import opened DigitLoops

  /** A positive double n * 2^e: of 53 bits, or with the least exponent. */
  ghost predicate IsDouble(n: nat, e: int) {
    0 < n < Pow2(53) && -1074 <= e <= 971 && (n >= Pow2(52) || e == -1074)
  }

  /** Whether the next lower double is only half as far as the next higher one. */
  ghost predicate AtBoundary(n: nat, e: int) {
    n == Pow2(52) && e > -1074
  }

  function Part(x: int): nat {
    if x > 0 then x else 0
  }

  /** b / S is n * 2^e in units of 10^k. */
  ghost predicate InUnits(b: nat, S: nat, n: nat, e: int, k: int) {
    b * Pow2(Part(-e)) * Pow10(Part(k)) == n * Pow2(Part(e)) * Pow10(Part(-k)) * S
  }

  /** b / S is the double in units of 10^k, and the margins are half of the distances to its neighbours. */
  ghost predicate Scales(v: Target, n: nat, e: int, k: int) {
    && InUnits(v.b, v.S, n, e, k)
    && v.b == 2 * n * v.mh && v.mh == v.ml * if AtBoundary(n, e) then 2 else 1
  }

  /** The shortest digits of a double are the nearest decimal of their length, without exception. */
  lemma ShortestIsNearest(s: string, carry: int, v: Target, n: nat, e: int, k: int)
    requires Shortest(s, carry, v) && v.S > 0 && v.b < 10 * v.S
    requires IsDouble(n, e) && Scales(v, n, e, k)
    ensures Nearest(Dec(s) * Pow10(carry), |s|, v)
  {
    NoDoubleMisrounds(v, n, e, k);
  }

  /** With ten last places or more the margins are narrow; with fewer the upper end is no power of ten. */
  lemma NoDoubleMisrounds(v: Target, n: nat, e: int, k: int)
    requires v.S > 0 && v.b < 10 * v.S && IsDouble(n, e) && Scales(v, n, e, k)
    ensures !Misrounds(v)
  {
    hide IsDouble, Scales, Pow2, Pow10;
    if n >= 10 {
      ManyPlaces(v, n, e, k);
      NarrowMargins(v);
    } else if Misrounds(v) {
      LeastExponent(n, e);
      TensBelow(v, n, k);
      EndIsNoPower(v, n, k);
    }
  }

  /** Margins of at most half a unit are narrow enough. */
  lemma NarrowMargins(v: Target)
    requires 2 * v.mh <= v.S
    ensures !Misrounds(v)
  {}

  lemma ManyPlaces(v: Target, n: nat, e: int, k: int)
    requires v.b < 10 * v.S && Scales(v, n, e, k) && n >= 10
    ensures 2 * v.mh <= v.S
  {
    hide Pow2, Pow10;
    assert 2 * n * v.mh >= 20 * v.mh by { MulMonotone(20, 2 * n, v.mh); }
  }

  lemma LeastExponent(n: nat, e: int)
    requires IsDouble(n, e) && n < 10
    ensures e == -1074 && n > 0
  {
    PowAdd(2, 4, 48);
    assert Pow2(4) == 16;
    MulMonotone(1, Pow2(48), 16);
  }

  /** Then one unit is 0.01 or less. */
  lemma TensBelow(v: Target, n: nat, k: int)
    requires v.S > 0 && n < 10 && Scales(v, n, -1074, k) && v.b >= 9 * v.S
    ensures k <= -2
  {
    var t, u, w := Pow2(1074), Pow10(Part(k)), Pow10(Part(-k));
    assert Pow2(0) == 1;
    assert v.b * t * u == n * w * v.S;
    if k > -2 {
      PowAdd(2, 4, 1070);
      assert Pow2(4) == 16 && t == 16 * Pow2(1070);
      assert Pow10(0) == 1 && Pow10(1) == 10;
      assert w <= 10;
      hide Pow2, Pow10, Scales;
      TooLarge(v.b, v.S, n, t, u, w);
    }
  }

  lemma TooLarge(b: nat, S: nat, n: nat, t: nat, u: nat, w: nat)
    requires S > 0 && b >= 9 * S && t >= 16 && u > 0 && n < 10 && w <= 10
    ensures b * t * u > n * w * S
  {
    MulMonotone(16, t, b);
    MulMonotone(1, u, b * t);
    MulMonotone(n, 9, w);
    MulMonotone(n * w, 90, S);
  }

  /** (2 * n + 1) / 2^1075 is not a power of ten below one: five would divide a power of two. */
  lemma EndIsNoPower(v: Target, n: nat, k: int)
    requires v.S > 0 && n > 0 && k <= -2 && Scales(v, n, -1074, k)
    ensures v.b + v.mh != 10 * v.S
  {
    var t, p, q := Pow2(1074), Pow10(-k), Pow10(-k - 2);
    assert Pow2(0) == 1 && Pow10(0) == 1;
    assert v.b * t == n * p * v.S;
    Pow10Next(-k - 2);
    Pow10Next(-k - 1);
    assert p == 100 * q;
    FiveDoesNotDivide(1074);
    hide Pow2, Pow10, Scales;
    assert v.b == 2 * n * v.mh;
    if v.b + v.mh == 10 * v.S {
      Cancel(v.b, v.mh, v.S, n, t, p);
      MultipleOfFive(t, q, 2 * n + 1);
    }
  }

  lemma MultipleOfFive(t: nat, q: nat, x: nat)
    requires 20 * t == 100 * q * x
    ensures t % 5 == 0
  {
    assert t == 5 * (q * x);
  }

  lemma Cancel(b: nat, mh: nat, S: nat, n: nat, t: nat, p: nat)
    requires S > 0 && n > 0 && b == 2 * n * mh && b * t == n * p * S && b + mh == 10 * S
    ensures 20 * t == p * (2 * n + 1)
  {
    Regroup(n, mh, t, p, S);
    SameFactor(n, 2 * mh * t, p * S);
    var N := 2 * n + 1;
    assert N * mh == 10 * S;
    Exchange(N, mh, t, p, S);
    SameFactor(S, 20 * t, p * N);
  }

  lemma Regroup(n: nat, mh: nat, t: nat, p: nat, S: nat)
    ensures 2 * n * mh * t == n * (2 * mh * t) && n * p * S == n * (p * S)
  {
    MulAssociative(n, 2 * mh, t);
    assert n * (2 * mh) == 2 * n * mh;
    MulAssociative(n, p, S);
  }

  lemma Exchange(N: nat, mh: nat, t: nat, p: nat, S: nat)
    requires N * mh == 10 * S && 2 * mh * t == p * S
    ensures S * (20 * t) == S * (p * N)
  {
    calc {
      S * (20 * t);
      10 * S * (2 * t);
      N * mh * (2 * t);
      { MulAssociative(N, mh, 2 * t); }
      N * (mh * (2 * t));
      { assert mh * (2 * t) == 2 * mh * t; }
      N * (p * S);
      { MulAssociative(N, p, S); }
      N * p * S;
    }
  }

  lemma SameFactor(x: nat, a: nat, b: nat)
    requires x > 0 && x * a == x * b
    ensures a == b
  {
    MulMonotone(a, b, x);
    MulMonotone(b, a, x);
  }

  lemma {:induction false} FiveDoesNotDivide(k: nat)
    ensures Pow2(k) % 5 != 0
  {
    if k > 0 {
      FiveDoesNotDivide(k - 1);
    }
  }
}
