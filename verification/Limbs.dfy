/** The value of a sequence of 32-bit limbs, least significant first, and the single steps of limb loops. */
module Limbs {
  import opened Arithmetic

  const BASE: int := 0x1_0000_0000

  type Limb = x: int | 0 <= x < 0x1_0000_0000

  /** BASE to the power i. */
  function P(i: nat): (p: nat)
    ensures p > 0
  {
    Pow(BASE, i)
  }

  lemma PAdd(i: nat, j: nat)
    ensures P(i + j) == P(i) * P(j)
  {
    PowAdd(BASE, i, j);
  }

  lemma PNext(i: nat)
    ensures P(i + 1) == BASE * P(i)
  {}

  ghost function Val(s: seq<Limb>): nat {
    if s == [] then 0 else Val(s[..|s| - 1]) + s[|s| - 1] * P(|s| - 1)
  }

  lemma ValNext(s: seq<Limb>, i: nat)
    requires i < |s|
    ensures Val(s[..i + 1]) == Val(s[..i]) + s[i] * P(i)
  {
    assert s[..i + 1][..i] == s[..i];
  }

  /** Storing limb i extends the value of the limbs below it. */
  lemma ValStore(s: seq<Limb>, i: nat, y: Limb)
    requires i < |s|
    ensures Val(s[i := y][..i + 1]) == Val(s[..i]) + y * P(i)
  {
    ValNext(s[i := y], i);
    assert s[i := y][..i] == s[..i];
  }

  lemma ValOne(s: seq<Limb>)
    requires |s| == 1
    ensures Val(s) == s[0]
  {
    assert Val(s[..0]) == 0;
  }

  lemma {:induction false} ValBound(s: seq<Limb>)
    ensures Val(s) < P(|s|)
  {
    if s != [] {
      var n := |s| - 1;
      ValBound(s[..n]);
      PNext(n);
      var top: nat := s[n];
      MulMonotone(top + 1, BASE, P(n));
      assert (top + 1) * P(n) == top * P(n) + P(n);
    }
  }

  /** A nonzero top limb makes the value at least a power of the base. */
  lemma ValTop(s: seq<Limb>)
    requires s != []
    ensures s[|s| - 1] * P(|s| - 1) <= Val(s) < (s[|s| - 1] + 1) * P(|s| - 1)
    ensures s[|s| - 1] > 0 ==> Val(s) >= P(|s| - 1)
  {
    var n := |s| - 1;
    ValBound(s[..n]);
    assert (s[n] + 1) * P(n) == s[n] * P(n) + P(n);
    MulAtLeast(s[n], P(n));
  }

  lemma {:induction false} ValZeros(s: seq<Limb>)
    requires forall i :: 0 <= i < |s| ==> s[i] == 0
    ensures Val(s) == 0
  {
    if s != [] {
      ValZeros(s[..|s| - 1]);
    }
  }

  lemma {:induction false} ValIsZero(s: seq<Limb>)
    requires Val(s) == 0
    ensures forall i :: 0 <= i < |s| ==> s[i] == 0
  {
    if s != [] {
      var n := |s| - 1;
      MulAtLeast(s[n], P(n));
      ValIsZero(s[..n]);
      assert forall i :: 0 <= i < n ==> s[i] == s[..n][i];
    }
  }

  /** The value splits at any limb. */
  lemma {:induction false} ValSplit(s: seq<Limb>, j: nat)
    requires j <= |s|
    ensures Val(s) == Val(s[..j]) + P(j) * Val(s[j..])
    decreases |s|
  {
    var n := |s| - 1;
    if j == |s| {
      assert s[..j] == s;
    } else {
      ValSplit(s[..n], j);
      assert s[..n][..j] == s[..j] && s[..n][j..] == s[j..n];
      assert s[j..][..n - j] == s[j..n];
      PowAdd(BASE, j, n - j);
      SplitStep(Val(s[..j]), P(j), Val(s[j..n]), s[n], P(n - j), P(n));
    }
  }

  lemma SplitStep(v: nat, pj: nat, w: nat, x: nat, pd: nat, pn: nat)
    requires pn == pj * pd
    ensures v + pj * w + x * pn == v + pj * (w + x * pd)
  {
    MulAssociative(x, pj, pd);
    MulAssociative(pj, x, pd);
    assert pj * (w + x * pd) == pj * w + pj * (x * pd);
    assert x * pj == pj * x;
  }

  /** Zero limbs on top change nothing. */
  lemma {:induction false} ValDropZeros(s: seq<Limb>, n: nat)
    requires n <= |s| && forall i :: n <= i < |s| ==> s[i] == 0
    ensures Val(s) == Val(s[..n])
    decreases |s|
  {
    if n < |s| {
      ValDropZeros(s[..|s| - 1], n);
      assert s[..|s| - 1][..n] == s[..n];
    } else {
      assert s[..n] == s;
    }
  }

  /** Limb-wise comparison decides the order of values. */
  lemma ValCompareTop(s: seq<Limb>, t: seq<Limb>, i: nat)
    requires |s| == |t| && i < |s| && s[i + 1..] == t[i + 1..] && s[i] < t[i]
    ensures Val(s) < Val(t)
  {
    ValSplit(s, i + 1);
    ValSplit(t, i + 1);
    ValNext(s, i);
    ValNext(t, i);
    ValBound(s[..i]);
    MulMonotone(s[i] + 1, t[i], P(i));
    assert (s[i] + 1) * P(i) == s[i] * P(i) + P(i);
  }

  /** Fewer limbs mean a smaller value when the top limb of the longer is nonzero. */
  lemma ValCompareLength(s: seq<Limb>, t: seq<Limb>)
    requires |s| < |t| && t[|t| - 1] != 0
    ensures Val(s) < Val(t)
  {
    ValBound(s);
    ValTop(t);
    PMonotone(|s|, |t| - 1);
  }

  lemma {:induction false} PMonotone(i: nat, j: nat)
    requires i <= j
    ensures P(i) <= P(j)
    decreases j
  {
    if i < j {
      PMonotone(i, j - 1);
      PNext(j - 1);
    }
  }

  /** One step of multiplying by m and adding a. */
  lemma MulAddStep(n0: nat, carry: nat, p: nat, v0: nat, m: nat, a: nat, x: nat, lo: nat, hi: nat)
    requires n0 + carry * p == v0 * m + a && x * m + carry == lo + hi * BASE
    ensures n0 + lo * p + hi * (BASE * p) == (v0 + x * p) * m + a
  {
    assert (x * m + carry) * p == (lo + hi * BASE) * p;
    assert (x * m + carry) * p == x * m * p + carry * p;
    assert (lo + hi * BASE) * p == lo * p + hi * (BASE * p);
    assert (v0 + x * p) * m == v0 * m + x * m * p;
  }

  /** One step of subtracting q times a number, with carry of the product and borrow of the difference. */
  lemma SubMulStep(n0: int, p: nat, v0: nat, w0: nat, q: nat, x: nat, s: nat,
                   carry: nat, borrow: nat, lo: nat, hi: nat, d: nat, borrow1: nat)
    requires n0 == v0 - q * w0 + (borrow + carry) * p
    requires s * q + carry == lo + hi * BASE && x - lo - borrow == d - borrow1 * BASE
    ensures n0 + d * p == v0 + x * p - q * (w0 + s * p) + (borrow1 + hi) * (BASE * p)
  {
    assert (s * q + carry) * p == (lo + hi * BASE) * p;
    assert (s * q + carry) * p == s * q * p + carry * p;
    assert (lo + hi * BASE) * p == lo * p + hi * (BASE * p);
    assert (x - lo - borrow) * p == (d - borrow1 * BASE) * p;
    assert (x - lo - borrow) * p == x * p - lo * p - borrow * p;
    assert (d - borrow1 * BASE) * p == d * p - borrow1 * (BASE * p);
    assert q * (w0 + s * p) == q * w0 + s * q * p;
    assert (borrow + carry) * p == borrow * p + carry * p;
    assert (borrow1 + hi) * (BASE * p) == borrow1 * (BASE * p) + hi * (BASE * p);
  }
}
