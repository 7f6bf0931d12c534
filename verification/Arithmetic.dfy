/** Quotients, remainders and powers. */
module Arithmetic {

  /** A quotient with a remainder below the divisor is the quotient. */
  lemma DivModUnique(a: int, d: nat, q: int, r: int)
    requires d > 0 && a == q * d + r && 0 <= r < d
    ensures a / d == q && a % d == r
  {
    var q1, r1 := a / d, a % d;
    assert a == q1 * d + r1;
    assert (q - q1) * d == r1 - r && (q1 - q) * d == r - r1;
    MulAtLeast(q - q1, d);
    MulAtLeast(q1 - q, d);
  }

  lemma MulAtLeast(x: int, d: nat)
    ensures x >= 1 ==> x * d >= d
  {
    assert x * d == (x - 1) * d + d;
  }

  lemma MulMonotone(x: int, y: int, d: nat)
    ensures x <= y ==> x * d <= y * d
    ensures x < y ==> x * d + d <= y * d
  {
    MulAtLeast(y - x, d);
    assert (y - x) * d == y * d - x * d;
    if x < y {
      assert (x + 1) * d == x * d + d;
    }
  }

  function Pow(b: nat, k: nat): (p: nat)
    ensures b > 0 ==> p > 0
  {
    if k == 0 then 1 else b * Pow(b, k - 1)
  }

  function Pow2(k: nat): (p: nat)
    ensures p > 0
  {
    Pow(2, k)
  }

  lemma {:induction false} PowAdd(b: nat, j: nat, k: nat)
    ensures Pow(b, j + k) == Pow(b, j) * Pow(b, k)
  {
    if j > 0 {
      PowAdd(b, j - 1, k);
      MulAssociative(b, Pow(b, j - 1), Pow(b, k));
    }
  }

  lemma MulAssociative(x: int, y: int, z: int)
    ensures x * (y * z) == x * y * z
  {}

  lemma Pow2Add(j: nat, k: nat)
    ensures Pow2(j + k) == Pow2(j) * Pow2(k)
  {
    PowAdd(2, j, k);
  }

  lemma Pow2Words()
    ensures Pow2(8) == 0x100 && Pow2(16) == 0x1_0000
    ensures Pow2(31) == 0x8000_0000 && Pow2(32) == 0x1_0000_0000
  {
    assert Pow2(8) == 0x100;
    PowAdd(2, 8, 8);
    PowAdd(2, 16, 16);
  }
}
