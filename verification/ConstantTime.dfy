/** The branch-free comparisons of libressl ssl/s3_cbc.c on 32-bit unsigned words. */
module ConstantTime {
  import opened Arithmetic
  import opened MerkleDamgard

  type u32 = x: int | 0 <= x < 0x1_0000_0000

  const ALL_ONES: u32 := 0xffff_ffff

  /** Copy the top bit into all the others. */
  function DuplicateMsbToAll(x: u32): u32 {
    if x >= 0x8000_0000 then ALL_ONES else 0
  }

  /** Wrapping subtraction. */
  function Sub(a: u32, b: u32): u32 {
    (a - b) % 0x1_0000_0000
  }

  function Complement(a: u32): u32 {
    ALL_ONES - a
  }

  /** Bitwise exclusive or of two words. */
  function Xor(a: nat, b: nat): (x: nat)
    ensures x == 0 <==> a == b
  {
    if a == 0 && b == 0 then 0 else 2 * Xor(a / 2, b / 2) + (if a % 2 == b % 2 then 0 else 1)
  }

  lemma {:induction false} XorFits(a: nat, b: nat, k: nat)
    requires a < Pow2(k) && b < Pow2(k)
    ensures Xor(a, b) < Pow2(k)
    decreases k
  {
    if k > 0 {
      XorFits(a / 2, b / 2, k - 1);
    }
  }

  function ConstantTimeLt(a: u32, b: u32): (m: u32)
    ensures a < 0x8000_0000 && b < 0x8000_0000 ==> m == if a < b then ALL_ONES else 0
  {
    DuplicateMsbToAll(Sub(a, b))
  }

  function ConstantTimeGe(a: u32, b: u32): (m: u32)
    ensures m == 0 || m == ALL_ONES
    ensures a < 0x8000_0000 && b < 0x8000_0000 ==> m == if a >= b then ALL_ONES else 0
  {
    DuplicateMsbToAll(Complement(Sub(a, b)))
  }

  /** The mask is the comparison exactly when the operands differ by less than 2^31 either way. */
  lemma ComparisonsAreExactWithinHalfRange(a: u32, b: u32)
    ensures (ConstantTimeLt(a, b) == if a < b then ALL_ONES else 0) <==> -0x8000_0000 <= a - b < 0x8000_0000
    ensures ConstantTimeGe(a, b) == Complement(ConstantTimeLt(a, b))
  {
    if a >= b {
      assert Sub(a, b) == a - b;
    } else {
      assert Sub(a, b) == a - b + 0x1_0000_0000;
    }
  }

  /** A byte of ones when a == b. */
  function ConstantTimeEq8(a: u32, b: u32): (m: bv8) {
    assert Xor(a, b) < 0x1_0000_0000 by {
      Pow2Words();
      XorFits(a, b, 32);
    }
    Byte(DuplicateMsbToAll(Sub(Xor(a, b), 1)))
  }

  /** The decremented difference has its top bit set for equal operands, and for those that differ by more than 2^31. */
  lemma EqualityIsExactForSmallXor(a: u32, b: u32)
    ensures ConstantTimeEq8(a, b) == if a == b || Xor(a, b) > 0x8000_0000 then 0xff else 0
    ensures a < 0x8000_0000 && b < 0x8000_0000 ==> ConstantTimeEq8(a, b) == if a == b then 0xff else 0
  {
    Pow2Words();
    hide Pow;
    XorFits(a, b, 32);
    if a < 0x8000_0000 && b < 0x8000_0000 {
      XorFits(a, b, 31);
    }
    if Xor(a, b) > 0 {
      assert Sub(Xor(a, b), 1) == Xor(a, b) - 1;
    }
  }
}
