/**
 Big integers of David Gay's dtoa (bundle/lua-cjson-2.1.0.5/dtoa.c): limbs in an array, carries and borrows in loops.
 */
module Bigints {
  import opened Arithmetic
  import opened Limbs
  import opened Memory

  const WORD64: nat := 0x1_0000_0000_0000_0000

  class Bigint {
    const k: nat
    const x: array<Limb>
    var sign: nat
    var wds: nat
    var next: Bigint?

    /** Balloc: room for 2^k limbs, not cleared. Allocator.Pool shows that a recycled block is never live. */
    constructor Balloc(k: nat)
      ensures this.k == k && x.Length == Pow2(k) && fresh(x)
      ensures sign == 0 && wds == 0
    {
      this.k := k;
      x := new Limb[Pow2(k)];
      sign, wds, next := 0, 0, null;
    }

    ghost predicate Valid()
      reads this
    {
      x.Length == Pow2(k) && wds <= x.Length
    }

    /** A nonzero top limb, save in numbers of one limb; zero may also have no limb at all. */
    ghost predicate Normal()
      reads this, x
    {
      && Valid()
      && (wds > 1 ==> x[wds - 1] != 0)
      && (wds == 0 ==> x[0] == 0)
    }

    ghost function Value(): nat
      requires Valid()
      reads this, x
    {
      Val(x[..wds])
    }
  }

  /** What `y >> 32 & 1` is after a subtraction in 64 bits. */
  function BorrowOf(t: int): nat {
    t % WORD64 / BASE % 2
  }

  lemma BorrowIsSign(t: int)
    requires -BASE <= t < BASE
    ensures BorrowOf(t) == if t < 0 then 1 else 0
    ensures t == t % BASE - BorrowOf(t) * BASE
  {
    if t < 0 {
      DivModUnique(t, WORD64, -1, t + WORD64);
      DivModUnique(t + WORD64, BASE, BASE - 1, t + BASE);
      DivModUnique(t, BASE, -1, t + BASE);
    }
  }

  /** A number of several limbs is normal when its value needs them all. */
  lemma TopLimbNeeded(s: seq<Limb>)
    requires s != [] && Val(s) >= P(|s| - 1)
    ensures s[|s| - 1] != 0
  {
    if s[|s| - 1] == 0 {
      ValDropZeros(s, |s| - 1);
      ValBound(s[..|s| - 1]);
    }
  }

  /** multadd: multiply by m and add a, in place unless a limb has to be added to a full block. */
  method MultAdd(b: Bigint, m: nat, a: nat) returns (r: Bigint)
    requires b.Normal() && 0 < m < 0x8000_0000 && a < 0x8000_0000 && (b.wds > 0 || a == 0)
    modifies b, b.x
    ensures r == b || (fresh(r) && fresh(r.x))
    ensures r.Normal() && r.Value() == old(b.Value()) * m + a
    ensures r.wds >= old(b.wds) && r.sign == old(b.sign)
  {
    if b.wds == 0 {
      // the first limb is zero and stays zero
      b.x[0] := b.x[0] * m % BASE;
      assert b.x[..0] == [];
      return b;
    }
    ghost var s := b.x[..b.wds];
    var carry := MultAddLimbs(b.x, b.wds, m, a);
    ValTop(s);
    ScaledTop(Val(s), m, a, P(b.wds - 1));
    if carry != 0 {
      r := Append(b, carry);
    } else {
      if b.wds > 1 {
        TopLimbNeeded(b.x[..b.wds]);
      }
      r := b;
    }
  }

  /** The loop of multadd; what it returns did not fit. */
  method MultAddLimbs(x: array<Limb>, wds: nat, m: nat, a: nat) returns (carry: nat)
    requires wds <= x.Length && m < 0x8000_0000 && a < 0x8000_0000
    modifies x
    ensures carry < 0x8000_0000 && Val(x[..wds]) + carry * P(wds) == Val(old(x[..wds])) * m + a
    ensures x[wds..] == old(x[wds..])
  {
    hide Val, P;
    ghost var s := x[..];
    carry := a;
    assert s[..0] == [] && Val([]) == 0 && P(0) == 1 by { Empty(); }
    for i := 0 to wds
      invariant carry < 0x8000_0000 && x[i..] == s[i..]
      invariant Val(x[..][..i]) + carry * P(i) == Val(s[..i]) * m + a
    {
      ghost var now := x[..];
      assert x[i] == s[i..][0] == s[i];
      MultiplyCarry(s[i], m, carry);
      var y := x[i] * m + carry;
      MulAddStep(Val(now[..i]), carry, P(i), Val(s[..i]), m, a, s[i], y % BASE, y / BASE);
      ValNext(s, i);
      PNext(i);
      ValStore(now, i, y % BASE);
      carry := y / BASE;
      x[i] := y % BASE;
      assert x[..] == now[i := y % BASE];
      assert x[i + 1..] == now[i..][1..];
    }
    assert x[..wds] == x[..][..wds] && old(x[..wds]) == s[..wds];
  }

  lemma Empty()
    ensures Val([]) == 0 && P(0) == 1
  {}

  /** dtoa.c, lines 656 to 665: one more limb, in a block twice as large if need be. */
  method Append(b: Bigint, carry: Limb) returns (r: Bigint)
    requires b.Valid() && b.wds > 0 && carry != 0
    modifies b, b.x
    ensures r == b || (fresh(r) && fresh(r.x))
    ensures r.Normal() && r.Value() == Val(old(b.x[..b.wds])) + carry * P(old(b.wds))
    ensures r.wds == old(b.wds) + 1 && r.sign == old(b.sign)
  {
    var wds := b.wds;
    r := b;
    if wds >= b.x.Length {
      var b1 := new Bigint.Balloc(b.k + 1);
      CopyLimbs(b1.x, b.x, wds);
      b1.sign := b.sign;
      r := b1;
    }
    ghost var low := b.x[..wds];
    ghost var now := r.x[..];
    assert now[..wds] == low;
    ValStore(now, wds, carry);
    r.x[wds] := carry;
    r.wds := wds + 1;
    assert r.x[..r.wds] == now[wds := carry][..wds + 1];
  }

  lemma MultiplyCarry(x: Limb, m: nat, carry: nat)
    requires m < 0x8000_0000 && carry < 0x8000_0000
    ensures (x * m + carry) / BASE < 0x8000_0000 && x * m + carry < WORD64
  {
    MulMonotone(x, BASE - 1, m);
    assert x * m + carry < 0x8000_0000 * BASE;
  }

  lemma ScaledTop(v: nat, m: nat, a: nat, p: nat)
    requires m > 0
    ensures v >= p ==> v * m + a >= p
  {
    MulMonotone(1, m, v);
  }

  /** memcpy of limbs. */
  method CopyLimbs(dst: array<Limb>, src: array<Limb>, n: nat)
    requires n <= dst.Length && n <= src.Length && dst != src
    modifies dst
    ensures dst[..n] == src[..n]
  {
    for i := 0 to n
      invariant dst[..i] == src[..i]
    {
      dst[i] := src[i];
    }
  }

  /** cmp: negative, zero or positive as a is below, equal to or above b. */
  method Cmp(a: Bigint, b: Bigint) returns (r: int)
    requires a.Normal() && b.Normal()
    ensures a.Value() < b.Value() ==> r < 0
    ensures a.Value() > b.Value() ==> r > 0
    ensures a.Value() == b.Value() ==> (r == 0 <==> (a.wds == 0 <==> b.wds == 0))
    ensures a.Value() == b.Value() && a.wds == 0 < b.wds ==> r < 0
  {
    var i, j := a.wds, b.wds;
    CompareLengths(a, b);
    if i != j {
      return i - j;
    }
    ghost var s, t := a.x[..i], b.x[..j];
    while j > 0
      invariant j <= i && s[j..] == t[j..]
    {
      j := j - 1;
      if a.x[j] != b.x[j] {
        if a.x[j] < b.x[j] {
          ValCompareTop(s, t, j);
          return -1;
        } else {
          ValCompareTop(t, s, j);
          return 1;
        }
      }
      assert s[j..] == [s[j]] + s[j + 1..] && t[j..] == [t[j]] + t[j + 1..];
    }
    assert s == t;
    return 0;
  }

  /** Different limb counts decide the order, save between the two forms of zero. */
  lemma CompareLengths(a: Bigint, b: Bigint)
    requires a.Normal() && b.Normal()
    ensures a.wds < b.wds ==> a.Value() < b.Value() || (a.Value() == b.Value() == 0 && a.wds == 0)
    ensures b.wds < a.wds ==> b.Value() < a.Value() || (a.Value() == b.Value() == 0 && b.wds == 0)
  {
    if a.wds < b.wds {
      LengthsOrder(a.x[..a.wds], b.x[..b.wds]);
    } else if b.wds < a.wds {
      LengthsOrder(b.x[..b.wds], a.x[..a.wds]);
    }
  }

  lemma LengthsOrder(s: seq<Limb>, t: seq<Limb>)
    requires |s| < |t| && (|t| > 1 ==> t[|t| - 1] != 0)
    ensures Val(s) < Val(t) || (Val(s) == Val(t) == 0 && |s| == 0)
  {
    if |t| > 1 || t[0] != 0 {
      ValCompareLength(s, t);
    } else {
      ValOne(t);
    }
  }

  /** diff: |a - b|, with the sign set when a < b. */
  method Diff(a: Bigint, b: Bigint) returns (c: Bigint)
    requires a.Normal() && b.Normal() && a.wds > 0 && b.wds > 0
    ensures fresh(c) && fresh(c.x) && c.Normal() && c.wds > 0
    ensures c.sign == (if a.Value() < b.Value() then 1 else 0)
    ensures c.Value() == if a.Value() < b.Value() then b.Value() - a.Value() else a.Value() - b.Value()
  {
    var i := Cmp(a, b);
    if i == 0 {
      c := new Bigint.Balloc(0);
      c.wds := 1;
      c.x[0] := 0;
      ValOne(c.x[..1]);
      return;
    }
    if i < 0 {
      c := Subtract(b, a);
      c.sign := 1;
    } else {
      c := Subtract(a, b);
    }
  }

  /** The borrow loops of diff and the trimming after them, for a > b. */
  method Subtract(a: Bigint, b: Bigint) returns (c: Bigint)
    requires a.Normal() && b.Normal() && a.wds > 0 && b.wds > 0 && a.Value() > b.Value()
    ensures fresh(c) && fresh(c.x) && c.Normal() && c.wds > 0
    ensures c.sign == 0 && c.Value() == a.Value() - b.Value()
  {
    c := new Bigint.Balloc(a.k);
    CompareLengths(a, b);
    var wa := a.wds;
    var borrow := BorrowLoop(c.x, a.x, wa, b.x, b.wds);
    ValBound(c.x[..wa]);
    NoBorrowLeft(Val(c.x[..wa]), P(wa), borrow, a.Value() - b.Value());
    c.wds := Trim(c.x, wa);
  }

  lemma NoBorrowLeft(v: nat, p: nat, borrow: nat, d: int)
    requires v == d + borrow * p && v < p && d >= 0
    ensures borrow == 0 && v == d
  {
    MulAtLeast(borrow, p);
  }

  /** dtoa.c, lines 1114 to 1124: a - b limb by limb, past the end of b with its limbs as zeros. */
  method BorrowLoop(xc: array<Limb>, xa: array<Limb>, wa: nat, xb: array<Limb>, wb: nat) returns (borrow: nat)
    requires wb <= wa <= xc.Length && wa <= xa.Length && wb <= xb.Length && xc != xa && xc != xb
    modifies xc
    ensures borrow <= 1 && Val(xc[..wa]) == Val(xa[..wa]) - Val(xb[..wb]) + borrow * P(wa)
  {
    hide Val, P, BorrowOf;
    ghost var s, t := xa[..], xb[..];
    borrow := 0;
    Empty();
    var i := 0;
    assert s[..0] == [] && t[..0] == [] && xc[..][..0] == [];
    while i < wb
      invariant i <= wb && borrow <= 1 && xa[..] == s && xb[..] == t
      invariant Val(xc[..][..i]) == Val(s[..i]) - Val(t[..i]) + borrow * P(i)
    {
      ghost var now := xc[..];
      var y := xa[i] - xb[i] - borrow;
      BorrowIsSign(y);
      ghost var si: int, ti: int := s[i], t[i];
      SubStep(Val(now[..i]), P(i), Val(s[..i]) - Val(t[..i]), si - ti, borrow, y % BASE, BorrowOf(y));
      ValNext(s, i);
      ValNext(t, i);
      PNext(i);
      ValStore(now, i, y % BASE);
      DifferenceOfProducts(s[i], t[i], P(i));
      borrow := BorrowOf(y);
      xc[i] := y % BASE;
      assert xc[..] == now[i := y % BASE];
      i := i + 1;
    }
    while i < wa
      invariant wb <= i <= wa && borrow <= 1 && xa[..] == s && xb[..] == t
      invariant Val(xc[..][..i]) == Val(s[..i]) - Val(t[..wb]) + borrow * P(i)
    {
      ghost var now := xc[..];
      var y := xa[i] - borrow;
      BorrowIsSign(y);
      SubStep(Val(now[..i]), P(i), Val(s[..i]) - Val(t[..wb]), s[i], borrow, y % BASE, BorrowOf(y));
      ValNext(s, i);
      PNext(i);
      ValStore(now, i, y % BASE);
      borrow := BorrowOf(y);
      xc[i] := y % BASE;
      assert xc[..] == now[i := y % BASE];
      i := i + 1;
    }
    assert xc[..wa] == xc[..][..wa] && xa[..wa] == s[..wa] && xb[..wb] == t[..wb];
  }

  lemma SubStep(n0: int, p: nat, v0: int, x: int, borrow: nat, d: nat, borrow1: nat)
    requires n0 == v0 + borrow * p && x - borrow == d - borrow1 * BASE
    ensures n0 + d * p == v0 + x * p + borrow1 * (BASE * p)
  {
    assert (x - borrow) * p == (d - borrow1 * BASE) * p;
    assert (x - borrow) * p == x * p - borrow * p;
    assert (d - borrow1 * BASE) * p == d * p - borrow1 * (BASE * p);
  }

  lemma DifferenceOfProducts(x: int, y: int, p: nat)
    ensures (x - y) * p == x * p - y * p
  {}

  /** Drop zero limbs from the top, down to one. */
  method Trim(x: array<Limb>, n: nat) returns (wds: nat)
    requires 0 < n <= x.Length && Val(x[..n]) > 0
    ensures 0 < wds <= n && x[wds - 1] != 0 && Val(x[..wds]) == Val(x[..n])
  {
    wds := n;
    while x[wds - 1] == 0
      invariant 0 < wds <= n && Val(x[..wds]) == Val(x[..n])
      decreases wds
    {
      ghost var s := x[..wds];
      ValDropZeros(s, wds - 1);
      assert s[..wds - 1] == x[..wds - 1];
      assert wds > 1 by {
        if wds == 1 {
          ValOne(s);
        }
      }
      wds := wds - 1;
    }
  }

  lemma ValuelessIsZero(b: Bigint)
    requires b.Normal()
    ensures b.wds == 0 ==> b.Value() == 0
  {
    if b.wds == 0 {
      assert b.x[..0] == [];
    }
  }

  /** lshift: multiply by 2^k in a new block. A zero that is shifted by whole limbs gets as many zero limbs. */
  method Lshift(b: Bigint, k: nat) returns (b1: Bigint)
    requires b.Normal() && b.wds > 0
    ensures fresh(b1) && fresh(b1.x) && b1.Valid() && b1.wds > 0
    ensures b1.Value() == b.Value() * Pow2(k)
    ensures b1.Normal() <==> b.Value() > 0 || k < 32
  {
    hide Val, P, Pow, Pow2;
    var n := k / 32;
    var wds := b.wds;
    var n1 := n + wds + 1;
    b1 := Room(b, n1);
    var z := ShiftInto(b1.x, n, b.x, wds, k % 32);
    if z != 0 {
      n1 := n1 + 1;
    }
    b1.wds := n1 - 1;
    ghost var low := b1.x[..n + wds];
    assert low[n..] == b1.x[n..n + wds];
    assert b1.x[..n1 - 1] == if z != 0 then low + [z] else low;
    ShiftedValue(low, n, wds, b.Value(), k, z);
    if b.Value() > 0 {
      ShiftedNormal(b.x[..wds], low, n, wds, k, z);
    } else {
      ShiftedZero(b.x[..wds], b1.x[..b1.wds], k);
    }
  }

  /** dtoa.c, lines 996 to 1027: zero limbs, then the limbs, shifted by less than one limb. */
  method ShiftInto(x1: array<Limb>, n: nat, x: array<Limb>, wds: nat, k: nat) returns (z: Limb)
    requires k < 32 && wds <= x.Length && n + wds < x1.Length && x != x1
    modifies x1
    ensures forall i :: 0 <= i < n ==> x1[i] == 0
    ensures Val(x1[n..n + wds]) + z * P(wds) == Val(x[..wds]) * Pow2(k)
    ensures z != 0 ==> x1[n + wds] == z
  {
    hide Val, P, Pow, Pow2;
    ghost var s := x[..wds];
    MemSet(x1, 0, 0, n);
    assert x[..wds] == s;
    assert x1[..n] == seq(n, _ => 0);
    z := 0;
    if k != 0 {
      var carry := ShiftLimbs(x1, n, x, wds, k);
      ghost var low, zeros := x1[n..n + wds], x1[..n];
      x1[n + wds] := carry;
      assert x1[n..n + wds] == low && x1[..n] == zeros;
      z := carry;
    } else {
      MemCpy(x1, n, x[..wds]);
      assert x1[n..n + wds] == x[..wds] == s;
      Unshifted(Val(s), P(wds));
    }
    assert x1[..n] == seq(n, _ => 0);
  }

  lemma Unshifted(v: nat, p: nat)
    ensures v + 0 * p == v * Pow2(0)
  {}

  /** All limbs of a shifted zero are zero. */
  lemma ShiftedZero(s: seq<Limb>, r: seq<Limb>, k: nat)
    requires Val(s) == 0 && |s| > 0 && (|s| > 1 ==> s[|s| - 1] != 0) && Val(r) == Val(s) * Pow2(k)
    ensures |s| == 1 && forall i :: 0 <= i < |r| ==> r[i] == 0
  {
    if |s| > 1 {
      ValTop(s);
    }
    ValIsZero(r);
  }

  lemma ShiftedNormal(s: seq<Limb>, low: seq<Limb>, n: nat, wds: nat, k: nat, z: Limb)
    requires n == k / 32 && |s| == wds > 0 && |low| == n + wds && Val(s) > 0 && (wds > 1 ==> s[wds - 1] != 0)
    requires z == 0 ==> Val(low) == Val(s) * Pow2(k)
    ensures z == 0 ==> low[n + wds - 1] != 0
  {
    ValTop(s);
    BaseIsPow2(n);
    PowAdd(2, n * 32, k % 32);
    assert n * 32 + k % 32 == k;
    ShiftedTop(Val(s), wds, n, Pow2(k % 32), Pow2(k));
    if z == 0 {
      TopLimbNeeded(low);
    }
  }

  /** dtoa.c, lines 991 to 995: a block of the smallest class that holds n1 limbs, not below that of b. */
  method Room(b: Bigint, n1: nat) returns (b1: Bigint)
    requires b.Valid()
    ensures fresh(b1) && fresh(b1.x) && b1.Valid() && b1.x.Length >= n1 && b1.wds == 0 && b1.k >= b.k
  {
    var k1: nat := b.k;
    var i := b.x.Length;
    while n1 > i
      invariant k1 >= b.k && i == Pow2(k1)
    {
      Pow2Next(k1);
      k1 := k1 + 1;
      i := i * 2;
    }
    b1 := new Bigint.Balloc(k1);
  }

  /** dtoa.c, lines 1003 to 1009: each limb shifted, with the bits shifted out of the one below. */
  method ShiftLimbs(x1: array<Limb>, n: nat, x: array<Limb>, wds: nat, k: nat) returns (z: nat)
    requires 0 < k < 32 && wds <= x.Length && n + wds <= x1.Length && x != x1
    modifies x1
    ensures z < BASE && Val(x1[n..n + wds]) + z * P(wds) == Val(x[..wds]) * Pow2(k)
    ensures x1[..n] == old(x1[..n])
  {
    Pow2Below(k, 32);
    hide Val, P, Pow, Pow2, ShiftedTo;
    ghost var s := x[..];
    var f := Pow2(k);
    z := 0;
    NothingShifted(x1[n..], s, f);
    for i := 0 to wds
      invariant z < f && x[..] == s && x1[..n] == old(x1[..n])
      invariant ShiftedTo(x1[n..], s, i, f, z)
    {
      ghost var now := x1[n..];
      LimbShifted(now, s, i, f, k, z);
      // the shifted limb has zeros where the bits of z go
      var y := x[i] * f % BASE + z;
      z := x[i] * f / BASE;
      x1[n + i] := y;
      assert x1[n..] == now[i := y];
    }
    assert x1[n..n + wds] == x1[n..][..wds] && x[..wds] == s[..wds];
    assert Val(x1[n..][..wds]) + z * P(wds) == Val(s[..wds]) * f by { ShiftedToIs(x1[n..], s, wds, f, z); }
  }

  /** The first i limbs are shifted, with z carried out of them. */
  ghost predicate ShiftedTo(now: seq<Limb>, s: seq<Limb>, i: nat, f: nat, z: nat) {
    i <= |now| && i <= |s| && Val(now[..i]) + z * P(i) == Val(s[..i]) * f
  }

  lemma ShiftedToIs(now: seq<Limb>, s: seq<Limb>, i: nat, f: nat, z: nat)
    requires ShiftedTo(now, s, i, f, z)
    ensures i <= |now| && i <= |s| && Val(now[..i]) + z * P(i) == Val(s[..i]) * f
  {}

  lemma NothingShifted(now: seq<Limb>, s: seq<Limb>, f: nat)
    ensures ShiftedTo(now, s, 0, f, 0)
  {
    Empty();
  }

  lemma LimbShifted(now: seq<Limb>, s: seq<Limb>, i: nat, f: nat, k: nat, z: nat)
    requires 0 < k < 32 && f == Pow2(k) && z < f && i < |s| && i < |now| && ShiftedTo(now, s, i, f, z)
    ensures var y, z1 := s[i] * f % BASE + z, s[i] * f / BASE;
      0 <= y < BASE && 0 <= z1 < f && ShiftedTo(now[i := y], s, i + 1, f, z1)
  {
    hide Val, P, Pow, Pow2;
    ShiftCarry(s[i], f, k, z);
    var y, z1 := s[i] * f % BASE + z, s[i] * f / BASE;
    assert s[i] * f + z == y + z1 * BASE;
    MulAddStep(Val(now[..i]), z, P(i), Val(s[..i]), f, 0, s[i], y, z1);
    ValNext(s, i);
    PNext(i);
    ValStore(now, i, y);
  }

  lemma Pow2Below(k: nat, n: nat)
    requires k < n <= 32
    ensures Pow2(k) * Pow2(n - k) == Pow2(n) <= BASE && 2 * Pow2(k) <= Pow2(n)
  {
    Pow2Next(k);
    Pow2Words();
    hide Pow2;
    Pow2Add(k, n - k);
    Pow2Monotone(n, 32);
    Pow2Monotone(k + 1, n);
  }

  lemma Pow2Monotone(j: nat, k: nat)
    requires j <= k
    ensures Pow2(j) <= Pow2(k)
  {
    hide Pow2;
    Pow2Add(j, k - j);
    MulMonotone(1, Pow2(k - j), Pow2(j));
    assert Pow2(k - j) * Pow2(j) == Pow2(j) * Pow2(k - j);
  }

  lemma Pow2Next(k: nat)
    ensures Pow2(k + 1) == 2 * Pow2(k)
  {}

  /** The low part of a shifted limb is a multiple of 2^k, so the carried bits fit below it. */
  lemma ShiftCarry(x: Limb, f: nat, k: nat, z: nat)
    requires 0 < k < 32 && f == Pow2(k) && z < f
    ensures x * f % BASE <= BASE - f
    ensures 0 <= x * f % BASE + z < BASE && 0 <= x * f / BASE < f
  {
    hide Pow, Pow2;
    Pow2Below(k, 32);
    Pow2Words();
    var g := Pow2(32 - k);
    var q, r := x / g, x % g;
    ShiftParts(x, f, g, q, r);
  }

  lemma ShiftParts(x: Limb, f: nat, g: nat, q: nat, r: nat)
    requires f * g == BASE && g > 0 && x == q * g + r && r < g
    ensures x * f % BASE <= BASE - f && 0 <= x * f / BASE < f
  {
    assert x * f == q * BASE + r * f by {
      assert x * f == q * g * f + r * f;
      MulAssociative(q, g, f);
      assert g * f == f * g;
    }
    MulMonotone(r, g, f);
    assert r * f + f <= BASE by { assert g * f == f * g; }
    DivModUnique(x * f, BASE, q, r * f);
    MulMonotone(f, q, g);
  }

  /** n zero limbs, the shifted limbs and what was carried out of them. */
  lemma ShiftedValue(low: seq<Limb>, n: nat, wds: nat, v: nat, k: nat, z: Limb)
    requires |low| == n + wds && n == k / 32
    requires forall i :: 0 <= i < n ==> low[i] == 0
    requires Val(low[n..]) + z * P(wds) == v * Pow2(k % 32)
    ensures Val(low + [z]) == v * Pow2(k)
    ensures z == 0 ==> Val(low) == v * Pow2(k)
  {
    hide Pow, Pow2, P, Val;
    var t := low + [z];
    ValSplit(t, n);
    ValZeros(t[..n]);
    ValNext(t[n..], wds);
    assert t[n..][..wds] == low[n..] && t[n..][..wds + 1] == t[n..] && t[..n + wds] == low;
    BaseIsPow2(n);
    Pow2Add(n * 32, k % 32);
    assert n * 32 + k % 32 == k;
    Reorder(P(n), v, Pow2(k % 32));
    if z == 0 {
      ValDropZeros(t, n + wds);
    }
  }

  lemma Reorder(x: nat, y: nat, z: nat)
    ensures x * (y * z) == y * (x * z)
  {}

  lemma {:induction false} BaseIsPow2(n: nat)
    ensures P(n) == Pow2(n * 32)
  {
    if n > 0 {
      BaseIsPow2(n - 1);
      PNext(n - 1);
      PowAdd(2, 32, (n - 1) * 32);
      Pow2Words();
    } else {
      Empty();
    }
  }

  /** A shifted number needs the limbs it gets. */
  lemma ShiftedTop(v: nat, wds: nat, n: nat, f: nat, g: nat)
    requires wds > 0 && (wds > 1 ==> v >= P(wds - 1)) && v > 0 && f > 0 && g == P(n) * f
    ensures v * g >= P(n + wds - 1)
  {
    hide P;
    if wds == 1 {
      ScaleUp(v, g, 1, P(n), f);
    } else {
      PAdd(wds - 1, n);
      ScaleUp(v, g, P(wds - 1), P(n), f);
    }
  }

  lemma ScaleUp(v: nat, g: nat, w: nat, p: nat, f: nat)
    requires v >= w && f >= 1 && g == p * f
    ensures v * g >= w * p
  {
    MulMonotone(w, v, g);
    MulMonotone(1, f, p);
    assert f * p == p * f;
    MulMonotone(p, g, w);
    assert w * p == p * w && w * g == g * w;
  }
}
