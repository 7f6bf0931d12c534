/**
 Division of bundle/lua-cjson-2.1.0.5/dtoa.c: the shift that prepares a divisor, and quorem with its one correction.
 */
module Quorems {
  import opened Arithmetic
  import opened Limbs
  import opened Bigints

  /** hi0bits: the leading zero bits of a word. */
  method Hi0Bits(x0: Limb) returns (k: nat)
    ensures x0 == 0 ==> k == 32
    ensures x0 > 0 ==> k < 32 && Pow2(31 - k) <= x0 < Pow2(32 - k)
  {
    Pow2Small();
    hide Pow, Pow2;
    // each mask test asks whether the word is below a power of two
    var x := x0;
    k := 0;
    if x < 0x1_0000 {
      Shifted(x0, x, k, 16);
      k := 16;
      x := x * 0x1_0000;
    }
    if x < 0x100_0000 {
      Shifted(x0, x, k, 8);
      k := k + 8;
      x := x * 0x100;
    }
    if x < 0x1000_0000 {
      Shifted(x0, x, k, 4);
      k := k + 4;
      x := x * 0x10;
    }
    if x < 0x4000_0000 {
      Shifted(x0, x, k, 2);
      k := k + 2;
      x := x * 4;
    }
    if x < 0x8000_0000 {
      Shifted(x0, x, k, 1);
      k := k + 1;
      if x < 0x4000_0000 {
        return 32;
      }
      LeadingBits(x0, 2 * x, k);
    } else {
      LeadingBits(x0, x, k);
    }
  }

  lemma Pow2Small()
    ensures Pow2(0) == 1 && Pow2(1) == 2 && Pow2(2) == 4 && Pow2(4) == 16 && Pow2(8) == 0x100 && Pow2(16) == 0x1_0000
  {
    Pow2Words();
    assert Pow2(4) == 16;
  }

  lemma Shifted(x0: nat, x: nat, k: nat, d: nat)
    requires x == x0 * Pow2(k)
    ensures x * Pow2(d) == x0 * Pow2(k + d)
  {
    PowAdd(2, k, d);
    MulAssociative(x0, Pow2(k), Pow2(d));
  }

  lemma LeadingBits(x0: nat, x: nat, k: nat)
    requires x == x0 * Pow2(k) && 0x8000_0000 <= x < 0x1_0000_0000 && k < 32
    ensures Pow2(31 - k) <= x0 < Pow2(32 - k)
  {
    hide Pow, Pow2;
    Pow2Add(31 - k, k);
    Pow2Add(32 - k, k);
    assert 31 - k + k == 31 && 32 - k + k == 32;
    Pow2Words();
    MulMonotone(x0, Pow2(31 - k), Pow2(k));
    MulMonotone(Pow2(32 - k), x0, Pow2(k));
  }

  /** dshift: how far to shift S, beyond p2, for four leading zero bits. */
  method Dshift(b: Bigint, p2: int) returns (rv: nat)
    requires b.Normal() && b.wds > 0 && b.Value() > 0
    ensures rv < 32 && FourLeadingZeros(b.Value() * Pow2((if p2 > 0 then p2 else 0) + rv))
  {
    hide Pow, Pow2, Val, FourLeadingZeros;
    var h := Hi0Bits(b.x[b.wds - 1]);
    var r: int := h - 4;
    if p2 > 0 {
      r := r - p2;
    }
    rv := r % 32;
    ghost var s, q := b.x[..b.wds], r / 32;
    ghost var sh := (if p2 > 0 then p2 else 0) + rv;
    assert sh == h - 4 - 32 * q;
    TopNonzero(s);
    BitIndex(s, h);
    ShiftIndex(Val(s), 31 - h + 32 * (b.wds - 1), sh, b.wds - 1 - q);
  }

  /** The top limb of v has exactly four leading zero bits. */
  ghost predicate FourLeadingZeros(v: nat) {
    exists m: nat :: Pow2(27) * P(m) <= v < Pow2(28) * P(m)
  }

  lemma TopNonzero(s: seq<Limb>)
    requires s != [] && Val(s) > 0 && (|s| > 1 ==> s[|s| - 1] != 0)
    ensures s[|s| - 1] > 0
  {
    if |s| == 1 {
      ValOne(s);
    }
  }

  /** The highest bit of a number, from the leading zeros of its top limb. */
  lemma BitIndex(s: seq<Limb>, h: nat)
    requires s != [] && h < 32 && Pow2(31 - h) <= s[|s| - 1] < Pow2(32 - h)
    ensures Pow2(31 - h + 32 * (|s| - 1)) <= Val(s) < Pow2(32 - h + 32 * (|s| - 1))
  {
    hide Pow, Pow2;
    var n := |s| - 1;
    var top: nat := s[n];
    ValTop(s);
    BaseIsPow2(n);
    assert n * 32 == 32 * n;
    Pow2Add(31 - h, 32 * n);
    Pow2Add(32 - h, 32 * n);
    hide P, Val;
    MulMonotone(Pow2(31 - h), top, P(n));
    MulMonotone(top + 1, Pow2(32 - h), P(n));
  }

  lemma ShiftIndex(v: nat, a: nat, sh: nat, m: int)
    requires Pow2(a) <= v < Pow2(a + 1) && a + sh == 32 * m + 27
    ensures FourLeadingZeros(v * Pow2(sh))
  {
    hide Pow, Pow2;
    Pow2Add(a, sh);
    Pow2Add(a + 1, sh);
    BitWindow(v, Pow2(a), Pow2(a + 1), Pow2(sh));
    BaseIsPow2(m);
    Pow2Add(27, m * 32);
    Pow2Add(28, m * 32);
    assert a + sh == 27 + m * 32 && a + 1 + sh == 28 + m * 32;
    assert Pow2(27) * P(m) <= v * Pow2(sh) < Pow2(28) * P(m);
  }

  lemma BitWindow(v: nat, lo: nat, hi: nat, f: nat)
    requires lo <= v < hi && f > 0
    ensures lo * f <= v * f < hi * f
  {
    MulMonotone(lo, v, f);
    MulMonotone(v, hi, f);
  }

  /** In a normal number the window is that of its top limb. */
  lemma TopOf(s: seq<Limb>)
    requires s != [] && (|s| > 1 ==> s[|s| - 1] != 0)
    requires FourLeadingZeros(Val(s))
    ensures 0x800_0000 <= s[|s| - 1] < 0x1000_0000
  {
    Pow2Bits();
    var m: nat :| Pow2(27) * P(m) <= Val(s) < Pow2(28) * P(m);
    hide Pow, Pow2, Val, P;
    var n := |s| - 1;
    var top: nat := s[n];
    MulAtLeast(0x800_0000, P(m));
    TopNonzero(s);
    ValTop(s);
    ValBound(s);
    PNext(n);
    PNext(m);
    SameLimbCount(Val(s), top, m, n);
    TopWindow(Val(s), top, P(n));
  }

  lemma Pow2Bits()
    ensures Pow2(27) == 0x800_0000 && Pow2(28) == 0x1000_0000
  {
    Pow2Words();
    Pow2Small();
    PowAdd(2, 16, 8);
    PowAdd(2, 24, 4);
    PowAdd(2, 24, 2);
    PowAdd(2, 26, 1);
  }

  lemma SameLimbCount(v: nat, top: nat, m: nat, n: nat)
    requires 0x800_0000 * P(m) <= v < 0x1000_0000 * P(m)
    requires P(n) <= v < BASE * P(n)
    ensures m == n
  {
    PNext(n);
    PNext(m);
    hide P;
    if m < n {
      PMonotone(m + 1, n);
    } else if m > n {
      PMonotone(n + 1, m);
    }
  }

  lemma TopWindow(v: nat, top: nat, p: nat)
    requires 0x800_0000 * p <= v < 0x1000_0000 * p && top * p <= v < (top + 1) * p
    ensures 0x800_0000 <= top < 0x1000_0000
  {
    MulMonotone(top + 1, 0x800_0000, p);
    MulMonotone(0x1000_0000, top, p);
  }

  /** The estimate top(b) / (top(S) + 1) is never too large and at most one short. */
  lemma EstimateIsClose(b: nat, s: nat, t: nat, top: nat, p: nat, q: nat)
    requires 16 <= top && 0 < s && b < 16 * s && q == t / (top + 1)
    requires top * p <= s < (top + 1) * p && t * p <= b < (t + 1) * p
    ensures q * s <= b < (q + 2) * s && q <= 15
  {
    var r := t % (top + 1);
    assert t == q * (top + 1) + r;
    EstimateFits(b, s, t, top + 1, p, q);
    MulMonotone(16, q, s);
    EstimateOneShort(b, s, t, top, p, q, r);
  }

  lemma EstimateFits(b: nat, s: nat, t: nat, top1: nat, p: nat, q: nat)
    requires q * top1 <= t && s < top1 * p && t * p <= b
    ensures q * s <= b
  {
    MulMonotone(s, top1 * p, q);
    MulAssociative(q, top1, p);
    MulMonotone(q * top1, t, p);
    assert q * s == s * q && q * (top1 * p) == top1 * p * q;
  }

  /** t + 1 <= (q + 1) * (top + 1) <= (q + 2) * top. */
  lemma EstimateOneShort(b: nat, s: nat, t: nat, top: nat, p: nat, q: nat, r: nat)
    requires t == q * (top + 1) + r && r <= top && q < top && top * p <= s && b < (t + 1) * p
    ensures b < (q + 2) * s
  {
    assert q * (top + 1) == q * top + q && (q + 2) * top == q * top + 2 * top;
    MulMonotone(t + 1, (q + 2) * top, p);
    MulAssociative(q + 2, top, p);
    ScaleBy(q + 2, top * p, s);
  }

  lemma ScaleBy(k: nat, x: nat, y: nat)
    requires x <= y
    ensures k * x <= k * y
  {
    MulMonotone(x, y, k);
    assert k * x == x * k && k * y == y * k;
  }

  /** dtoa.c, lines 2163 to 2190: b := b - q * S on n + 1 limbs; a multiple that fits leaves no borrow. */
  method SubtractMultiple(bx: array<Limb>, sx: array<Limb>, n: nat, q: nat)
    requires n <= bx.Length && n <= sx.Length && bx != sx && q < 0x1_0000
    requires q * Val(sx[..n]) <= Val(bx[..n])
    modifies bx
    ensures Val(bx[..n]) == Val(old(bx[..n])) - q * Val(sx[..n])
    ensures bx[n..] == old(bx[n..])
  {
    hide Val, P, BorrowOf;
    ghost var v, w := bx[..], sx[..];
    var borrow: nat, carry: nat := 0, 0;
    Empty();
    MulZeroRight(q);
    assert v[..0] == [] && w[..0] == [];
    for i := 0 to n
      invariant borrow <= 1 && carry <= q && sx[..] == w && bx[i..] == v[i..]
      invariant Val(bx[..][..i]) == Val(v[..i]) - q * Val(w[..i]) + (borrow + carry) * P(i)
    {
      ghost var now := bx[..];
      assert bx[i] == v[i..][0] == v[i];
      SmallCarry(w[i], q, carry);
      var ys := sx[i] * q + carry;
      var y := bx[i] - ys % BASE - borrow;
      BorrowIsSign(y);
      SubMulStep(Val(now[..i]), P(i), Val(v[..i]), Val(w[..i]), q, v[i], w[i],
                 carry, borrow, ys % BASE, ys / BASE, y % BASE, BorrowOf(y));
      ValNext(v, i);
      ValNext(w, i);
      PNext(i);
      ValStore(now, i, y % BASE);
      carry := ys / BASE;
      borrow := BorrowOf(y);
      bx[i] := y % BASE;
      assert bx[..] == now[i := y % BASE];
      assert bx[i + 1..] == now[i..][1..];
    }
    assert bx[..n] == bx[..][..n] && v[..n] == old(bx[..n]) && w[..n] == sx[..n];
    ValBound(bx[..n]);
    NoBorrowLeft(Val(bx[..n]), P(n), borrow + carry, Val(v[..n]) - q * Val(w[..n]));
  }

  lemma MulZeroRight(q: nat)
    ensures q * 0 == 0 && 0 * q == 0
  {}

  lemma SmallCarry(s: Limb, q: nat, carry: nat)
    requires carry <= q < 0x1_0000
    ensures 0 <= (s * q + carry) / BASE <= q && s * q + carry < WORD64
  {
    LimbTimes(s, q);
    var z: nat := s * q;
    DivAtMost(z + carry, q);
  }

  lemma LimbTimes(s: nat, q: nat)
    requires s <= 0xffff_ffff
    ensures 0 <= s * q <= 0xffff_ffff * q
  {
    MulMonotone(s, 0xffff_ffff, q);
  }

  lemma DivAtMost(z: nat, q: nat)
    requires z <= 0xffff_ffff * q + q && q < 0x1_0000
    ensures z / BASE <= q && z < WORD64
  {}

  /** dtoa.c, lines 2191 to 2196 and 2234 to 2238: forget zero limbs, below the last of them only down to one. */
  method Shrink(b: Bigint, n: nat)
    requires b.Valid() && n < b.wds && n + 1 == b.wds && b.x[n] == 0
    modifies b`wds
    ensures b.Normal() && b.wds <= n && b.Value() == old(b.Value())
  {
    hide P, Val;
    ghost var s := b.x[..];
    var m, e := n, n;
    while e - 1 > 0 && b.x[e - 1] == 0
      invariant m == e && 0 <= e <= n && b.wds == n + 1
      invariant forall i :: e <= i <= n ==> b.x[i] == 0
    {
      m := m - 1;
      e := e - 1;
    }
    b.wds := m;
    ValDropZeros(s[..n + 1], m);
    assert s[..n + 1][..m] == s[..m] == b.x[..m];
  }

  /** q is the quotient and r the remainder of v by d. */
  ghost predicate Divides(v: nat, d: nat, q: nat, r: nat) {
    v == q * d + r && r < d
  }

  lemma DividesIsFloor(v: nat, d: nat, q: nat, r: nat)
    requires d > 0
    ensures Divides(v, d, q, r) <==> q == v / d && r == v % d
  {
    if Divides(v, d, q, r) {
      DivModUnique(v, d, q, r);
    }
  }

  /** quorem: the digit b / S, leaving b mod S in b. */
  method Quorem(b: Bigint, S: Bigint) returns (q: nat)
    requires b != S && b.x != S.x && b.Normal() && S.Normal() && S.wds > 0
    requires FourLeadingZeros(S.Value()) && b.Value() < 16 * S.Value()
    modifies b, b.x
    ensures b.Normal() && S.Value() > 0
    ensures Divides(old(b.Value()), S.Value(), q, b.Value())
    ensures b.wds <= S.wds
  {
    hide P, Val, FourLeadingZeros;
    ghost var v, d := b.Value(), S.Value();
    Limits(b, S);
    CompareLengths(b, S);
    var n := S.wds;
    if b.wds < n {
      MulZeroRight(d);
      return 0;
    }
    ghost var s := S.x[..S.wds];
    n := n - 1;
    var top: nat := S.x[n];
    q := b.x[n] / (top + 1);
    ValTop(b.x[..n + 1]);
    ValTop(s);
    TopOf(s);
    EstimateIsClose(v, d, b.x[n], top, P(n), q);
    if q > 0 {
      SubtractMultiple(b.x, S.x, n + 1, q);
      if b.x[n] == 0 {
        Shrink(b, n);
      }
    } else {
      MulZeroRight(d);
    }
    ghost var u := b.Value();
    assert u == v - q * d;
    Remaining(v, d, q, u);
    q := Correct(b, S, q);
  }

  /** dtoa.c, lines 2198 to 2240: one more S if it still fits. */
  method Correct(b: Bigint, S: Bigint, q0: nat) returns (q: nat)
    requires b != S && b.x != S.x && b.Normal() && S.Normal() && S.wds > 0 && S.Value() > 0 && b.wds <= S.wds
    modifies b, b.x
    ensures b.Normal() && b.wds <= S.wds
    ensures if old(b.Value()) < S.Value() then q == q0 && b.Value() == old(b.Value())
            else q == q0 + 1 && b.Value() == old(b.Value()) - S.Value()
  {
    hide P, Val;
    q := q0;
    CompareLengths(b, S);
    var c := Cmp(b, S);
    if c >= 0 {
      q := q + 1;
      var n := S.wds - 1;
      MulOne(S.Value());
      SubtractMultiple(b.x, S.x, n + 1, 1);
      if b.x[n] == 0 {
        Shrink(b, n);
      }
    }
  }

  lemma MulOne(d: nat)
    ensures 1 * d == d
  {}

  /** At most one correction is due. */
  lemma Remaining(v: nat, d: nat, q: nat, u: nat)
    requires d > 0 && u == v - q * d && v < (q + 2) * d
    ensures u < 2 * d
    ensures u < d ==> Divides(v, d, q, u)
    ensures u >= d ==> Divides(v, d, q + 1, u - d)
  {
    assert (q + 2) * d == q * d + 2 * d && (q + 1) * d == q * d + d;
  }

  /** b has no more limbs than S. */
  lemma Limits(b: Bigint, S: Bigint)
    requires b.Normal() && S.Normal() && S.wds > 0
    requires FourLeadingZeros(S.Value()) && b.Value() < 16 * S.Value()
    ensures b.wds <= S.wds && S.Value() > 0
  {
    var s, t := S.x[..S.wds], b.x[..b.wds];
    TopOf(s);
    ValTop(s);
    if b.wds > S.wds {
      ValTop(t);
      PMonotone(S.wds, b.wds - 1);
      PNext(S.wds - 1);
      MulMonotone(s[S.wds - 1] + 1, 0x1000_0000, P(S.wds - 1));
    }
    MulAtLeast(s[S.wds - 1], P(S.wds - 1));
  }
}
