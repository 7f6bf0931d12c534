/** Multiplication and powers of five of bundle/lua-cjson-2.1.0.5/dtoa.c. */
module BigintMul {
  import opened Arithmetic
  import opened Limbs
  import opened Bigints

  /** mult: the product, in a block of the larger factor's class or the next one. */
  method Mult(a0: Bigint, b0: Bigint) returns (c: Bigint)
    requires a0.Normal() && b0.Normal()
    ensures fresh(c) && fresh(c.x) && c.Valid() && (a0.wds + b0.wds > 0 ==> c.Normal())
    ensures c.Value() == a0.Value() * b0.Value()
    ensures a0.Value() > 0 && b0.Value() > 0 ==> c.wds > 0
  {
    hide Val, P, Pow;
    var a, b := a0, b0;
    if a.wds < b.wds {
      a, b := b, a;
    }
    var k := a.k;
    var wa, wb := a.wds, b.wds;
    var wc := wa + wb;
    Pow2Next(k);
    if wc > a.x.Length {
      k := k + 1;
    }
    c := new Bigint.Balloc(k);
    ghost var va, vb := a.Value(), b.Value();
    MulRows(c.x, a.x, wa, b.x, wb);
    while wc > 0 && c.x[wc - 1] == 0
      invariant 0 <= wc <= wa + wb && Val(c.x[..wc]) == va * vb
      invariant forall i :: wc <= i < wa + wb ==> c.x[i] == 0
    {
      ghost var s := c.x[..wc];
      ValDropZeros(s, wc - 1);
      assert s[..wc - 1] == c.x[..wc - 1];
      wc := wc - 1;
    }
    ghost var kept := c.x[..wc];
    c.wds := wc;
    assert c.x[..c.wds] == kept;
    assert c.Value() == va * vb;
    MulCommutes(va, vb);
    MulPositive(va, vb);
    Empty();
    assert wc == 0 ==> kept == [];
  }

  lemma MulPositive(x: nat, y: nat)
    ensures x > 0 && y > 0 ==> x * y > 0
  {
    MulAtLeast(x, y);
  }

  lemma MulCommutes(x: nat, y: nat)
    ensures x * y == y * x
  {}

  /** dtoa.c, lines 838 to 859: schoolbook multiplication, one row for each limb of b. */
  method MulRows(xc: array<Limb>, xa: array<Limb>, wa: nat, xb: array<Limb>, wb: nat)
    requires wa <= xa.Length && wb <= xb.Length && wa + wb <= xc.Length && xc != xa && xc != xb && (wb > 0 ==> wa > 0)
    modifies xc
    ensures Val(xc[..wa + wb]) == Val(xa[..wa]) * Val(xb[..wb])
  {
    hide Val, P;
    ghost var s, t := xa[..], xb[..];
    ghost var va := Val(s[..wa]);
    for i := 0 to wa + wb
      invariant forall p :: 0 <= p < i ==> xc[p] == 0
    {
      xc[i] := 0;
    }
    Empty();
    assert t[..0] == [];
    ValZeros(xc[..wa]);
    MulZero(va);
    for j := 0 to wb
      invariant xa[..] == s && xb[..] == t
      invariant Val(xc[..wa + j]) == va * Val(t[..j])
      invariant forall p :: wa + j <= p < wa + wb ==> xc[p] == 0
    {
      var y := xb[j];
      ValNext(t, j);
      ghost var before := xc[..wa + j];
      if y != 0 {
        MulRow(xc, j, xa, wa, y);
        RowStep(va, Val(t[..j]), t[j], P(j));
      } else {
        RowStep(va, Val(t[..j]), 0, P(j));
        ValDropZeros(xc[..wa + j + 1], wa + j);
        assert xc[..wa + j + 1][..wa + j] == before;
      }
      assert xc[..wa + (j + 1)] == xc[..wa + j + 1];
    }
    assert xa[..wa] == s[..wa] && xb[..wb] == t[..wb];
  }

  lemma MulZero(v: nat)
    ensures v * 0 == 0
  {}

  lemma RowStep(va: nat, w: nat, y: nat, p: nat)
    ensures va * w + va * y * p == va * (w + y * p)
    ensures y == 0 ==> va * (w + y * p) == va * w
  {
    MulAssociative(va, y, p);
  }

  /** dtoa.c, lines 847 to 857: add y times a at limb j. */
  method MulRow(xc: array<Limb>, j: nat, xa: array<Limb>, wa: nat, y: Limb)
    requires wa <= xa.Length && wa + j < xc.Length && xc != xa && xc[wa + j] == 0
    modifies xc
    ensures Val(xc[..wa + j + 1]) == Val(old(xc[..wa + j])) + Val(xa[..wa]) * y * P(j)
    ensures xc[wa + j + 1..] == old(xc[wa + j + 1..])
  {
    hide Val, P;
    ghost var s, c0 := xa[..], xc[..];
    var carry: nat := 0;
    Empty();
    assert s[..0] == [];
    for i := 0 to wa
      invariant carry < BASE && xa[..] == s && xc[i + j..] == c0[i + j..]
      invariant Val(xc[..][..i + j]) + carry * P(i + j) == Val(c0[..i + j]) + Val(s[..i]) * y * P(j)
    {
      ghost var now := xc[..];
      assert xc[i + j] == c0[i + j..][0] == c0[i + j];
      PAdd(j, i);
      NoOverflow(s[i], y, c0[i + j], carry);
      var z := xa[i] * y + xc[i + j] + carry;
      AccumulateStep(Val(now[..i + j]), carry, P(i + j), Val(c0[..i + j]), Val(s[..i]), y, P(j), P(i),
                     s[i], c0[i + j], z % BASE, z / BASE);
      ValNext(s, i);
      ValNext(c0, i + j);
      PNext(i + j);
      ValStore(now, i + j, z % BASE);
      carry := z / BASE;
      xc[i + j] := z % BASE;
      assert xc[..] == now[i + j := z % BASE];
      assert i + 1 + j == i + j + 1;
      assert xc[i + 1 + j..] == now[i + j..][1..];
    }
    ghost var now := xc[..];
    var last: Limb := carry;
    ValStore(now, wa + j, last);
    xc[wa + j] := last;
    assert xc[..wa + j + 1] == now[wa + j := last][..wa + j + 1];
    assert xa[..wa] == s[..wa] && old(xc[..wa + j]) == c0[..wa + j];
  }

  /** The 64-bit accumulator holds a product and two limbs. */
  lemma NoOverflow(x: Limb, y: Limb, c: Limb, carry: nat)
    requires carry < BASE
    ensures 0 <= x * y + c + carry < WORD64 && (x * y + c + carry) / BASE < BASE
  {
    ProductBound(x, y);
    var m := x * y;
    DivBelow(m + c + carry);
  }

  lemma ProductBound(x: nat, y: nat)
    requires x <= 0xffff_ffff && y <= 0xffff_ffff
    ensures 0 <= x * y <= 0xffff_ffff * 0xffff_ffff
  {
    MulMonotone(x, 0xffff_ffff, y);
  }

  lemma DivBelow(z: nat)
    requires z <= 0xffff_ffff * 0xffff_ffff + 0xffff_ffff + 0xffff_ffff
    ensures z / BASE < BASE && z < WORD64
  {}

  lemma AccumulateStep(n0: nat, carry: nat, p: nat, c0: nat, v: nat, y: nat, pj: nat, pi: nat,
                       x: nat, c: nat, lo: nat, hi: nat)
    requires n0 + carry * p == c0 + v * y * pj && x * y + c + carry == lo + hi * BASE && p == pj * pi
    ensures n0 + lo * p + hi * (BASE * p) == c0 + c * p + (v + x * pi) * y * pj
  {
    assert (x * y + c + carry) * p == (lo + hi * BASE) * p;
    assert (x * y + c + carry) * p == x * y * p + c * p + carry * p;
    assert (lo + hi * BASE) * p == lo * p + hi * (BASE * p);
    assert x * y * p == x * pi * y * pj by {
      MulAssociative(x * y, pj, pi);
      assert x * y * pj * pi == x * pi * y * pj;
    }
    assert (v + x * pi) * y * pj == v * y * pj + x * pi * y * pj;
  }

  /** The static chain of 5^4, 5^8, 5^16, ... that pow5mult extends on demand. */
  class Pow5Chain {
    var p5s: Bigint?
    ghost var chain: seq<Bigint>

    constructor ()
      ensures Valid() && chain == []
    {
      p5s, chain := null, [];
    }

    /** Node i holds 5^(4 * 2^i) and links to node i + 1. */
    ghost predicate Valid()
      reads this, chain, set c | c in chain :: c.x
    {
      && p5s == (if chain == [] then null else chain[0])
      && (forall i :: 0 <= i < |chain| ==> NodeValid(chain[i], i))
      && (forall i :: 0 <= i < |chain| ==> chain[i].next == if i + 1 < |chain| then chain[i + 1] else null)
      && (forall i, j :: 0 <= i < j < |chain| ==> chain[i] != chain[j])
    }

    static ghost predicate NodeValid(c: Bigint, i: nat)
      reads c, c.x
    {
      c.Normal() && c.wds > 0 && c.Value() == Pow(5, 4 * Pow2(i))
    }

    /** Not a block of the chain, nor sharing limbs with one. */
    ghost predicate Apart(b: Bigint)
      reads this
    {
      b !in chain && forall c :: c in chain ==> c.x != b.x
    }

    /** dtoa.c, lines 940 and 960: hang a new node on the last one. */
    method Extend(last: Bigint?, value: Bigint)
      requires Valid() && Apart(value) && value.next == null && NodeValid(value, |chain|)
      requires last == if chain == [] then null else chain[|chain| - 1]
      modifies this, chain
      ensures Valid() && chain == old(chain) + [value]
      ensures forall c :: c in old(chain) ==> c.x[..] == old(c.x[..]) && c.wds == old(c.wds)
    {
      hide Pow, Pow2, Val, P;
      if last == null {
        p5s := value;
      } else {
        last.next := value;
      }
      chain := chain + [value];
    }

    /** The chain has grown by new nodes only. */
    twostate predicate Grown()
      reads this
    {
      old(chain) <= chain && forall c :: c in chain && c !in old(chain) ==> fresh(c) && fresh(c.x)
    }

    /** dtoa.c, lines 934 to 946: the first node. */
    method First() returns (p5: Bigint)
      requires Valid()
      modifies this, chain
      ensures Valid() && Grown() && 0 < |chain| && p5 == chain[0]
    {
      if p5s == null {
        p5 := new Bigint.Balloc(1);
        p5.x[0] := 625;
        p5.wds := 1;
        ValOne(p5.x[..1]);
        p5.next := null;
        FirstPowers();
        Extend(null, p5);
      } else {
        p5 := p5s;
      }
    }

    /** dtoa.c, lines 956 to 969: the node after p5, its square if it has to be made. */
    method Next(p5: Bigint, ghost j: nat) returns (p51: Bigint)
      requires Valid() && j < |chain| && p5 == chain[j]
      modifies this, chain
      ensures Valid() && Grown() && j + 1 < |chain| && p51 == chain[j + 1]
    {
      hide Val, P, Pow, Pow2;
      assert NodeValid(chain[j], j);
      assert chain[j].next == if j + 1 < |chain| then chain[j + 1] else null;
      SquareIsNext(j);
      if p5.next == null {
        p51 := Mult(p5, p5);
        p51.next := null;
        assert |chain| == j + 1 && NodeValid(p51, j + 1);
        Extend(p5, p51);
      } else {
        p51 := p5.next;
      }
    }

    /** dtoa.c, lines 949 to 953: multiply by one node. */
    method TimesNode(b: Bigint, p5: Bigint, ghost j: nat) returns (b1: Bigint)
      requires Valid() && b.Normal() && j < |chain| && p5 == chain[j]
      ensures Valid() && Apart(b1) && fresh(b1) && fresh(b1.x)
      ensures b1.Normal() && b1.Value() == b.Value() * Pow(5, 4 * Pow2(j))
      ensures b.Value() > 0 ==> b1.wds > 0 && b1.Value() > 0
    {
      hide Val, P, Pow, Pow2;
      assert NodeValid(chain[j], j);
      SquareIsNext(j);
      MulPositive(b.Value(), p5.Value());
      b1 := Mult(b, p5);
    }

    /** One bit of the exponent: multiply if it is set, and go on to the square if bits remain. */
    method Turn(b0: Bigint, p5: Bigint, k: nat, ghost j: nat) returns (b: Bigint, p51: Bigint)
      requires Valid() && Apart(b0) && b0.Normal() && (b0.Value() > 0 ==> b0.wds > 0)
      requires k > 0 && j < |chain| && p5 == chain[j]
      modifies this, chain
      ensures Valid() && Grown() && Apart(b) && (b == b0 || (fresh(b) && fresh(b.x)))
      ensures b.Normal() && (old(b0.Value()) > 0 ==> b.wds > 0 && b.Value() > 0)
      ensures b.Value() * Pow(5, 4 * Pow2(j + 1) * (k / 2)) == old(b0.Value()) * Pow(5, 4 * Pow2(j) * k)
      ensures if k / 2 > 0 then j + 1 < |chain| && p51 == chain[j + 1]
              else b.Value() == old(b0.Value()) * Pow(5, 4 * Pow2(j) * k)
    {
      hide Val, P, Pow, Pow2;
      Halve(b0.Value(), Pow2(j), k);
      Pow2Next(j);
      b, p51 := b0, p5;
      if k % 2 == 1 {
        b := TimesNode(b, p5, j);
      }
      if k / 2 != 0 {
        ghost var s := b.x[..b.wds];
        p51 := Next(p5, j);
        assert b.x[..b.wds] == s;
      }
    }

    /** dtoa.c, lines 948 to 970: square and multiply along the chain. */
    method PowerLoop(b0: Bigint, k0: nat) returns (b: Bigint)
      requires Valid() && Apart(b0) && b0.Normal() && (b0.Value() > 0 ==> b0.wds > 0) && k0 > 0
      modifies this, chain
      ensures Valid() && Grown() && Apart(b) && (b == b0 || (fresh(b) && fresh(b.x)))
      ensures b.Normal() && b.Value() == old(b0.Value()) * Pow(5, 4 * k0) && (old(b0.Value()) > 0 ==> b.wds > 0)
    {
      hide Val, P, Pow, Pow2;
      b := b0;
      var k := k0;
      ghost var target, s := b0.Value() * Pow(5, 4 * k0), b.x[..b.wds];
      var p5 := First();
      assert b.x[..b.wds] == s;
      ghost var j := 0;
      FirstPowers();
      hide Valid, Apart, Bigint.Normal;
      while true
        invariant Valid() && Grown() && Apart(b) && (b == b0 || (fresh(b) && fresh(b.x)))
        invariant b.Normal() && (old(b0.Value()) > 0 ==> b.wds > 0 && b.Value() > 0) && k > 0
        invariant b.Value() > 0 ==> b.wds > 0
        invariant j < |chain| && p5 == chain[j]
        invariant b.Value() * Pow(5, 4 * Pow2(j) * k) == target
        decreases k
      {
        b, p5 := Turn(b, p5, k, j);
        k := k / 2;
        if k == 0 {
          break;
        }
        j := j + 1;
      }
    }

    /** pow5mult: b times 5^k, whatever part of the chain exists already. */
    method Pow5Mult(b0: Bigint, k0: nat) returns (b: Bigint)
      requires Valid() && Apart(b0) && b0.Normal()
      modifies this, chain, b0, b0.x
      ensures Valid() && Grown() && Apart(b) && (b == b0 || (fresh(b) && fresh(b.x)))
      ensures b.Normal() && b.Value() == old(b0.Value()) * Pow(5, k0) && (old(b0.Value()) > 0 ==> b.wds > 0)
    {
      FirstPowers();
      hide Val, P, Pow, Pow2;
      b := b0;
      ghost var v0 := b0.Value();
      var i := k0 % 4;
      if i != 0 {
        b := MultAdd(b, if i == 1 then 5 else if i == 2 then 25 else 125, 0);
        MulPositive(v0, Pow(5, i));
      }
      ValuelessIsZero(b);
      var k := k0 / 4;
      SplitPower(v0, i, k);
      assert i + 4 * k == k0;
      if k != 0 {
        b := PowerLoop(b, k);
      }
    }
  }

  lemma SplitPower(v: nat, i: nat, k: nat)
    ensures v * Pow(5, i) * Pow(5, 4 * k) == v * Pow(5, i + 4 * k)
    ensures v * 1 == v && Pow(5, 0) == 1 && Pow(5, 4 * 0) == 1
  {
    PowAdd(5, i, 4 * k);
    MulAssociative(v, Pow(5, i), Pow(5, 4 * k));
  }

  lemma SquareIsNext(j: nat)
    ensures Pow(5, 4 * Pow2(j)) * Pow(5, 4 * Pow2(j)) == Pow(5, 4 * Pow2(j + 1))
    ensures Pow(5, 4 * Pow2(j)) > 0
  {
    PowAdd(5, 4 * Pow2(j), 4 * Pow2(j));
    Pow2Next(j);
  }

  /** One turn: the odd factor is taken, the exponent halved and the base squared. */
  lemma Halve(v: nat, p: nat, k: nat)
    requires k > 0
    ensures v * Pow(5, 4 * p * k)
         == (if k % 2 == 1 then v * Pow(5, 4 * p) else v) * Pow(5, 4 * (2 * p) * (k / 2))
    ensures k / 2 == 0 ==> Pow(5, 4 * (2 * p) * (k / 2)) == 1
  {
    var e, h := 4 * p, k / 2;
    Exponents(e, p, h);
    if k % 2 == 1 {
      assert k == 2 * h + 1;
      PowAdd(5, e, e * (2 * h));
      MulAssociative(v, Pow(5, e), Pow(5, e * (2 * h)));
    } else {
      assert k == 2 * h;
    }
  }

  lemma Exponents(e: nat, p: nat, h: nat)
    requires e == 4 * p
    ensures 4 * (2 * p) * h == e * (2 * h) && e * (2 * h + 1) == e + e * (2 * h)
  {}

  lemma FirstPowers()
    ensures Pow(5, 0) == 1 && Pow(5, 1) == 5 && Pow(5, 2) == 25 && Pow(5, 3) == 125 && Pow(5, 4) == 625
    ensures Pow2(0) == 1
  {
    assert Pow(5, 3) == 5 * Pow(5, 2);
  }
}
