/** Decimal digits into a big integer: s2b (bundle/lua-cjson-2.1.0.5/dtoa.c, lines 669-705). */
module DecimalInput {
  import opened Arithmetic
  import opened Bigints
  import opened Decimals
  import Limbs

  /** The nd digits of s, skipping the point of dplen characters after the first nd0. */
  function DigitsAcross(s: string, nd0: nat, nd: nat, dplen: nat): (d: string)
    requires nd0 <= nd && |s| >= nd + dplen
    ensures |d| == nd
  {
    s[..nd0] + s[nd0 + dplen..nd + dplen]
  }

  /** s2b: given the value y9 of the first nine digits, the value of all. */
  method S2b(s: string, nd0: nat, nd: nat, y9: nat, dplen: nat) returns (b: Bigint)
    requires nd0 <= nd && |s| >= nd + dplen && IsDigits(DigitsAcross(s, nd0, nd, dplen))
    requires y9 == Dec(DigitsAcross(s, nd0, nd, dplen)[..if nd < 9 then nd else 9])
    ensures fresh(b) && fresh(b.x) && b.Normal() && b.wds > 0
    ensures b.Value() == Dec(DigitsAcross(s, nd0, nd, dplen))
  {
    ghost var d := DigitsAcross(s, nd0, nd, dplen);
    NineDigitsFit(d[..if nd < 9 then nd else 9]);
    hide Dec, IsDigits, DigitsAcross, Limbs.Val, Limbs.P;
    var k := SizeClass(nd);
    b := new Bigint.Balloc(k);
    b.x[0] := y9;
    b.wds := 1;
    Limbs.ValOne(b.x[..1]);
    b := AddRest(b, s, d, nd0, nd, dplen);
  }

  /** dtoa.c, lines 692 to 702: the digits after the ninth, around the point. */
  method AddRest(b0: Bigint, s: string, ghost d: string, nd0: nat, nd: nat, dplen: nat) returns (b: Bigint)
    requires nd0 <= nd && |s| >= nd + dplen && d == DigitsAcross(s, nd0, nd, dplen) && IsDigits(d)
    requires b0.Normal() && b0.wds > 0 && b0.Value() == Dec(d[..if nd < 9 then nd else 9])
    modifies b0, b0.x
    ensures (b == b0 || fresh(b)) && (b.x == b0.x || fresh(b.x)) && b.Normal() && b.wds > 0
    ensures b.Value() == Dec(d)
  {
    hide Dec, IsDigits, DigitsAcross, Limbs.Val, Limbs.P;
    DigitsPlace(s, nd0, nd, dplen);
    b := b0;
    var i := 9;
    var p;
    if 9 < nd0 {
      b, p := AddDigits(b, s, d, 9, 9, nd0);
      i := nd0;
      p := p + dplen;
    } else {
      p := dplen + 9;
    }
    if i < nd {
      b, p := AddDigits(b, s, d, p, i, nd);
    }
    assert d[..nd] == d;
  }

  /** dtoa.c, lines 681 and 682: a class with a limb for every nine digits. */
  method SizeClass(nd: nat) returns (k: nat)
    ensures Pow2(k) >= (nd + 8) / 9
  {
    var x := (nd + 8) / 9;
    var y := 1;
    k := 0;
    while x > y
      invariant y == Pow2(k) && y > 0
      decreases x - y
    {
      y, k := y * 2, k + 1;
    }
  }

  /** dtoa.c, lines 695 and 696, and 701 and 702: the digits i to end of the number, at p in the text. */
  method AddDigits(b0: Bigint, s: string, ghost d: string, p0: nat, i0: nat, end: nat) returns (b: Bigint, p: nat)
    requires b0.Normal() && b0.wds > 0 && i0 <= end <= |d| && p0 + (end - i0) <= |s| && IsDigits(d)
    requires b0.Value() == Dec(d[..i0]) && forall j :: i0 <= j < end ==> d[j] == s[p0 + (j - i0)]
    modifies b0, b0.x
    ensures (b == b0 || fresh(b)) && (b.x == b0.x || fresh(b.x)) && b.Normal() && b.wds > 0
    ensures b.Value() == Dec(d[..end]) && p == p0 + (end - i0)
  {
    hide Dec, Limbs.Val, Limbs.P;
    b, p := b0, p0;
    var i := i0;
    while i < end
      invariant i0 <= i <= end && p == p0 + (i - i0)
      invariant (b == b0 || fresh(b)) && (b.x == b0.x || fresh(b.x)) && b.Normal() && b.wds > 0
      invariant b.Value() == Dec(d[..i])
    {
      b := AddDigit(b, d, i, s[p]);
      p, i := p + 1, i + 1;
    }
  }

  /** Where digit i of the number stands in the text. */
  lemma DigitsPlace(s: string, nd0: nat, nd: nat, dplen: nat)
    requires nd0 <= nd && |s| >= nd + dplen
    ensures forall i :: 0 <= i < nd0 ==> DigitsAcross(s, nd0, nd, dplen)[i] == s[i]
    ensures forall i :: nd0 <= i < nd ==> DigitsAcross(s, nd0, nd, dplen)[i] == s[i + dplen]
  {}

  lemma NineDigitsFit(s: string)
    requires IsDigits(s) && |s| <= 9
    ensures Dec(s) < 0x1_0000_0000
  {
    DecBound(s);
    PowAdd(10, |s|, 9 - |s|);
    MulAtLeast(Pow10(9 - |s|), Pow10(|s|));
    assert Pow10(9) == 1000000000 by {
      Pow10Next(8);
      Pow10Next(7);
      Pow10Next(6);
      Pow10Next(5);
      Pow10Next(4);
      Pow10Next(3);
      Pow10Next(2);
      Pow10Next(1);
      Pow10Next(0);
    }
  }

  /** b = multadd(b, 10, *s++ - '0') */
  method AddDigit(b0: Bigint, ghost d: string, ghost i: nat, c: char) returns (b: Bigint)
    requires b0.Normal() && b0.wds > 0 && i < |d| && IsDigits(d) && c == d[i] && b0.Value() == Dec(d[..i])
    modifies b0, b0.x
    ensures (b == b0 || fresh(b)) && (b.x == b0.x || fresh(b.x))
    ensures b.Normal() && b.wds > 0 && b.Value() == Dec(d[..i + 1])
  {
    DecAppend(d[..i], c);
    assert d[..i + 1] == d[..i] + [c];
    b := MultAdd(b0, 10, DigitValue(c));
  }
}
