/** Bytes as small integers, and big-endian numbers written in them. */
module Octets {
  import opened Arithmetic

  type Octet = x: int | 0 <= x < 256

  /** The number in a big-endian sequence of bytes. */
  function Num(b: seq<Octet>): nat {
    if b == [] then 0 else 256 * Num(b[..|b| - 1]) + b[|b| - 1]
  }

  /** The lowest `len` bytes of n, big-endian. */
  function Digits(n: nat, len: nat): (b: seq<Octet>)
    ensures |b| == len
  {
    if len == 0 then [] else Digits(n / 256, len - 1) + [n % 256]
  }

  lemma {:induction false} NumOfDigits(n: nat, len: nat)
    requires n < Pow(256, len)
    ensures Num(Digits(n, len)) == n
  {
    if len > 0 {
      NumOfDigits(n / 256, len - 1);
      assert Digits(n, len)[..len - 1] == Digits(n / 256, len - 1);
    }
  }

  /** The first lengths, byte by byte. */
  lemma NextDigits(n: nat, k: nat)
    ensures Digits(n, k + 1) == Digits(n / 0x100, k) + [n % 0x100] && Digits(n, 0) == []
  {}

  lemma DividesTwice(n: nat)
    ensures n / 0x100 / 0x100 == n / 0x1_0000 && n / 0x100 / 0x1_0000 == n / 0x100_0000
  {}

  lemma OneDigit(n: nat)
    ensures Digits(n, 1) == [n % 0x100]
  {
    NextDigits(n, 0);
    NextDigits(n / 0x100, 0);
  }

  lemma TwoDigits(n: nat)
    ensures Digits(n, 2) == [n / 0x100 % 0x100, n % 0x100]
  {
    hide Digits;
    OneDigit(n / 0x100);
    NextDigits(n, 1);
  }

  lemma ThreeDigits(n: nat)
    ensures Digits(n, 3) == [n / 0x1_0000 % 0x100, n / 0x100 % 0x100, n % 0x100]
  {
    hide Digits;
    TwoDigits(n / 0x100);
    NextDigits(n, 2);
    DividesTwice(n);
  }

  lemma FourDigits(n: nat)
    ensures Digits(n, 4) == [n / 0x100_0000 % 0x100, n / 0x1_0000 % 0x100, n / 0x100 % 0x100, n % 0x100]
  {
    hide Digits;
    ThreeDigits(n / 0x100);
    NextDigits(n, 3);
    DividesTwice(n);
  }

  lemma {:induction false} DigitsOfNum(b: seq<Octet>)
    ensures Digits(Num(b), |b|) == b && Num(b) < Pow(256, |b|)
  {
    if b != [] {
      var n := |b| - 1;
      DigitsOfNum(b[..n]);
      var low: nat := b[n];
      DivModUnique(Num(b), 256, Num(b[..n]), low);
    }
  }

  /** The first byte weighs the most. */
  lemma {:induction false} NumSplitsFirst(b: seq<Octet>)
    requires b != []
    ensures Num(b) == b[0] * Pow(256, |b| - 1) + Num(b[1..])
    decreases |b|
  {
    var n := |b| - 1;
    if n > 0 {
      NumSplitsFirst(b[..n]);
      assert b[..n][1..] == b[1..][..n - 1];
      assert Pow(256, n) == 256 * Pow(256, n - 1);
      var first: nat := b[0];
      Spread(first, Pow(256, n - 1), Num(b[1..][..n - 1]), b[n]);
    } else {
      assert b[1..] == [] && b[..0] == [];
    }
  }

  lemma Spread(x: nat, p: nat, v: nat, y: nat)
    ensures 256 * (x * p + v) + y == x * (256 * p) + (256 * v + y)
  {}

  lemma {:induction false} NumConcat(a: seq<Octet>, b: seq<Octet>)
    ensures Num(a + b) == Num(a) * Pow(256, |b|) + Num(b)
    decreases |b|
  {
    if b == [] {
      assert a + b == a;
    } else {
      var n := |b| - 1;
      NumConcat(a, b[..n]);
      assert (a + b)[..|a| + n] == a + b[..n];
      Spread(Num(a), Pow(256, n), Num(b[..n]), b[n]);
    }
  }

  lemma NumOrder(a: seq<Octet>, b: seq<Octet>, i: nat)
    requires |a| == |b| && i < |a| && a[..i] == b[..i] && a[i] < b[i]
    ensures Num(a) < Num(b)
  {
    assert a == a[..i] + a[i..] && b == b[..i] + b[i..];
    NumConcat(a[..i], a[i..]);
    NumConcat(b[..i], b[i..]);
    NumSplitsFirst(a[i..]);
    NumSplitsFirst(b[i..]);
    DigitsOfNum(a[i..][1..]);
    MulMonotone(a[i], b[i], Pow(256, |a| - i - 1));
  }

  /** memcmp of equally long buffers: the order of the bytes is the order of the big-endian numbers. */
  method MemCmp(a: seq<Octet>, b: seq<Octet>) returns (cmp: int)
    requires |a| == |b|
    ensures cmp < 0 <==> Num(a) < Num(b)
    ensures cmp > 0 <==> Num(a) > Num(b)
    ensures cmp == 0 <==> a == b
  {
    var i := 0;
    while i < |a|
      invariant 0 <= i <= |a| && a[..i] == b[..i]
    {
      if a[i] != b[i] {
        if a[i] < b[i] { NumOrder(a, b, i); } else { NumOrder(b, a, i); }
        cmp := a[i];
        cmp := cmp - b[i];
        return;
      }
      i := i + 1;
    }
    assert a == a[..i] && b == b[..i];
    return 0;
  }
}
