/**
 Unsigned 64-bit INTEGERs (libressl ssl/bs_cbb.c CBB_add_asn1_uint64, ssl/bs_cbs.c CBS_get_asn1_uint64; X.690
 section 8.3).
 */
module Asn1Integer {
  import opened Arithmetic
  import opened BuildAndParse
  import opened CbbBuilder
  import opened CbsReader
  import opened Der
  import opened Octets

  const INTEGER: Octet := 2
  const P56: nat := 0x100_0000_0000_0000
  const P64: nat := 0x1_0000_0000_0000_0000

  /** Contents of a non-negative INTEGER in the fewest octets. */
  predicate Minimal(c: seq<Octet>) {
    c != [] && c[0] < 0x80 && !(c[0] == 0 && |c| > 1 && c[1] < 0x80)
  }

  /** The octets without leading zeros, but with one if the first bit would be set. */
  function Significant(b: seq<Octet>): (r: seq<Octet>)
    ensures |r| <= |b| + 1
  {
    if b == [] then []
    else
      var before, last := Significant(b[..|b| - 1]), b[|b| - 1];
      if before != [] then before + [last] else if last == 0 then [] else if last >= 0x80 then [0, last] else [last]
  }

  /** The contents octets of v. */
  function IntegerOctets(v: nat): seq<Octet> {
    if v == 0 then [0] else Significant(Digits(v, 8))
  }

  lemma {:induction false} SignificantValue(b: seq<Octet>)
    ensures Num(Significant(b)) == Num(b)
    ensures if Significant(b) == [] then Num(b) == 0 else Minimal(Significant(b)) && Num(b) > 0
  {
    if b != [] {
      var n := |b| - 1;
      SignificantValue(b[..n]);
      var before, last := Significant(b[..n]), b[n];
      NumOne([last]);
      NumTwo([0, last]);
      if before != [] {
        assert (before + [last])[..|before|] == before;
        LeadingZero(before, b[n]);
      }
    }
  }

  lemma NumOne(b: seq<Octet>)
    requires |b| == 1
    ensures Num(b) == b[0]
  {
    assert b[..0] == [];
  }

  lemma NumTwo(b: seq<Octet>)
    requires |b| == 2
    ensures Num(b) == Num(b[..1]) * 256 + b[1] && Num(b[..1]) == b[0]
  {
    NumOne(b[..1]);
  }

  lemma LeadingZero(before: seq<Octet>, last: Octet)
    requires Minimal(before) && Num(before) > 0
    ensures Minimal(before + [last])
  {
    if |before| == 1 {
      NumOne(before);
    }
  }

  /** The encoding denotes its number and has no shorter form. */
  lemma OctetsDenote(v: nat)
    requires v < P64
    ensures Num(IntegerOctets(v)) == v && Minimal(IntegerOctets(v)) && |IntegerOctets(v)| <= 9
  {
    NumOne([0]);
    assert Pow(256, 4) == 0x1_0000_0000;
    PowAdd(256, 4, 4);
    NumOfDigits(v, 8);
    SignificantValue(Digits(v, 8));
  }

  /** An INTEGER is tag 2, the count of its octets, and the fewest octets of its value. */
  lemma IntegerIs(v: nat)
    requires v < P64
    ensures exists c: seq<Octet> ::
      && Element(INTEGER, IntegerOctets(v)) == [2, |c|] + c && 1 <= |c| <= 9 && Num(c) == v
      && c[0] < 0x80 && (|c| > 1 && c[0] == 0 ==> c[1] >= 0x80)
  {
    hide IntegerOctets, Num;
    OctetsDenote(v);
    ElementIs(2, IntegerOctets(v));
    assert Element(INTEGER, IntegerOctets(v)) == [2, |IntegerOctets(v)|] + IntegerOctets(v);
  }

  /** A minimal encoding of more octets denotes a larger number. */
  lemma LongerIsLarger(c: seq<Octet>)
    requires Minimal(c) && |c| > 1
    ensures 2 * Num(c) >= Pow(256, |c| - 1)
  {
    NumSplitsFirst(c);
    var n := |c| - 1;
    if c[0] == 0 {
      NumSplitsFirst(c[1..]);
      assert Pow(256, n) == 256 * Pow(256, n - 1);
      MulMonotone(128, c[1], Pow(256, n - 1));
    } else {
      MulMonotone(1, c[0], Pow(256, n));
    }
  }

  lemma MinimalBound(c: seq<Octet>)
    requires Minimal(c)
    ensures 2 * Num(c) < Pow(256, |c|)
  {
    NumSplitsFirst(c);
    DigitsOfNum(c[1..]);
    var n := |c| - 1;
    assert Pow(256, n + 1) == 256 * Pow(256, n);
    MulMonotone(c[0], 127, Pow(256, n));
  }

  lemma {:induction false} PowMonotone(j: nat, k: nat)
    requires j <= k
    ensures Pow(256, j) <= Pow(256, k)
  {
    if j < k {
      PowMonotone(j, k - 1);
    }
  }

  /** A number has one minimal encoding. */
  lemma MinimalIsUnique(c: seq<Octet>, d: seq<Octet>)
    requires Minimal(c) && Minimal(d) && Num(c) == Num(d)
    ensures c == d
  {
    if |c| < |d| {
      MinimalBound(c);
      LongerIsLarger(d);
      PowMonotone(|c|, |d| - 1);
    } else if |d| < |c| {
      MinimalBound(d);
      LongerIsLarger(c);
      PowMonotone(|d|, |c| - 1);
    }
    DigitsOfNum(c);
    DigitsOfNum(d);
  }

  /** What the reader accepts is what the writer would have written. */
  lemma ReadIsWritten(c: seq<Octet>)
    requires Minimal(c) && Num(c) < P64
    ensures IntegerOctets(Num(c)) == c
  {
    OctetsDenote(Num(c));
    MinimalIsUnique(IntegerOctets(Num(c)), c);
  }

  /** CBS_get_asn1_uint64: exactly the minimal encodings of numbers below 2 to the power 64. */
  method GetAsn1Uint64(cbs: Cbs) returns (ok: bool, out: nat)
    modifies cbs
    ensures ok ==> out < P64 && old(cbs.data) == Element(INTEGER, IntegerOctets(out)) + cbs.data
    ensures !ok ==> forall v: nat, rest :: v < P64 ==> old(cbs.data) != Element(INTEGER, IntegerOctets(v)) + rest
  {
    hide Element, StartsWithElement, IntegerOctets, Num;
    var bytes;
    ghost var was := cbs.data;
    ok, bytes := cbs.GetAsn1(INTEGER);
    out := 0;
    if !ok {
      NoInteger(was);
      return;
    }
    OtherInteger(bytes, cbs.data);
    if |bytes| == 0 {
      return false, 0;
    }
    if bytes[0] >= 0x80 {
      return false, 0;
    }
    if bytes[0] == 0 && |bytes| > 1 && bytes[1] < 0x80 {
      return false, 0;
    }
    ghost var rest := cbs.data;
    var i := 0;
    NumEmpty(bytes);
    while i < |bytes|
      invariant cbs.data == rest
      invariant 0 <= i <= |bytes| && out == Num(bytes[..i]) < P64
    {
      NumNext(bytes, i);
      if out / P56 != 0 {
        PrefixIsSmaller(bytes, i + 1);
        return false, 0;
      }
      out := out * 256 + bytes[i];
      i := i + 1;
    }
    assert bytes[..i] == bytes;
    ReadIsWritten(bytes);
    assert IntegerOctets(out) == bytes;
  }

  lemma NumEmpty(b: seq<Octet>)
    ensures Num(b[..0]) == 0
  {}

  lemma NumNext(b: seq<Octet>, i: nat)
    requires i < |b|
    ensures Num(b[..i + 1]) == Num(b[..i]) * 256 + b[i]
  {
    assert b[..i + 1][..i] == b[..i];
  }

  lemma {:induction false} PrefixIsSmaller(b: seq<Octet>, i: nat)
    requires i <= |b|
    ensures Num(b[..i]) <= Num(b)
    decreases |b| - i
  {
    if i == |b| {
      assert b[..i] == b;
    } else {
      NumNext(b, i);
      PrefixIsSmaller(b, i + 1);
    }
  }

  lemma NoInteger(data: seq<Octet>)
    requires !(StartsWithElement(data) && data[0] == INTEGER)
    ensures forall v: nat, rest :: v < P64 ==> data != Element(INTEGER, IntegerOctets(v)) + rest
  {
    forall v: nat, rest | v < P64 ensures data != Element(INTEGER, IntegerOctets(v)) + rest {
      OctetsDenote(v);
      SameElement(INTEGER, IntegerOctets(v), rest);
    }
  }

  /** Contents that are no minimal encoding in range are the contents of no number. */
  lemma OtherInteger(bytes: seq<Octet>, rest: seq<Octet>)
    requires |bytes| <= MAX_LENGTH
    ensures !(Minimal(bytes) && Num(bytes) < P64) ==>
      forall v: nat, r :: v < P64 ==> Element(INTEGER, bytes) + rest != Element(INTEGER, IntegerOctets(v)) + r
  {
    if !(Minimal(bytes) && Num(bytes) < P64) {
      forall v: nat, r | v < P64 && Element(INTEGER, bytes) + rest == Element(INTEGER, IntegerOctets(v)) + r
        ensures false
      {
        OctetsDenote(v);
        ElementIsPrefixFree(INTEGER, bytes, rest, INTEGER, IntegerOctets(v), r);
      }
    }
  }

  /** CBB_add_asn1_uint64: the minimal encoding is appended. */
  method AddAsn1Uint64(cbb: Cbb, value: nat, ghost p: nat) returns (ok: bool)
    requires cbb.At(p) && value < P64
    modifies cbb.Frame(p)
    ensures cbb.base == old(cbb.base) && (cbb.base.buf == old(cbb.base.buf) || fresh(cbb.base.buf))
    ensures ok ==> cbb.At(p) && cbb.base.stack == old(cbb.base.stack)[..p + 1]
    ensures ok ==> cbb.base.open == old(cbb.base.open)[..p]
    ensures ok ==> var data := old(ClosedTo(cbb.base.Contents(), cbb.base.open, p));
      cbb.base.Contents() == data + Element(INTEGER, IntegerOctets(value))
    ensures cbb.base.canResize && old(HoldTo(cbb.base.Contents(), cbb.base.open, p)) ==> ok
  {
    hide Buffer.Chained, Nested, ClosedTo, HoldTo, Closed, Element, Significant;
    ghost var before, open := old(ClosedTo(cbb.base.Contents(), cbb.base.open, p)), cbb.base.open[..p];
    var child := new Cbb();
    ok := cbb.AddAsn1(child, INTEGER, p);
    if !ok {
      return;
    }
    ghost var digits := Digits(value, 8);
    ok := AddDigits(child, value, p + 1);
    if !ok {
      return;
    }
    OctetsDenote(value);
    ClosedElement(before, INTEGER, IntegerOctets(value));
    OneOpen(cbb.base.Contents(), open, Pending(|before| + 1, 1, true));
    ok := cbb.Flush(p);
  }

  /** The loop over the eight bytes of the value. */
  method AddDigits(child: Cbb, value: nat, ghost p: nat) returns (ok: bool)
    requires child.At(p) && |child.base.stack| == p + 1 && value < P64
    modifies child, child.base, child.base.buf
    ensures child.base == old(child.base) && (child.base.buf == old(child.base.buf) || fresh(child.base.buf))
    ensures ok ==> child.At(p) && child.base.stack == old(child.base.stack) && child.base.open == old(child.base.open)
    ensures ok ==> child.base.Contents() == old(child.base.Contents()) + IntegerOctets(value)
    ensures child.base.canResize ==> ok
  {
    hide Buffer.Chained, Nested, ClosedTo, HoldTo, Above, Significant, Digits, Num;
    ghost var base, before, digits := child.base, child.base.Contents(), Digits(value, 8);
    var started := false;
    var i := 0;
    NothingSignificant(digits);
    while i < 8
      invariant 0 <= i <= 8 && child.base == base && (base.buf == old(base.buf) || fresh(base.buf))
      invariant child.At(p) && base.stack == old(base.stack) && base.open == old(base.open)
      invariant base.Contents() == before + Significant(digits[..i])
      invariant started <==> Significant(digits[..i]) != []
    {
      var byte: Octet := value / Pow(256, 7 - i) % 256;
      DigitAt(value, i);
      SignificantNext(digits, i);
      if !started {
        if byte == 0 {
          i := i + 1;
          continue;
        }
        if byte >= 0x80 {
          ok := AddByte(child, 0, p);
          if !ok {
            return;
          }
        }
        started := true;
      }
      ok := AddByte(child, byte, p);
      if !ok {
        return;
      }
      i := i + 1;
    }
    assert digits[..8] == digits;
    ZeroOrNot(value);
    ok := true;
    if !started {
      ok := AddByte(child, 0, p);
    }
  }

  /** CBB_add_u8 on a builder without children. */
  method AddByte(child: Cbb, byte: Octet, ghost p: nat) returns (ok: bool)
    requires child.At(p) && |child.base.stack| == p + 1
    modifies child, child.base, child.base.buf
    ensures child.base == old(child.base) && (child.base.buf == old(child.base.buf) || fresh(child.base.buf))
    ensures ok ==> child.At(p) && child.base.stack == old(child.base.stack) && child.base.open == old(child.base.open)
    ensures ok ==> child.base.Contents() == old(child.base.Contents()) + [byte]
    ensures child.base.canResize ==> ok
  {
    hide Buffer.Chained, Nested, ClosedTo, HoldTo;
    Leaf(child, p);
    OneDigit(byte);
    ok := child.AddU(byte, 1, p);
  }

  lemma OneDigit(byte: Octet)
    ensures Digits(byte, 1) == [byte]
  {
    assert Digits(byte / 256, 0) == [];
  }

  lemma NothingSignificant(b: seq<Octet>)
    ensures Significant(b[..0]) == []
  {}

  lemma SignificantNext(b: seq<Octet>, i: nat)
    requires i < |b|
    ensures var before := Significant(b[..i]);
      Significant(b[..i + 1]) == if before != [] then before + [b[i]] else if b[i] == 0 then []
                                 else if b[i] >= 0x80 then [0, b[i]] else [b[i]]
  {
    assert b[..i + 1][..i] == b[..i];
  }

  /** Byte i of eight, by a shift. */
  lemma DigitAt(v: nat, i: nat)
    requires i < 8
    ensures Digits(v, 8)[i] == v / Pow(256, 7 - i) % 256
  {
    ShiftedDigit(v, 8, 7 - i);
  }

  lemma {:induction false} ShiftedDigit(v: nat, len: nat, shift: nat)
    requires shift < len
    ensures Digits(v, len)[len - 1 - shift] == v / Pow(256, shift) % 256
  {
    if shift > 0 {
      ShiftedDigit(v / 256, len - 1, shift - 1);
      DivByProduct(v, Pow(256, shift - 1));
      assert Pow(256, shift) == 256 * Pow(256, shift - 1);
    }
  }

  lemma DivByProduct(v: nat, p: nat)
    requires p > 0
    ensures v / 256 / p == v / (256 * p)
  {
    var q := v / 256 / p;
    var r := v / 256 % p;
    assert v == (q * p + r) * 256 + v % 256;
    assert (q * p + r) * 256 == q * (256 * p) + r * 256;
    MulMonotone(r + 1, p, 256);
    DivModUnique(v, 256 * p, q, r * 256 + v % 256);
  }

  lemma ZeroOrNot(v: nat)
    requires v < P64
    ensures Significant(Digits(v, 8)) == [] <==> v == 0
  {
    assert Pow(256, 4) == 0x1_0000_0000;
    PowAdd(256, 4, 4);
    NumOfDigits(v, 8);
    SignificantValue(Digits(v, 8));
  }
}
