/**
 The DTLS anti-replay window (libressl ssl/d1_pkt.c): sequence numbers compared with saturation, a 64-bit map
 sliding below the highest number seen, and a second map for the next epoch. RFC 4347 section 4.1.2.5.
 */
module ReplayWindow {
  import opened Arithmetic
  import opened Octets

  const P64: int := 0x1_0000_0000_0000_0000

  function Clamp(d: int): int {
    if d > 128 then 128 else if d < -128 then -128 else d
  }

  function Diff(v1: seq<Octet>, v2: seq<Octet>, i: nat): int
    requires i < |v1| == |v2|
  {
    var a: int := v1[i];
    a - v2[i]
  }

  /** Difference of the numbers in the bytes from i on. */
  function Rest(v1: seq<Octet>, v2: seq<Octet>, i: nat): int
    requires i <= |v1| == |v2|
  {
    Num(v1[i..]) - Num(v2[i..])
  }

  lemma RestStep(v1: seq<Octet>, v2: seq<Octet>, i: nat)
    requires i < |v1| == |v2|
    ensures Rest(v1, v2, i) == Diff(v1, v2, i) * Pow(256, |v1| - 1 - i) + Rest(v1, v2, i + 1)
  {
    NumSplitsFirst(v1[i..]);
    NumSplitsFirst(v2[i..]);
    assert v1[i..][1..] == v1[i + 1..] && v2[i..][1..] == v2[i + 1..];
    Distribute(v1[i], v2[i], Pow(256, |v1| - 1 - i));
  }

  lemma Distribute(x: int, y: int, p: nat)
    ensures (x - y) * p == x * p - y * p
  {}

  /** One byte of the subtraction: q is the weight of the bytes between the last and this one. */
  lemma BorrowStep(d: int, brw: int, high: nat, low: nat, q: nat, x: int)
    requires x == brw + d
    ensures d * (256 * q) + (brw * (256 * q) + high * 256 + low)
         == (x / 256) * (256 * (256 * q)) + (x % 256 * q + high) * 256 + low
  {
    assert x == x / 256 * 256 + x % 256;
    assert d * (256 * q) + brw * (256 * q) == x * (256 * q);
    assert x * (256 * q) == (x / 256 * 256) * (256 * q) + x % 256 * (256 * q);
  }

  /** The bytes so far are all 0, or all 255, exactly when their number is the least, or the greatest. */
  lemma HighStep(byte: nat, high: nat, q: nat)
    requires byte < 256 && high < q
    ensures byte * q + high < 256 * q
    ensures byte * q + high == 0 <==> byte == 0 && high == 0
    ensures byte * q + high == 256 * q - 1 <==> byte == 255 && high == q - 1
  {
    MulMonotone(byte, 255, q);
    MulAtLeast(byte, q);
  }

  lemma Powers()
    ensures Pow(256, 0) == 1 && Pow(256, 1) == 256 && Pow(256, 8) == P64
  {
    assert Pow(256, 4) == 0x1_0000_0000;
    PowAdd(256, 4, 4);
  }

  /** Collecting bits: nothing is set exactly when nothing was and the byte is 0. */
  function Collect(sat: bv8, byte: Octet): (r: bv8)
    ensures r == 0 <==> sat == 0 && byte == 0
  {
    OrIsZero(sat, byte as bv8);
    sat | byte as bv8
  }

  lemma OrIsZero(a: bv8, b: bv8)
    ensures a | b == 0 <==> a == 0 && b == 0
  {}

  /** The state of the subtraction once bytes k to 7 are done; high is the number in bytes k to 6 of the result. */
  ghost predicate Subtracted(v1: seq<Octet>, v2: seq<Octet>, k: nat, brw: int, high: nat, low: nat, sat: bv8)
    requires k <= 7 && |v1| == |v2| == 8
  {
    && -1 <= brw <= 0 && low < 256 && high < Pow(256, 7 - k)
    && Rest(v1, v2, k) == brw * Pow(256, 8 - k) + high * 256 + low
    && (low < 128 ==> (sat == 0 <==> high == 0))
    && (low >= 128 ==> (sat == 0 <==> high == Pow(256, 7 - k) - 1))
  }

  function LowByte(low: nat, x: int): Octet {
    if low >= 128 then 255 - x % 256 else x % 256
  }

  lemma SubtractByte(v1: seq<Octet>, v2: seq<Octet>, i: nat, k: nat, brw: int, high: nat, low: nat, sat: bv8)
    requires k == i + 1 <= 7 && |v1| == |v2| == 8 && Subtracted(v1, v2, k, brw, high, low, sat)
    ensures var x := brw + Diff(v1, v2, i);
      Subtracted(v1, v2, i, x / 256, x % 256 * Pow(256, 6 - i) + high, low, Collect(sat, LowByte(low, x)))
  {
    hide Pow, Rest, Diff, Collect, Num;
    var x := brw + Diff(v1, v2, i);
    PowNext(6 - i);
    PowNext(7 - i);
    RestStep(v1, v2, i);
    DiffRange(v1, v2, i);
    BorrowStep(Diff(v1, v2, i), brw, high, low, Pow(256, 6 - i), x);
    HighStep(x % 256, high, Pow(256, 6 - i));
  }

  lemma AllSubtracted(v1: seq<Octet>, v2: seq<Octet>, brw: int, high: nat, low: nat, sat: bv8)
    requires |v1| == |v2| == 8 && Subtracted(v1, v2, 0, brw, high, low, sat)
    ensures var d := Num(v1) - Num(v2);
      (if sat != 0 then brw * 256 + 128 else brw * 256 + low) == Clamp(d) <==> -(P64 - 128) <= d <= P64 - 128
  {
    hide Pow, Rest, Num;
    WholeRest(v1, v2);
    Powers();
    PowNext(7);
    ClampedWhen(Num(v1) - Num(v2), Pow(256, 7), brw, high, low, sat);
  }

  lemma ClampedWhen(d: int, p: nat, brw: int, high: nat, low: nat, sat: bv8)
    requires -1 <= brw <= 0 && low < 256 && high < p && 256 * p == P64 && d == brw * P64 + high * 256 + low
    requires (low < 128 ==> (sat == 0 <==> high == 0)) && (low >= 128 ==> (sat == 0 <==> high == p - 1))
    ensures (if sat != 0 then brw * 256 + 128 else brw * 256 + low) == Clamp(d) <==> -(P64 - 128) <= d <= P64 - 128
  {}

  /**
   satsub64be: the difference of two 64-bit big-endian numbers, saturated at 128 either way. The result is
   the clamped difference exactly when the difference stays 128 away from the ends of its range.
   */
  method SatSub64be(v1: seq<Octet>, v2: seq<Octet>) returns (r: int)
    requires |v1| == |v2| == 8
    ensures var d := Num(v1) - Num(v2); r == Clamp(d) <==> -(P64 - 128) <= d <= P64 - 128
  {
    hide *;
    var ret := Diff(v1, v2, 7);
    var sat: bv8 := 0;              // the low byte of `sat`, all that is looked at
    var brw := ret / 256;           // an arithmetic shift right
    var low: nat := ret % 256;
    var i := 6;
    ghost var k: nat, high: nat := 7, 0;
    LastByte(v1, v2);
    while i >= 0
      invariant -1 <= i <= 6 && k == i + 1
      invariant Subtracted(v1, v2, k, brw, high, low, sat)
    {
      var x := brw + Diff(v1, v2, i);
      SubtractByte(v1, v2, i, k, brw, high, low, sat);
      high := x % 256 * Pow(256, 6 - i) + high;
      sat := Collect(sat, LowByte(low, x));     // the low byte of ~brw, or of brw
      brw := x / 256;
      i, k := i - 1, i;
    }
    AllSubtracted(v1, v2, brw, high, low, sat);
    r := if sat != 0 then brw * 256 + 128 else brw * 256 + low;
  }

  lemma PowNext(k: nat)
    ensures Pow(256, k + 1) == 256 * Pow(256, k)
  {}

  lemma DiffRange(v1: seq<Octet>, v2: seq<Octet>, i: nat)
    requires i < |v1| == |v2|
    ensures -256 < Diff(v1, v2, i) < 256
  {}

  lemma WholeRest(v1: seq<Octet>, v2: seq<Octet>)
    requires |v1| == |v2|
    ensures Rest(v1, v2, 0) == Num(v1) - Num(v2)
  {
    assert v1[0..] == v1 && v2[0..] == v2;
  }

  lemma LastByte(v1: seq<Octet>, v2: seq<Octet>)
    requires |v1| == |v2| == 8
    ensures Subtracted(v1, v2, 7, Diff(v1, v2, 7) / 256, 0, Diff(v1, v2, 7) % 256, 0)
  {
    Powers();
    RestStep(v1, v2, 7);
    assert v1[8..] == [] && v2[8..] == [];
  }

  lemma {:induction false} ZeroNumber(n: nat)
    ensures Num(seq(n, _ => 0)) == 0
  {
    if n > 0 {
      ZeroNumber(n - 1);
      assert seq(n, _ => 0)[..n - 1] == seq(n - 1, _ => 0);
    }
  }

  /** Eight bytes of which the upper two, the place of the epoch, are zero. */
  predicate IsSequenceNumber(b: seq<Octet>) {
    |b| == 8 && b[0] == 0 && b[1] == 0
  }

  lemma SequenceNumberBound(b: seq<Octet>)
    requires IsSequenceNumber(b)
    ensures Num(b) < Pow(256, 6) <= P64 / 0x1_0000
  {
    NumSplitsFirst(b);
    NumSplitsFirst(b[1..]);
    DigitsOfNum(b[1..][1..]);
    assert Pow(256, 3) == 0x100_0000;
    PowAdd(256, 3, 3);
  }

  /** DTLS1_BITMAP: bit i of the map stands for the number i below the highest. */
  class Bitmap {
    const width: nat                // size of an unsigned long
    var bits: seq<bool>
    var maxSeqNum: seq<Octet>
    ghost var marked: set<int>      // every number ever marked

    ghost function Max(): nat
      reads this
    {
      Num(maxSeqNum)
    }

    ghost predicate Valid()
      reads this
    {
      && 1 <= width <= 128 && |bits| == width && IsSequenceNumber(maxSeqNum)
      && (forall n :: n in marked ==> 0 <= n <= Max())
      && (forall i :: 0 <= i < width ==> (bits[i] <==> Max() - i in marked))
    }

    /** Whether a number lies above the left edge of the window. */
    ghost predicate InWindow(n: nat)
      reads this
    {
      Max() - n < width
    }

    constructor (width: nat)
      requires 1 <= width <= 128
      ensures Valid() && marked == {} && this.width == width
    {
      this.width := width;
      bits, maxSeqNum, marked := seq(width, _ => false), seq(8, _ => 0), {};
    }

    /** dtls1_record_replay_check: exactly the unmarked numbers in or above the window pass. */
    method ReplayCheck(number: seq<Octet>) returns (ok: bool)
      requires Valid() && IsSequenceNumber(number)
      ensures ok <==> InWindow(Num(number)) && Num(number) !in marked
    {
      hide Num;
      SequenceNumberBound(number);
      SequenceNumberBound(maxSeqNum);
      var cmp := SatSub64be(number, maxSeqNum);
      if cmp > 0 {
        return true;
      }
      var shift := -cmp;
      if shift >= width {
        return false;
      }
      return !bits[shift];
    }

    /** dtls1_record_bitmap_update. */
    method Update(number: seq<Octet>)
      requires Valid() && IsSequenceNumber(number)
      modifies this
      ensures Valid() && marked == old(marked) + {Num(number)}
    {
      hide Num;
      SequenceNumberBound(number);
      SequenceNumberBound(maxSeqNum);
      var cmp := SatSub64be(number, maxSeqNum);
      if cmp > 0 {
        var shift := cmp;
        if shift < width {
          bits := [true] + seq(shift - 1, _ => false) + bits[..width - shift];
        } else {
          bits := [true] + seq(width - 1, _ => false);
        }
        maxSeqNum := number;
      } else {
        var shift := -cmp;
        if shift < width {
          bits := bits[shift := true];
        }
      }
      marked := marked + {Num(number)};
    }

    /** memcpy of a whole bitmap. */
    method CopyFrom(other: Bitmap)
      requires other.Valid() && width == other.width
      modifies this
      ensures Valid() && marked == old(other.marked) && Max() == old(other.Max())
    {
      bits, maxSeqNum, marked := other.bits, other.maxSeqNum, other.marked;
    }

    /** memset of a whole bitmap to zero. */
    method Clear()
      requires Valid()
      modifies this
      ensures Valid() && marked == {} && Max() == 0
    {
      bits, maxSeqNum, marked := seq(width, _ => false), seq(8, _ => 0), {};
      ZeroNumber(8);
    }
  }
}
