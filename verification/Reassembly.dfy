/**
 The bit mask that DTLS keeps over a message being reassembled (the RSMBLY_BITMASK macros of libressl
 ssl/d1_both.c): one bit for each byte of the message, bit j % 8 of byte j / 8 for byte j.
 */
module Reassembly {

  /** The byte with only bit k set. */
  function One(k: nat): bv8
    requires k < 8
  {
    [1, 2, 4, 8, 16, 32, 64, 128][k]
  }

  function Bit(b: bv8, k: nat): bool
    requires k < 8
  {
    b & One(k) != 0
  }

  /** bitmask_start_values: bits k and up. */
  function StartValue(k: nat): bv8
    requires k < 8
  {
    [0xff, 0xfe, 0xfc, 0xf8, 0xf0, 0xe0, 0xc0, 0x80][k]
  }

  /** bitmask_end_values: bits below k, where 0 stands for 8. */
  function EndValue(k: nat): bv8
    requires k < 8
  {
    [0xff, 0x01, 0x03, 0x07, 0x0f, 0x1f, 0x3f, 0x7f][k]
  }

  lemma OrBits(a: bv8, b: bv8, k: nat)
    requires k < 8
    ensures Bit(a | b, k) <==> Bit(a, k) || Bit(b, k)
  {
    OrAnd(a, b, One(k));
  }

  lemma OrAnd(a: bv8, b: bv8, c: bv8)
    ensures (a | b) & c != 0 <==> a & c != 0 || b & c != 0
  {}

  lemma OneBits(i: nat, k: nat)
    requires i < 8 && k < 8
    ensures Bit(One(i), k) <==> k == i
  {}

  lemma TableBits(s: nat, k: nat)
    requires s < 8 && k < 8
    ensures Bit(StartValue(s), k) <==> s <= k
    ensures Bit(EndValue(s), k) <==> s == 0 || k < s
    ensures Bit(0xff, k)
  {}

  lemma SameBits(a: bv8, b: bv8)
    requires forall k :: 0 <= k < 8 ==> (Bit(a, k) <==> Bit(b, k))
    ensures a == b
  {
    assert Bit(a, 0) == Bit(b, 0) && Bit(a, 1) == Bit(b, 1) && Bit(a, 2) == Bit(b, 2) && Bit(a, 3) == Bit(b, 3);
    assert Bit(a, 4) == Bit(b, 4) && Bit(a, 5) == Bit(b, 5) && Bit(a, 6) == Bit(b, 6) && Bit(a, 7) == Bit(b, 7);
  }

  /** Whether byte j of the message is marked. */
  function Marked(mask: seq<bv8>, j: nat): bool
    requires j < 8 * |mask|
  {
    Bit(mask[j / 8], j % 8)
  }

  /** RSMBLY_BITMASK_SIZE. */
  function MaskSize(msgLen: nat): nat {
    (msgLen + 7) / 8
  }

  /** RSMBLY_BITMASK_MARK: marks exactly the bytes from start to end, and unmarks none. */
  method Mark(mask: array<bv8>, start: nat, end: nat)
    requires start <= end <= 8 * mask.Length
    modifies mask
    ensures forall j :: 0 <= j < 8 * mask.Length ==>
      (Marked(mask[..], j) <==> old(Marked(mask[..], j)) || start <= j < end)
  {
    hide Bit;
    if end - start <= 8 {
      var ii := start;
      while ii < end
        invariant start <= ii <= end
        invariant forall j :: 0 <= j < 8 * mask.Length ==>
          (Marked(mask[..], j) <==> old(Marked(mask[..], j)) || start <= j < ii)
      {
        ghost var was := mask[..];
        mask[ii / 8] := mask[ii / 8] | One(ii % 8);
        MarkedOr(was, ii / 8, One(ii % 8), mask[..]);
        forall j | 0 <= j < 8 * mask.Length
          ensures Marked(mask[..], j) <==> Marked(was, j) || j == ii
        {
          OneBits(ii % 8, j % 8);
        }
        ii := ii + 1;
      }
    } else {
      MarkLong(mask, start, end);
    }
  }

  /** Storing a byte with more bits marks those bits. */
  lemma MarkedOr(was: seq<bv8>, i: nat, bits: bv8, now: seq<bv8>)
    requires i < |was| && now == was[i := was[i] | bits]
    ensures forall j :: 0 <= j < 8 * |was| ==> (Marked(now, j) <==> Marked(was, j) || (j / 8 == i && Bit(bits, j % 8)))
  {
    forall j | 0 <= j < 8 * |was|
      ensures Marked(now, j) <==> Marked(was, j) || (j / 8 == i && Bit(bits, j % 8))
    {
      if j / 8 == i {
        OrBits(was[i], bits, j % 8);
      }
    }
  }

  /** The range of more than 8 bytes: a start value, whole bytes, an end value. */
  method MarkLong(mask: array<bv8>, start: nat, end: nat)
    requires start + 8 < end <= 8 * mask.Length
    modifies mask
    ensures forall j :: 0 <= j < 8 * mask.Length ==>
      (Marked(mask[..], j) <==> old(Marked(mask[..], j)) || start <= j < end)
  {
    hide Bit;
    ghost var first := mask[..];
    var lo, hi := start / 8, (end - 1) / 8;
    mask[lo] := mask[lo] | StartValue(start % 8);
    ghost var second := mask[..];
    MarkedOr(first, lo, StartValue(start % 8), second);
    var ii := lo + 1;
    while ii < hi
      invariant lo < ii <= hi
      invariant forall i :: 0 <= i < mask.Length ==> mask[i] == if lo < i < ii then 0xff else second[i]
    {
      mask[ii] := 0xff;
      ii := ii + 1;
    }
    ghost var third := mask[..];
    mask[hi] := mask[hi] | EndValue(end % 8);
    MarkedOr(third, hi, EndValue(end % 8), mask[..]);
    forall j | 0 <= j < 8 * mask.Length
      ensures Marked(mask[..], j) <==> Marked(first, j) || start <= j < end
    {
      TableBits(start % 8, j % 8);
      TableBits(end % 8, j % 8);
      InRange(start, end, j);
    }
  }

  /** Where an index of the message lies among the bytes of the mask. */
  lemma InRange(start: nat, end: nat, j: nat)
    requires start + 8 < end
    ensures start <= j < end <==>
      || (j / 8 == start / 8 && start % 8 <= j % 8)
      || start / 8 < j / 8 < (end - 1) / 8
      || (j / 8 == (end - 1) / 8 && (end % 8 == 0 || j % 8 < end % 8))
  {}

  /** RSMBLY_BITMASK_IS_COMPLETE: exactly the bytes of the message are marked. */
  method IsComplete(mask: array<bv8>, msgLen: nat) returns (complete: bool)
    requires 0 < msgLen && mask.Length == MaskSize(msgLen)
    ensures complete <==> forall j :: 0 <= j < 8 * mask.Length ==> (Marked(mask[..], j) <==> j < msgLen)
  {
    hide Bit;
    var last := (msgLen - 1) / 8;
    complete := mask[last] == EndValue(msgLen % 8);
    if complete {
      var ii := last - 1;
      while ii >= 0
        invariant -1 <= ii < last
        invariant forall i :: ii < i < last ==> mask[i] == 0xff
      {
        if mask[ii] != 0xff {
          NotFull(mask[..], ii);
          return false;
        }
        ii := ii - 1;
      }
      AllMarked(mask[..], msgLen);
    } else if forall j :: 0 <= j < 8 * mask.Length ==> (Marked(mask[..], j) <==> j < msgLen) {
      EndIsMarked(mask[..], msgLen);
      assert false;
    }
  }

  lemma AllMarked(mask: seq<bv8>, msgLen: nat)
    requires 0 < msgLen && |mask| == MaskSize(msgLen)
    requires mask[(msgLen - 1) / 8] == EndValue(msgLen % 8) && forall i :: 0 <= i < (msgLen - 1) / 8 ==> mask[i] == 0xff
    ensures forall j :: 0 <= j < 8 * |mask| ==> (Marked(mask, j) <==> j < msgLen)
  {
    hide Bit, EndValue;
    forall j | 0 <= j < 8 * |mask| ensures Marked(mask, j) <==> j < msgLen {
      TableBits(msgLen % 8, j % 8);
    }
  }

  lemma EndIsMarked(mask: seq<bv8>, msgLen: nat)
    requires 0 < msgLen && |mask| == MaskSize(msgLen)
    requires forall j :: 0 <= j < 8 * |mask| ==> (Marked(mask, j) <==> j < msgLen)
    ensures mask[(msgLen - 1) / 8] == EndValue(msgLen % 8)
  {
    hide Bit, EndValue;
    var last := (msgLen - 1) / 8;
    forall k | 0 <= k < 8 ensures Bit(mask[last], k) <==> Bit(EndValue(msgLen % 8), k) {
      TableBits(msgLen % 8, k);
      assert Marked(mask, 8 * last + k) <==> 8 * last + k < msgLen;
    }
    SameBits(mask[last], EndValue(msgLen % 8));
  }

  lemma NotFull(mask: seq<bv8>, i: nat)
    requires i < |mask| && mask[i] != 0xff
    ensures exists j :: 8 * i <= j < 8 * i + 8 && !Marked(mask, j)
  {
    if forall j :: 8 * i <= j < 8 * i + 8 ==> Marked(mask, j) {
      forall k | 0 <= k < 8 ensures Bit(mask[i], k) <==> Bit(0xff, k) {
        TableBits(0, k);
        assert Marked(mask, 8 * i + k);
      }
      SameBits(mask[i], 0xff);
      assert false;
    }
  }
}
