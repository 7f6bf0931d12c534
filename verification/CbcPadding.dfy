/**
 CBC padding: added when a record is sent (libressl ssl/d1_enc.c), checked and removed without branching
 on it when received, and the MAC copied out from wherever the padding left it (libressl ssl/s3_cbc.c).
 RFC 4346 section 6.2.3.2 gives the format: p + 1 bytes of value p at the end.
 */
module CbcPadding {
  import opened Arithmetic
  import opened Memory
  import opened MerkleDamgard
  import opened ConstantTime

  /** The SSL3_RECORD fields in use; `typ` also carries the padding length in its upper bits. */
  class Record {
    const data: array<bv8>
    var off: nat
    var length: nat
    var typ: nat

    constructor (data: array<bv8>, off: nat, length: nat, typ: nat)
      ensures this.data == data && this.off == off && this.length == length && this.typ == typ
    {
      this.data, this.off, this.length, this.typ := data, off, length, typ;
    }

    ghost predicate Valid()
      reads this
    {
      off + length <= data.Length < 0x4000_0000
    }

    function Payload(): Bytes
      requires Valid()
      reads this, data
    {
      data[off..off + length]
    }
  }

  function Repeat(b: bv8, n: nat): (s: Bytes)
    ensures |s| == n
  {
    seq(n, _ => b)
  }

  /** The padding that completes a block. */
  function PadFor(length: nat, blockSize: nat): Bytes
    requires 1 < blockSize <= 256
  {
    var i := blockSize - length % blockSize;
    Repeat((i - 1) as bv8, i)
  }

  lemma WholeBlocks(l: nat, blockSize: nat)
    requires blockSize > 1
    ensures (l + (blockSize - l % blockSize)) % blockSize == 0
  {
    DivModUnique(l + (blockSize - l % blockSize), blockSize, l / blockSize + 1, 0);
  }

  /** dtls1_enc when sending (d1_enc.c, lines 185 to 196). */
  method AddPadding(rec: Record, blockSize: nat)
    requires rec.Valid() && 1 < blockSize <= 256
    requires rec.off + rec.length + blockSize <= rec.data.Length
    modifies rec`length, rec.data
    ensures rec.Valid() && rec.length % blockSize == 0
    ensures rec.Payload() == old(rec.Payload()) + PadFor(old(rec.length), blockSize)
    ensures rec.data[..rec.off] == old(rec.data[..rec.off])
  {
    var l := rec.length;
    var i := blockSize - l % blockSize;
    var j := (i - 1) as bv8;
    ghost var before := rec.data[..];
    MemSet(rec.data, rec.off + l, j, i);
    rec.length := l + i;
    WholeBlocks(l, blockSize);
    assert rec.Payload() == before[rec.off..rec.off + l] + Repeat(j, i);
  }

  /** Where the fold over the last bytes stops: 255 bytes, or the record without its first. */
  function CheckedBytes(length: nat): (n: nat)
    requires length > 0
  {
    if 255 > length - 1 then length - 1 else 255
  }

  lemma NextPadByte(p: Bytes, pad: nat, i: nat)
    requires i < |p|
    ensures EndsWithPad(p, pad, i + 1) <==> EndsWithPad(p, pad, i) && (i <= pad ==> p[|p| - 1 - i] == p[|p| - 1])
  {}

  lemma NoPadByte(p: Bytes, pad: nat)
    ensures EndsWithPad(p, pad, 0)
  {}

  /** The padding that the code accepts. */
  ghost predicate Accepted(p: Bytes, macSize: nat) {
    && |p| > macSize
    && var pad := p[|p| - 1] as nat;
       |p| >= macSize + 1 + pad && EndsWithPad(p, pad, CheckedBytes(|p|))
  }

  /** How many bytes are cut off a record. */
  ghost function Cut(p: Bytes, macSize: nat): (n: nat)
    requires p != []
    ensures n <= |p|
  {
    if Accepted(p, macSize) then p[|p| - 1] as nat + 1 else 0
  }

  /** The padding of RFC 4346 section 6.2.3.2. */
  ghost predicate WellPadded(p: Bytes, macSize: nat) {
    && |p| > macSize
    && var pad := p[|p| - 1] as nat;
       |p| >= macSize + 1 + pad && EndsWithPad(p, pad, pad + 1)
  }

  /**
   The code accepts exactly the well-formed padding, save that of 256 bytes only 255 are looked at.
   A record with a MAC never ends its padding at its own first byte.
   */
  lemma AcceptedIsWellPadded(p: Bytes, macSize: nat)
    requires |p| > macSize > 0
    ensures WellPadded(p, macSize) <==>
            Accepted(p, macSize) && (p[|p| - 1] as nat == 255 ==> p[|p| - 256] == p[|p| - 1])
  {
    var pad := p[|p| - 1] as nat;
    if pad == 255 && |p| >= 256 {
      assert EndsWithPad(p, 255, 256) <==> EndsWithPad(p, 255, 255) && p[|p| - 256] == p[|p| - 1] by {
        NextPadByte(p, 255, 255);
      }
    }
  }

  /** Such a record exists: its first padding byte is wrong and it is accepted. */
  lemma UncheckedByte(macSize: nat)
    requires macSize > 0
    ensures var p := Repeat(0, macSize) + [0] + Repeat(255, 255);
            Accepted(p, macSize) && !WellPadded(p, macSize)
  {
    var p := Repeat(0, macSize) + [0] + Repeat(255, 255);
    assert p[|p| - 1] == 255 && p[|p| - 256] == 0;
    AcceptedIsWellPadded(p, macSize);
  }

  /** Padding is some bytes of one value, which is their number less one, and as few as complete a block. */
  lemma PadForIs(length: nat, blockSize: nat)
    requires 1 < blockSize <= 256
    ensures var pad := PadFor(length, blockSize);
      && 1 <= |pad| <= blockSize && (length + |pad|) % blockSize == 0
      && forall i :: 0 <= i < |pad| ==> pad[i] == ((|pad| - 1) % 256) as bv8
  {
    WholeBlocks(length, blockSize);
    var pad := PadFor(length, blockSize);
    assert |pad| == blockSize - length % blockSize;
  }

  /** A record is well padded if its last byte counts the bytes before it that equal it, and a MAC is before them. */
  lemma WellPaddedIs(p: Bytes, macSize: nat)
    requires p != []
    ensures WellPadded(p, macSize) <==>
      var n := p[|p| - 1] as nat;
      macSize + n + 1 <= |p| && forall i :: |p| - 1 - n <= i < |p| ==> p[i] == p[|p| - 1]
  {}

  /** No padding byte has been found wrong. */
  predicate LowByteSet(good: bv32) {
    good & 0xff == 0xff
  }

  function Clear(good: bv32, x: bv8): bv32 {
    good & !(x as bv32)
  }

  lemma ClearKeeps(good: bv32, x: bv8)
    ensures LowByteSet(Clear(good, x)) <==> LowByteSet(good) && x == 0
  {}

  /** s3_cbc.c, lines 170 to 174: the low eight bits and-ed together and copied everywhere. */
  function FoldLowByte(good: bv32): bv32 {
    var g1 := good & (good >> 4);
    var g2 := g1 & (g1 >> 2);
    var g3 := g2 & (g2 >> 1);
    if (g3 << 31) >= 0x8000_0000 then 0xffff_ffff else 0
  }

  lemma FoldIsConjunction(good: bv32)
    ensures FoldLowByte(good) == if LowByteSet(good) then 0xffff_ffff else 0
  {}

  /** s3_cbc.c, lines 158 to 164 on one byte: how much of a wrong padding byte reaches `good`. */
  function PadMismatch(pad: bv8, i: nat, b: bv8): bv8
    requires i < 0x4000_0000
  {
    Byte(ConstantTimeGe(pad as nat, i)) & (pad ^ b)
  }

  lemma MismatchIsZero(pad: bv8, i: nat, b: bv8)
    requires i < 0x4000_0000
    ensures PadMismatch(pad, i, b) == 0 <==> (i <= pad as nat ==> b == pad)
  {
    assert Byte(ALL_ONES) == 0xff && Byte(0) == 0;
    XorIsZero(pad, b);
  }

  lemma XorIsZero(a: bv8, b: bv8)
    ensures a ^ b == 0 <==> a == b
  {}

  /** A mask as a bit vector. */
  function MaskWord(m: u32): bv32
    requires m == 0 || m == ALL_ONES
  {
    if m == 0 then 0 else 0xffff_ffff
  }

  lemma StartingMask(a: nat, b: nat)
    requires a < 0x4000_0000 && b < 0x4000_0000
    ensures LowByteSet(MaskWord(ConstantTimeGe(a, b))) <==> a >= b
  {}

  /** The last i bytes of the record that belong to the padding all equal its length byte. */
  ghost predicate EndsWithPad(p: Bytes, pad: nat, i: nat) {
    i <= |p| && forall q :: |p| - i <= q < |p| && |p| - 1 - pad <= q ==> p[q] == p[|p| - 1]
  }

  /** tls1_cbc_remove_padding: 0 if publicly too short, 1 if the padding was accepted and removed, -1 otherwise. */
  method RemovePadding(rec: Record, explicitIv: bool, blockSize: nat, macSize: nat) returns (r: int)
    requires rec.Valid() && rec.typ < 256 && macSize <= 64 && blockSize <= 256
    modifies rec`off, rec`length, rec`typ
    ensures rec.Valid()
    ensures var iv := if explicitIv then blockSize else 0;
            if old(rec.length) < 1 + macSize + iv then
              r == 0 && rec.off == old(rec.off) && rec.length == old(rec.length) && rec.typ == old(rec.typ)
            else
              var p := old(rec.Payload())[iv..];
              && rec.off == old(rec.off) + iv
              && r == (if Accepted(p, macSize) then 1 else -1)
              && var cut := Cut(p, macSize);
                 rec.length == |p| - cut && rec.typ == old(rec.typ) + 256 * cut && rec.Payload() == p[..|p| - cut]
  {
    hide Accepted, Cut;
    var overhead := 1 + macSize;
    if explicitIv {
      if overhead + blockSize > rec.length {
        return 0;
      }
      rec.off := rec.off + blockSize;
      rec.length := rec.length - blockSize;
    } else if overhead > rec.length {
      return 0;
    }
    assert rec.Payload() == old(rec.Payload())[if explicitIv then blockSize else 0..];
    r := StripPadding(rec, overhead);
  }

  /** s3_cbc.c, lines 136 to 180: the padding is cut off if it is accepted, once the IV is skipped. */
  method StripPadding(rec: Record, overhead: nat) returns (r: int)
    requires rec.Valid() && 1 <= overhead <= 65 && overhead <= rec.length
    modifies rec`length, rec`typ
    ensures rec.Valid()
    ensures var p := old(rec.Payload());
            var cut := Cut(p, overhead - 1);
            && r == (if Accepted(p, overhead - 1) then 1 else -1)
            && rec.length == |p| - cut && rec.typ == old(rec.typ) + 256 * cut && rec.Payload() == p[..|p| - cut]
  {
    hide Accepted, Cut;
    ghost var p, bytes := rec.Payload(), rec.data[..];
    assert p == bytes[rec.off..rec.off + |p|];
    var accepted, cut := FindPadding(rec, overhead);
    rec.length := rec.length - cut;
    rec.typ := rec.typ + 256 * cut;
    r := if accepted then 1 else -1;
    ShorterPayload(rec, p, bytes, cut);
  }

  /** The padding length as the last byte gives it, and whether the padding is accepted. */
  method FindPadding(rec: Record, overhead: nat) returns (accepted: bool, cut: nat)
    requires rec.Valid() && 1 <= overhead <= 65 && overhead <= rec.length
    ensures accepted <==> Accepted(rec.Payload(), overhead - 1)
    ensures cut == Cut(rec.Payload(), overhead - 1)
  {
    hide Accepted, Cut;
    var pad := rec.data[rec.off + rec.length - 1];
    CutIs(rec.Payload(), overhead - 1, pad);
    var good := CheckPadding(rec, pad, overhead);
    // `good` is all ones or zero, so masking with it is a choice.
    accepted := good == 0xffff_ffff;
    cut := if accepted then pad as nat + 1 else 0;
  }

  lemma CutIs(p: Bytes, macSize: nat, pad: bv8)
    requires p != [] && pad == p[|p| - 1]
    ensures Cut(p, macSize) == if Accepted(p, macSize) then pad as nat + 1 else 0
  {
    hide Accepted;
  }

  lemma ShorterPayload(rec: Record, p: Bytes, bytes: Bytes, cut: nat)
    requires rec.Valid() && rec.data[..] == bytes && cut <= |p| && rec.length == |p| - cut
    requires rec.off + |p| <= |bytes| && p == bytes[rec.off..rec.off + |p|]
    ensures rec.Payload() == p[..|p| - cut]
  {}

  lemma AcceptedIs(p: Bytes, overhead: nat, pad: bv8)
    requires 1 <= overhead <= |p| && pad == p[|p| - 1]
    ensures Accepted(p, overhead - 1) <==>
            |p| >= overhead + pad as nat && EndsWithPad(p, pad as nat, CheckedBytes(|p|))
  {
    hide EndsWithPad;
  }

  /** s3_cbc.c, lines 144 to 174: a mask that says whether the padding is accepted. */
  method CheckPadding(rec: Record, pad: bv8, overhead: nat) returns (good: bv32)
    requires rec.Valid() && 1 <= overhead <= 65 && overhead <= rec.length
    requires pad == rec.data[rec.off + rec.length - 1]
    ensures good == if Accepted(rec.Payload(), overhead - 1) then 0xffff_ffff else 0
  {
    hide Accepted, LowByteSet, Clear, PadMismatch, FoldLowByte, ConstantTimeGe, EndsWithPad, MaskWord, Byte;
    var padding := pad as nat;
    AcceptedIs(rec.Payload(), overhead, pad);
    good := MaskWord(ConstantTimeGe(rec.length, overhead + padding));
    StartingMask(rec.length, overhead + padding);
    var toCheck := 255;
    if toCheck > rec.length - 1 {
      toCheck := rec.length - 1;
    }
    assert toCheck == CheckedBytes(rec.length);
    hide CheckedBytes, Record.Valid;
    good := FoldPadding(rec, pad, toCheck, good);
    FoldIsConjunction(good);
    good := FoldLowByte(good);
  }

  /** s3_cbc.c, lines 157 to 165: the last bytes, one after the other. */
  method FoldPadding(rec: Record, pad: bv8, toCheck: nat, good0: bv32) returns (good: bv32)
    requires rec.Valid() && toCheck < rec.length && pad == rec.data[rec.off + rec.length - 1]
    ensures LowByteSet(good) <==> LowByteSet(good0) && EndsWithPad(rec.Payload(), pad as nat, toCheck)
  {
    hide LowByteSet, Clear, PadMismatch, EndsWithPad;
    ghost var p := rec.Payload();
    good := good0;
    NoPadByte(p, pad as nat);
    for i := 0 to toCheck
      invariant LowByteSet(good) <==> LowByteSet(good0) && EndsWithPad(p, pad as nat, i)
    {
      var b := rec.data[rec.off + rec.length - 1 - i];
      assert b == p[|p| - 1 - i];
      NextPadByte(p, pad as nat, i);
      ClearKeeps(good, PadMismatch(pad, i, b));
      MismatchIsZero(pad, i, b);
      good := Clear(good, PadMismatch(pad, i, b));
    }
  }

  /** What dtls1_enc adds is accepted and gives back exactly what was there, whatever precedes it. */
  lemma PaddingRoundTrip(x: Bytes, macSize: nat, blockSize: nat)
    requires 1 < blockSize <= 256 && |x| >= macSize > 0
    ensures var p := x + PadFor(|x|, blockSize);
            && Accepted(p, macSize) && WellPadded(p, macSize)
            && p[..|p| - (p[|p| - 1] as nat + 1)] == x
  {
    hide Accepted, WellPadded, Repeat;
    var i := blockSize - |x| % blockSize;
    assert 1 <= i <= 256 && PadFor(|x|, blockSize) == Repeat((i - 1) as bv8, i);
    RoundTripOf(x, i, macSize);
  }

  lemma RoundTripOf(x: Bytes, i: nat, macSize: nat)
    requires 1 <= i <= 256 && |x| >= macSize > 0
    ensures var p := x + Repeat((i - 1) as bv8, i);
            && Accepted(p, macSize) && WellPadded(p, macSize)
            && p[..|p| - (p[|p| - 1] as nat + 1)] == x
  {
    var b := (i - 1) as bv8;
    var p := x + Repeat(b, i);
    AllPad(p, b, i);
    assert p[..|p| - i] == x;
  }

  lemma AllPad(p: Bytes, b: bv8, i: nat)
    requires 1 <= i <= |p| && b as nat == i - 1 && forall q :: |p| - i <= q < |p| ==> p[q] == b
    ensures p[|p| - 1] == b && EndsWithPad(p, i - 1, i) && EndsWithPad(p, i - 1, CheckedBytes(|p|))
  {}

  /** Where, among md_size cells filled round robin from scanStart, the MAC byte for cell q comes from. */
  function Source(macStart: nat, mdSize: nat, r: nat, q: nat): nat
    requires q < mdSize && r < mdSize
  {
    if q >= r then macStart + q - r else macStart + q + mdSize - r
  }

  /** ssl3_cbc_copy_mac: the md_size bytes before the end of the unpadded record. */
  method CopyMac(out: array<bv8>, rec: Record, mdSize: nat, origLen: nat)
    requires 0 < mdSize <= 64 && mdSize % 2 == 0 && out.Length >= mdSize && out != rec.data
    requires rec.off + origLen <= rec.data.Length < 0x4000_0000
    requires mdSize <= rec.length <= origLen <= rec.length + 256
    modifies out
    ensures out[..mdSize] == rec.data[rec.off + rec.length - mdSize..rec.off + rec.length]
    ensures out[mdSize..] == old(out[mdSize..])
  {
    hide Source, Rotated;
    var macEnd := rec.length;
    var macStart := macEnd - mdSize;
    var scanStart := 0;
    if origLen > mdSize + 255 + 1 {
      scanStart := origLen - (mdSize + 255 + 1);
    }
    var divSpoiler := mdSize / 2 * 0x100_0000;
    var rotateOffset := (divSpoiler + macStart - scanStart) % mdSize;
    SpoilerVanishes(mdSize, macStart - scanStart);
    var rotated := Scan(rec, scanStart, macStart, mdSize, origLen, rotateOffset);
    Rotate(out, rotated, mdSize, rotateOffset);
    forall i | 0 <= i < mdSize
      ensures out[i] == rec.data[rec.off + macStart + i]
    {
      var q := Rotated(mdSize, rotateOffset, i);
      SourceOfRotated(macStart, mdSize, rotateOffset, i);
      assert out[i] == rotated[q];
    }
    assert |out[..mdSize]| == |rec.data[rec.off + macStart..rec.off + macEnd]|;
  }

  lemma SourceOfRotated(macStart: nat, mdSize: nat, r: nat, i: nat)
    requires r < mdSize && i < mdSize
    ensures Source(macStart, mdSize, r, Rotated(mdSize, r, i)) == macStart + i
  {}

  /** The cell that is i places after the rotation offset. */
  function Rotated(mdSize: nat, r: nat, i: nat): (q: nat)
    requires r < mdSize && i < mdSize
    ensures q < mdSize
  {
    if r + i < mdSize then r + i else r + i - mdSize
  }

  /** s3_cbc.c, lines 255 to 261: the cells in order, from the rotation offset on. */
  method Rotate(out: array<bv8>, rotated: array<bv8>, mdSize: nat, r: nat)
    requires r < mdSize <= 64 == rotated.Length && out.Length >= mdSize && out != rotated
    modifies out
    ensures forall i :: 0 <= i < mdSize ==> out[i] == rotated[Rotated(mdSize, r, i)]
    ensures out[mdSize..] == old(out[mdSize..])
  {
    var rotateOffset := r;
    for i := 0 to mdSize
      invariant i < mdSize ==> rotateOffset == Rotated(mdSize, r, i)
      invariant forall p :: 0 <= p < i ==> out[p] == rotated[Rotated(mdSize, r, p)]
      invariant out[mdSize..] == old(out[mdSize..])
    {
      out[i] := rotated[rotateOffset];
      rotateOffset := rotateOffset + 1;
      rotateOffset := if ConstantTimeLt(rotateOffset, mdSize) == ALL_ONES then rotateOffset else 0;
    }
  }

  /** The multiple of md_size that hides the division leaves the remainder alone. */
  lemma SpoilerVanishes(mdSize: nat, x: nat)
    requires mdSize > 0 && mdSize % 2 == 0
    ensures (mdSize / 2 * 0x100_0000 + x) % mdSize == x % mdSize
  {
    assert mdSize / 2 * 0x100_0000 == 0x80_0000 * mdSize;
    assert x == x / mdSize * mdSize + x % mdSize;
    assert (0x80_0000 + x / mdSize) * mdSize == 0x80_0000 * mdSize + x / mdSize * mdSize;
    DivModUnique(mdSize / 2 * 0x100_0000 + x, mdSize, 0x80_0000 + x / mdSize, x % mdSize);
  }

  /** s3_cbc.c, lines 244 to 251: every byte from scanStart is or-ed into a cell, masked to zero outside the MAC. */
  method Scan(rec: Record, scanStart: nat, macStart: nat, mdSize: nat, origLen: nat, r: nat)
    returns (rotated: array<bv8>)
    requires 0 < mdSize <= 64 && scanStart <= macStart && macStart + mdSize <= origLen
    requires rec.off + origLen <= rec.data.Length < 0x4000_0000
    requires r == (macStart - scanStart) % mdSize
    ensures fresh(rotated) && rotated.Length == 64
    ensures forall q :: 0 <= q < mdSize ==>
              macStart <= Source(macStart, mdSize, r, q) < macStart + mdSize
              && rotated[q] == rec.data[rec.off + Source(macStart, mdSize, r, q)]
  {
    hide Kept;
    var macEnd := macStart + mdSize;
    rotated := new bv8[64](_ => 0);
    var j := 0;
    for i := scanStart to origLen
      invariant j == (i - scanStart) % mdSize
      invariant forall q :: 0 <= q < mdSize ==>
                  rotated[q] == if Source(macStart, mdSize, r, q) < i
                                then rec.data[rec.off + Source(macStart, mdSize, r, q)] else 0
    {
      CellOf(macStart, scanStart, mdSize, r, i, j);
      KeptInside(rotated[j], rec.data[rec.off + i], i, macStart, macEnd);
      rotated[j] := rotated[j] | Kept(rec.data[rec.off + i], i, macStart, macEnd);
      NextCell(i - scanStart, mdSize);
      j := j + 1;
      j := if ConstantTimeLt(j, mdSize) == ALL_ONES then j else 0;
    }
  }

  /** A record byte masked to zero unless macStart <= i < macEnd. */
  function Kept(b: bv8, i: nat, macStart: nat, macEnd: nat): bv8
    requires i < 0x4000_0000 && macStart < 0x4000_0000 && macEnd < 0x4000_0000
  {
    var macStarted := Byte(ConstantTimeGe(i, macStart));
    var macEnded := Byte(ConstantTimeGe(i, macEnd));
    b & macStarted & !macEnded
  }

  lemma KeptInside(cell: bv8, b: bv8, i: nat, macStart: nat, macEnd: nat)
    requires i < 0x4000_0000 && macStart < 0x4000_0000 && macEnd < 0x4000_0000
    ensures Kept(b, i, macStart, macEnd) == if macStart <= i < macEnd then b else 0
    ensures cell == 0 && macStart <= i < macEnd ==> cell | Kept(b, i, macStart, macEnd) == b
    ensures !(macStart <= i < macEnd) ==> cell | Kept(b, i, macStart, macEnd) == cell
  {
    hide ConstantTimeGe;
    MaskBytes(cell, b);
  }

  lemma MaskBytes(cell: bv8, b: bv8)
    ensures Byte(ALL_ONES) == 0xff && Byte(0) == 0
    ensures b & 0xff & !0 == b && b & 0xff & !0xff == 0 && b & 0 & !0 == 0 && b & 0 & !0xff == 0
    ensures cell | 0 == cell && 0 | b == b
  {}

  lemma NextCell(x: nat, mdSize: nat)
    requires mdSize > 0
    ensures (x + 1) % mdSize == if x % mdSize + 1 < mdSize then x % mdSize + 1 else 0
  {
    var q := x / mdSize;
    if x % mdSize + 1 < mdSize {
      DivModUnique(x + 1, mdSize, q, x % mdSize + 1);
    } else {
      assert (q + 1) * mdSize == q * mdSize + mdSize;
      DivModUnique(x + 1, mdSize, q + 1, 0);
    }
  }

  /** Inside the MAC, byte i goes to the one cell whose source it is. */
  lemma CellOf(macStart: nat, scanStart: nat, mdSize: nat, r: nat, i: nat, j: nat)
    requires 0 < mdSize && scanStart <= macStart && scanStart <= i
    requires r == (macStart - scanStart) % mdSize && j == (i - scanStart) % mdSize
    ensures macStart <= i < macStart + mdSize ==>
              forall q :: 0 <= q < mdSize ==> (Source(macStart, mdSize, r, q) == i <==> q == j)
  {
    if macStart <= i < macStart + mdSize {
      var d, k := i - macStart, (macStart - scanStart) / mdSize;
      assert macStart - scanStart == k * mdSize + r;
      if r + d < mdSize {
        DivModUnique(i - scanStart, mdSize, k, r + d);
      } else {
        assert (k + 1) * mdSize == k * mdSize + mdSize;
        DivModUnique(i - scanStart, mdSize, k + 1, r + d - mdSize);
      }
    }
  }
}
