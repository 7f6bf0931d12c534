/**
 The MAC of a decrypted CBC record whose true end is secret (libressl ssl/s3_cbc.c):
 a fixed number of hash blocks is always compressed, each byte of which is chosen with masks,
 and the result is the plain HMAC of the unpadded record.
 */
module CbcMac {
  import opened Arithmetic
  import opened Memory
  import opened MerkleDamgard
  import opened ConstantTime

  const HEADER: nat := 13
  const VARIANCE_BLOCKS: nat := 6

  /** What the function demands: sizes below 1 MB, and a MAC end hidden by at most 256 bytes of padding. */
  ghost predicate Callable<S(!new)>(alg: Hash<S>, header: Bytes, data: Bytes, withMac: nat, key: Bytes) {
    && alg.Valid() && |header| == HEADER && |key| <= alg.blockSize
    && alg.mdSize <= withMac <= |data| <= withMac + 256 && alg.mdSize < |data| < 1024 * 1024
  }

  /** The public and secret block numbers of s3_cbc.c, lines 480 to 516. */
  datatype Layout = Layout(macEnd: nat, c: nat, indexA: nat, indexB: nat, startingBlocks: nat)
  {
    /** Small enough for the masks to be comparisons. */
    predicate FitsWord() {
      c < 0x1000_0000 && indexA < 0x1000_0000 && indexB < 0x1000_0000
    }
  }

  function LayoutOf<S(!new)>(alg: Hash<S>, withMac: nat, total: nat): Layout
    requires alg.Valid() && alg.mdSize <= withMac && alg.mdSize < total
  {
    var maxMacBytes := total + HEADER - alg.mdSize - 1;
    var numBlocks := (maxMacBytes + 1 + alg.lengthSize + alg.blockSize - 1) / alg.blockSize;
    var macEnd := withMac + HEADER - alg.mdSize;
    Layout(macEnd, macEnd % alg.blockSize, macEnd / alg.blockSize, (macEnd + alg.lengthSize) / alg.blockSize,
           if numBlocks > VARIANCE_BLOCKS then numBlocks - VARIANCE_BLOCKS else 0)
  }

  /** Both secret blocks fall in the window that the masked loop compresses. */
  lemma WindowCovers<S(!new)>(alg: Hash<S>, withMac: nat, total: nat)
    requires alg.Valid() && alg.mdSize <= withMac <= total <= withMac + 256 && alg.mdSize < total
    ensures var l := LayoutOf(alg, withMac, total);
            l.startingBlocks <= l.indexA <= l.indexB <= l.startingBlocks + VARIANCE_BLOCKS
  {
    var l := LayoutOf(alg, withMac, total);
    if alg.blockSize == 64 {
    } else {
    }
  }

  /** The conceptual message: the masked key block, the header and the data before the MAC. */
  function Message<S(!new)>(alg: Hash<S>, key: Bytes, header: Bytes, data: Bytes, withMac: nat): (m: Bytes)
    requires Callable(alg, header, data, withMac, key)
    ensures |m| == alg.blockSize + LayoutOf(alg, withMac, |data|).macEnd
  {
    alg.KeyBlock(key, 0x36) + (header + data[..withMac - alg.mdSize])
  }

  function PaddedMessage<S(!new)>(alg: Hash<S>, key: Bytes, header: Bytes, data: Bytes, withMac: nat): Bytes
    requires Callable(alg, header, data, withMac, key)
  {
    var m := Message(alg, key, header, data, withMac);
    m + alg.Padding(|m|)
  }

  /** It fills the key block and the blocks up to indexB. */
  lemma PaddedMessageLength<S(!new)>(alg: Hash<S>, key: Bytes, header: Bytes, data: Bytes, withMac: nat)
    requires Callable(alg, header, data, withMac, key)
    ensures |PaddedMessage(alg, key, header, data, withMac)|
         == (LayoutOf(alg, withMac, |data|).indexB + 2) * alg.blockSize
  {
    var l := LayoutOf(alg, withMac, |data|);
    alg.PaddedLength(alg.blockSize + l.macEnd);
    var q, r := l.indexB, (l.macEnd + alg.lengthSize) % alg.blockSize;
    DivModUnique(alg.blockSize + l.macEnd + alg.lengthSize, alg.blockSize, q + 1, r);
  }

  /** The byte that s3_cbc.c, lines 563 to 591 choose for position j of block i. */
  function MaskedByte(l: Layout, b0: bv8, i: nat, j: nat, lengthByte: bv8, inLengthField: bool): bv8
    requires i < 0x1000_0000 && j < 0x1000_0000 && l.FitsWord()
  {
    var isBlockA := ConstantTimeEq8(i, l.indexA);
    var isBlockB := ConstantTimeEq8(i, l.indexB);
    var isPastC := isBlockA & Byte(ConstantTimeGe(j, l.c));
    var isPastCp1 := isBlockA & Byte(ConstantTimeGe(j, l.c + 1));
    var b1 := (b0 & !isPastC) | (0x80 & isPastC);
    var b2 := b1 & !isPastCp1;
    var b3 := b2 & (!isBlockB | isBlockA);
    if inLengthField then (b3 & !isBlockB) | (isBlockB & lengthByte) else b3
  }

  /** The masks choose as an ordinary chain of comparisons would. */
  lemma MaskedByteIsChoice(l: Layout, b0: bv8, i: nat, j: nat, lengthByte: bv8, inLengthField: bool)
    requires i < 0x1000_0000 && j < 0x1000_0000 && l.FitsWord()
    ensures MaskedByte(l, b0, i, j, lengthByte, inLengthField)
         == if i == l.indexB && inLengthField then lengthByte
            else if i == l.indexA then (if j < l.c then b0 else if j == l.c then 0x80 else 0)
            else if i == l.indexB then 0
            else b0
  {
    hide Xor;
    EqualityIsExactForSmallXor(i, l.indexA);
    EqualityIsExactForSmallXor(i, l.indexB);
    assert Byte(ALL_ONES) == 0xff && Byte(0) == 0;
  }

  /** s3_cbc.c, lines 564 to 567: the next byte of header || data, or zero past the record. */
  function RecordByte(header: Bytes, data: Bytes, k: nat): bv8
    requires |header| == HEADER
  {
    if k < HEADER then header[k] else if k < |data| + HEADER then data[k - HEADER] else 0
  }

  /** Up to indexB, the chosen byte is the byte of the padded message. */
  lemma ChosenByteIsPadded<S(!new)>(alg: Hash<S>, key: Bytes, header: Bytes, data: Bytes, withMac: nat, i: nat, j: nat)
    requires Callable(alg, header, data, withMac, key)
    requires i <= LayoutOf(alg, withMac, |data|).indexB && j < alg.blockSize
    requires LayoutOf(alg, withMac, |data|).FitsWord()
    ensures var pm := PaddedMessage(alg, key, header, data, withMac);
            var field := alg.LengthField(8 * |Message(alg, key, header, data, withMac)|);
            && (i + 1) * alg.blockSize + j < |pm|
            && pm[(i + 1) * alg.blockSize + j]
            == MaskedByte(LayoutOf(alg, withMac, |data|), RecordByte(header, data, i * alg.blockSize + j), i, j,
                          LengthByteAt(alg, field, j), j >= alg.blockSize - alg.lengthSize)
  {
    hide LayoutOf, MaskedByte, PaddedMessage, Message, RecordByte, Hash.LengthField, Hash.KeyBlock, Hash.Padding,
      Positioned;
    var l := LayoutOf(alg, withMac, |data|);
    IndexBNextToA(alg, withMac, |data|);
    PaddedMessageLength(alg, key, header, data, withMac);
    var k, end := i * alg.blockSize + j, (l.indexB + 2) * alg.blockSize;
    BlockPositions(l, alg.blockSize, alg.lengthSize, i, j, k, end);
    ChosenByteAt(alg, key, header, data, withMac, i, j, k, end);
  }

  lemma ChosenByteAt<S(!new)>(alg: Hash<S>, key: Bytes, header: Bytes, data: Bytes, withMac: nat,
                              i: nat, j: nat, k: nat, end: nat)
    requires Callable(alg, header, data, withMac, key)
    requires i <= LayoutOf(alg, withMac, |data|).indexB && j < alg.blockSize
    requires LayoutOf(alg, withMac, |data|).FitsWord()
    requires LayoutOf(alg, withMac, |data|).indexA <= LayoutOf(alg, withMac, |data|).indexB
    requires LayoutOf(alg, withMac, |data|).indexB <= LayoutOf(alg, withMac, |data|).indexA + 1
    requires LayoutOf(alg, withMac, |data|).macEnd == withMac + HEADER - alg.mdSize
    requires Positioned(LayoutOf(alg, withMac, |data|), alg.blockSize, alg.lengthSize, i, j, k, end)
    requires end == |PaddedMessage(alg, key, header, data, withMac)|
    ensures var pm := PaddedMessage(alg, key, header, data, withMac);
            var field := alg.LengthField(8 * |Message(alg, key, header, data, withMac)|);
            pm[alg.blockSize + k]
            == MaskedByte(LayoutOf(alg, withMac, |data|), RecordByte(header, data, k), i, j,
                          LengthByteAt(alg, field, j), j >= alg.blockSize - alg.lengthSize)
  {
    hide Hash.Absorb, Hash.Padding, MaskedByte, Hash.LengthField, Hash.KeyBlock, LayoutOf, Hash.PaddedByte;
    var l := LayoutOf(alg, withMac, |data|);
    var m := Message(alg, key, header, data, withMac);
    var field := alg.LengthField(8 * |m|);
    assert m == alg.KeyBlock(key, 0x36) + (header + data[..withMac - alg.mdSize]);
    MaskedByteIsChoice(l, RecordByte(header, data, k), i, j, LengthByteAt(alg, field, j),
                       j >= alg.blockSize - alg.lengthSize);
    PaddedByteCases(alg, m, alg.blockSize + k, end);
  }

  lemma PaddedByteCases<S(!new)>(alg: Hash<S>, m: Bytes, t: nat, end: nat)
    requires alg.Valid() && end == |m| + |alg.Padding(|m|)| && t < end
    ensures |m| < end - alg.lengthSize
    ensures (m + alg.Padding(|m|))[t] == if t < |m| then m[t] else if t == |m| then 0x80
      else if t < end - alg.lengthSize then 0 else alg.LengthField(8 * |m|)[t - (end - alg.lengthSize)]
  {
    alg.PaddedByteIs(m, t);
  }

  /** Where byte k of block i lies among the data, the marker, the zeros and the length field. */
  ghost predicate Positioned(l: Layout, bs: nat, ls: nat, i: nat, j: nat, k: nat, end: nat) {
    && bs + k < end
    && (k < l.macEnd <==> i < l.indexA || (i == l.indexA && j < l.c))
    && (k == l.macEnd <==> i == l.indexA && j == l.c)
    && (bs + k >= end - ls <==> i == l.indexB && j >= bs - ls)
    && (i == l.indexB ==> k + 2 * bs == end + j)
  }

  lemma BlockPositions(l: Layout, bs: nat, ls: nat, i: nat, j: nat, k: nat, end: nat)
    requires l.macEnd == l.indexA * bs + l.c && l.c < bs && 1 + ls <= bs
    requires l.indexB == if l.c + ls < bs then l.indexA else l.indexA + 1
    requires i <= l.indexB && j < bs && k == i * bs + j && end == (l.indexB + 2) * bs
    ensures (i + 1) * bs + j == bs + k && Positioned(l, bs, ls, i, j, k, end)
  {
    MulMonotone(i, l.indexB, bs);
    MulMonotone(i, l.indexA, bs);
    MulMonotone(l.indexA, i, bs);
    assert (i + 1) * bs == i * bs + bs;
    assert (l.indexB + 2) * bs == l.indexB * bs + 2 * bs;
  }

  /** The length field starts in the block of the marker or in the next one. */
  lemma IndexBNextToA<S(!new)>(alg: Hash<S>, withMac: nat, total: nat)
    requires alg.Valid() && alg.mdSize <= withMac && alg.mdSize < total
    ensures var l := LayoutOf(alg, withMac, total);
            && l.macEnd == withMac + HEADER - alg.mdSize
            && l.macEnd == l.indexA * alg.blockSize + l.c && l.c < alg.blockSize
            && l.indexB == if l.c + alg.lengthSize < alg.blockSize then l.indexA else l.indexA + 1
  {
    var l := LayoutOf(alg, withMac, total);
    var bs := alg.blockSize;
    if l.c + alg.lengthSize < bs {
      DivModUnique(l.macEnd + alg.lengthSize, bs, l.indexA, l.c + alg.lengthSize);
    } else {
      DivModUnique(l.macEnd + alg.lengthSize, bs, l.indexA + 1, l.c + alg.lengthSize - bs);
    }
  }

  /** s3_cbc.c, lines 529 to 541: the bit count in the low-order bytes of an otherwise zero length field. */
  method LengthBytes<S(!new)>(alg: Hash<S>, bits: nat) returns (lengthBytes: array<bv8>)
    requires alg.Valid() && bits < 0x1_0000_0000
    ensures fresh(lengthBytes) && lengthBytes[..] == alg.LengthField(bits)
  {
    hide Byte, BigEndian, LittleEndian;
    var n := alg.lengthSize;
    lengthBytes := new bv8[n](_ => 0);
    BigEndianLowWord(bits, n);
    LittleEndianLowWord(bits, n);
    ZeroBytes(n - 4);
    if alg.bigEndian {
      lengthBytes[n - 4] := Byte(bits / 0x100_0000);
      lengthBytes[n - 3] := Byte(bits / 0x1_0000);
      lengthBytes[n - 2] := Byte(bits / 0x100);
      lengthBytes[n - 1] := Byte(bits);
      assert lengthBytes[..] == Zeros(n - 4) + Word4(bits);
    } else {
      lengthBytes[n - 5] := Byte(bits / 0x100_0000);
      lengthBytes[n - 6] := Byte(bits / 0x1_0000);
      lengthBytes[n - 7] := Byte(bits / 0x100);
      lengthBytes[n - 8] := Byte(bits);
      assert lengthBytes[..] == [Word4(bits)[3], Word4(bits)[2], Word4(bits)[1], Word4(bits)[0]] + Zeros(n - 4);
    }
  }

  /** s3_cbc.c, lines 562 to 593: one block of masked bytes. */
  method FillBlock<S(!new)>(alg: Hash<S>, block: array<bv8>, header: Bytes, data: Bytes, l: Layout,
                            i: nat, k0: nat, lengthBytes: Bytes)
    requires alg.Valid() && |header| == HEADER && block.Length >= alg.blockSize && |lengthBytes| == alg.lengthSize
    requires i < 0x1000_0000 && l.FitsWord()
    modifies block
    ensures forall j :: 0 <= j < alg.blockSize ==> block[j] == MaskedByte(l, RecordByte(header, data, k0 + j), i, j,
      LengthByteAt(alg, lengthBytes, j), j >= alg.blockSize - alg.lengthSize)
  {
    hide MaskedByte;
    var k := k0;
    for j := 0 to alg.blockSize
      invariant k == k0 + j
      invariant forall p :: 0 <= p < j ==> block[p] == MaskedByte(l, RecordByte(header, data, k0 + p), i, p,
        LengthByteAt(alg, lengthBytes, p), p >= alg.blockSize - alg.lengthSize)
    {
      var b: bv8 := 0;
      if k < HEADER {
        b := header[k];
      } else if k < |data| + HEADER {
        b := data[k - HEADER];
      }
      k := k + 1;
      block[j] := MaskedByte(l, b, i, j, LengthByteAt(alg, lengthBytes, j), j >= alg.blockSize - alg.lengthSize);
    }
  }

  function LengthByteAt<S(!new)>(alg: Hash<S>, field: Bytes, j: nat): bv8
    requires alg.Valid() && |field| == alg.lengthSize && j < alg.blockSize
  {
    var at := alg.blockSize - alg.lengthSize;
    if j >= at then field[j - at] else 0
  }

  /** s3_cbc.c, lines 543 to 550: the blocks that no padding value can change. */
  method StartingBlocks<S(!new)>(alg: Hash<S>, state0: S, header: Bytes, data: Bytes, withMac: nat, ghost key: Bytes)
    returns (state: S)
    requires Callable(alg, header, data, withMac, key)
    requires state0 == alg.compress(alg.init, alg.KeyBlock(key, 0x36))
    ensures Absorbed(alg, key, header, data, withMac, LayoutOf(alg, withMac, |data|).startingBlocks, state)
  {
    hide Hash.Absorb, Hash.LengthField, Hash.KeyBlock, Hash.Padding, LayoutOf, PaddedMessage;
    var l := LayoutOf(alg, withMac, |data|);
    var bs := alg.blockSize;
    ghost var pm := PaddedMessage(alg, key, header, data, withMac);
    state := state0;
    KeyBlockAbsorbed(alg, key, header, data, withMac);
    if l.startingBlocks > 0 {
      StartingBlockIsData(alg, key, header, data, withMac, 0);
      alg.AbsorbNext(alg.init, pm, 1);
      state := alg.compress(state, header + data[..bs - HEADER]);
      for i := 1 to l.startingBlocks
        invariant (i + 1) * bs <= |pm| && state == alg.Absorb(alg.init, pm[..(i + 1) * bs])
      {
        StartingBlockIsData(alg, key, header, data, withMac, i);
        alg.AbsorbNext(alg.init, pm, i + 1);
        state := alg.compress(state, data[bs * i - HEADER..bs * i - HEADER + bs]);
      }
    }
  }

  /** After the key block. */
  lemma KeyBlockAbsorbed<S(!new)>(alg: Hash<S>, key: Bytes, header: Bytes, data: Bytes, withMac: nat)
    requires Callable(alg, header, data, withMac, key)
    ensures var pm := PaddedMessage(alg, key, header, data, withMac);
            && alg.blockSize <= |pm|
            && alg.Absorb(alg.init, pm[..alg.blockSize]) == alg.compress(alg.init, alg.KeyBlock(key, 0x36))
  {
    var pm := PaddedMessage(alg, key, header, data, withMac);
    assert pm[..alg.blockSize] == alg.KeyBlock(key, 0x36);
    alg.AbsorbOne(alg.init, alg.KeyBlock(key, 0x36));
  }

  /** The key block and blocks 0 to i - 1 have been absorbed. */
  ghost predicate Absorbed<S(!new)>(alg: Hash<S>, key: Bytes, header: Bytes, data: Bytes, withMac: nat, i: nat,
                                        state: S)
    requires Callable(alg, header, data, withMac, key)
  {
    var pm := PaddedMessage(alg, key, header, data, withMac);
    (i + 1) * alg.blockSize <= |pm| && state == alg.Absorb(alg.init, pm[..(i + 1) * alg.blockSize])
  }

  /** A starting block lies wholly in header || data. */
  lemma StartingBlockIsData<S(!new)>(alg: Hash<S>, key: Bytes, header: Bytes, data: Bytes, withMac: nat, i: nat)
    requires Callable(alg, header, data, withMac, key) && i < LayoutOf(alg, withMac, |data|).startingBlocks
    ensures var pm := PaddedMessage(alg, key, header, data, withMac);
            var bs := alg.blockSize;
            && (i + 2) * bs <= |pm| && i * bs + bs <= HEADER + |data| && bs * i == i * bs
            && (i > 0 ==> i * bs >= HEADER)
            && pm[(i + 1) * bs..(i + 2) * bs]
            == if i == 0 then header + data[..bs - HEADER] else data[i * bs - HEADER..i * bs - HEADER + bs]
  {
    hide Hash.Absorb, Hash.LengthField, Hash.KeyBlock, LayoutOf, Hash.Padding;
    var l := LayoutOf(alg, withMac, |data|);
    var bs := alg.blockSize;
    var m := Message(alg, key, header, data, withMac);
    WindowCovers(alg, withMac, |data|);
    IndexBNextToA(alg, withMac, |data|);
    MulMonotone(i, l.startingBlocks, bs);
    MulMonotone(l.startingBlocks, l.indexA, bs);
    MulMonotone(1, i, bs);
    assert (i + 1) * bs == i * bs + bs && (i + 2) * bs == i * bs + 2 * bs;
    SliceOfMessage(alg.KeyBlock(key, 0x36), header, data, withMac - alg.mdSize, alg.Padding(|m|), i * bs, bs);
    assert i > 0 ==> i * bs > 0;
  }

  lemma SliceOfMessage(keyBlock: Bytes, header: Bytes, data: Bytes, n: nat, padding: Bytes, at: nat, bs: nat)
    requires |keyBlock| == bs && bs > |header| == HEADER && n <= |data| && at + bs <= HEADER + n
    requires at == 0 || at >= HEADER
    ensures at + bs + bs <= |keyBlock + (header + data[..n]) + padding|
    ensures (keyBlock + (header + data[..n]) + padding)[at + bs..at + bs + bs]
         == if at == 0 then header + data[..bs - HEADER] else data[at - HEADER..at - HEADER + bs]
  {}

  /** A block with index at most indexB, once filled, is the next block of the padded message. */
  lemma FilledBlockIsPadded<S(!new)>(alg: Hash<S>, key: Bytes, header: Bytes, data: Bytes, withMac: nat, i: nat,
                                     block: Bytes, lengthBytes: Bytes)
    requires Callable(alg, header, data, withMac, key)
    requires i <= LayoutOf(alg, withMac, |data|).indexB && LayoutOf(alg, withMac, |data|).FitsWord()
    requires lengthBytes == alg.LengthField(8 * |Message(alg, key, header, data, withMac)|) && |block| == alg.blockSize
    requires forall j :: 0 <= j < alg.blockSize ==> block[j] == MaskedByte(LayoutOf(alg, withMac, |data|),
      RecordByte(header, data, i * alg.blockSize + j), i, j,
      LengthByteAt(alg, lengthBytes, j), j >= alg.blockSize - alg.lengthSize)
    ensures var pm := PaddedMessage(alg, key, header, data, withMac);
            && (i + 2) * alg.blockSize <= |pm|
            && (i + 1) * alg.blockSize + alg.blockSize == (i + 2) * alg.blockSize
            && block == pm[(i + 1) * alg.blockSize..(i + 2) * alg.blockSize]
  {
    hide LayoutOf, MaskedByte, PaddedMessage, Message, RecordByte, LengthByteAt, Hash.LengthField;
    var bs := alg.blockSize;
    var pm := PaddedMessage(alg, key, header, data, withMac);
    PaddedMessageLength(alg, key, header, data, withMac);
    MulMonotone(i + 2, LayoutOf(alg, withMac, |data|).indexB + 2, bs);
    assert (i + 2) * bs == (i + 1) * bs + bs;
    var slice := pm[(i + 1) * bs..(i + 2) * bs];
    forall j | 0 <= j < bs
      ensures block[j] == slice[j]
    {
      ChosenByteIsPadded(alg, key, header, data, withMac, i, j);
      assert slice[j] == pm[(i + 1) * bs + j];
    }
    assert block == slice;
  }

  /** Masked accumulation: the digest is or-ed in from block indexB only. */
  function Selected(acc: bv8, digestByte: bv8, isBlockB: bv8): bv8 {
    acc | (digestByte & isBlockB)
  }

  /** s3_cbc.c, lines 552 to 600: always seven blocks; mac_out receives the inner hash and nothing else. */
  method MaskedBlocks<S(!new)>(alg: Hash<S>, state0: S, header: Bytes, data: Bytes, withMac: nat, lengthBytes: Bytes,
                               ghost key: Bytes) returns (macOut: array<bv8>)
    requires Callable(alg, header, data, withMac, key)
    requires lengthBytes == alg.LengthField(8 * |Message(alg, key, header, data, withMac)|)
    requires Absorbed(alg, key, header, data, withMac, LayoutOf(alg, withMac, |data|).startingBlocks, state0)
    ensures fresh(macOut) && macOut.Length == 64
    ensures macOut[..alg.mdSize] == alg.Digest(Message(alg, key, header, data, withMac))
  {
    hide MaskedByte, Message, RecordByte, LengthByteAt, Hash.LengthField, Hash.Absorb, PaddedMessage, LayoutOf,
      Hash.Digest, Absorbed;
    var l := LayoutOf(alg, withMac, |data|);
    var bs := alg.blockSize;
    LayoutFits(alg, withMac, |data|);
    WindowCovers(alg, withMac, |data|);
    var state := state0;
    var k := l.startingBlocks * bs;
    macOut := new bv8[64](_ => 0);
    for i := l.startingBlocks to l.startingBlocks + VARIANCE_BLOCKS + 1
      invariant k == i * bs
      invariant i <= l.indexB + 1 ==> Absorbed(alg, key, header, data, withMac, i, state)
      invariant i <= l.indexB ==> forall j :: 0 <= j < alg.mdSize ==> macOut[j] == 0
      invariant i > l.indexB ==> macOut[..alg.mdSize] == alg.Digest(Message(alg, key, header, data, withMac))
    {
      state := OneBlock(alg, state, header, data, withMac, i, k, lengthBytes, key);
      assert (i + 1) * bs == i * bs + bs;
      k := k + bs;
      OrDigest(alg, macOut, alg.raw(state), ConstantTimeEq8(i, l.indexB));
      EqualityIsExactForSmallXor(i, l.indexB);
      if i == l.indexB {
        LastState(alg, key, header, data, withMac, state);
      }
    }
  }

  /** s3_cbc.c, lines 559 to 595: build block i and compress it. */
  method OneBlock<S(!new)>(alg: Hash<S>, state: S, header: Bytes, data: Bytes, withMac: nat, i: nat, k: nat,
                           lengthBytes: Bytes, ghost key: Bytes) returns (next: S)
    requires Callable(alg, header, data, withMac, key)
    requires lengthBytes == alg.LengthField(8 * |Message(alg, key, header, data, withMac)|)
    requires i < 0x1000_0000 && k == i * alg.blockSize && LayoutOf(alg, withMac, |data|).FitsWord()
    requires i <= LayoutOf(alg, withMac, |data|).indexB ==> Absorbed(alg, key, header, data, withMac, i, state)
    ensures i <= LayoutOf(alg, withMac, |data|).indexB ==> Absorbed(alg, key, header, data, withMac, i + 1, next)
  {
    hide MaskedByte, Message, RecordByte, LengthByteAt, Hash.LengthField, Hash.Absorb, PaddedMessage, LayoutOf;
    var l := LayoutOf(alg, withMac, |data|);
    var block := new bv8[128];
    FillBlock(alg, block, header, data, l, i, k, lengthBytes);
    if i <= l.indexB {
      FilledBlockIsPadded(alg, key, header, data, withMac, i, block[..alg.blockSize], lengthBytes);
      alg.AbsorbNext(alg.init, PaddedMessage(alg, key, header, data, withMac), i + 1);
      assert (i + 1 + 1) * alg.blockSize == (i + 2) * alg.blockSize;
    }
    next := alg.compress(state, block[..alg.blockSize]);
  }

  /** s3_cbc.c, lines 596 to 599: the digest is or-ed in under the mask. */
  method OrDigest<S(!new)>(alg: Hash<S>, macOut: array<bv8>, raw: Bytes, isBlockB: bv8)
    requires alg.Valid() && macOut.Length == 64 && alg.mdSize <= |raw|
    modifies macOut
    ensures forall j :: 0 <= j < alg.mdSize ==> macOut[j] == Selected(old(macOut[j]), raw[j], isBlockB)
  {
    for j := 0 to alg.mdSize
      invariant forall p :: 0 <= p < j ==> macOut[p] == Selected(old(macOut[p]), raw[p], isBlockB)
      invariant forall p :: j <= p < alg.mdSize ==> macOut[p] == old(macOut[p])
    {
      macOut[j] := Selected(macOut[j], raw[j], isBlockB);
    }
  }

  /** The whole padded message has been absorbed. */
  lemma LastState<S(!new)>(alg: Hash<S>, key: Bytes, header: Bytes, data: Bytes, withMac: nat, state: S)
    requires Callable(alg, header, data, withMac, key)
    requires Absorbed(alg, key, header, data, withMac, LayoutOf(alg, withMac, |data|).indexB + 1, state)
    ensures alg.raw(state)[..alg.mdSize] == alg.Digest(Message(alg, key, header, data, withMac))
  {
    PaddedMessageLength(alg, key, header, data, withMac);
    var pm := PaddedMessage(alg, key, header, data, withMac);
    assert pm[..|pm|] == pm;
  }

  lemma LayoutFits<S(!new)>(alg: Hash<S>, withMac: nat, total: nat)
    requires alg.Valid() && alg.mdSize <= withMac <= total < 1024 * 1024 && alg.mdSize < total
    ensures LayoutOf(alg, withMac, total).FitsWord()
    ensures LayoutOf(alg, withMac, total).startingBlocks < 0x100_0000
  {
    if alg.blockSize == 64 {
    } else {
    }
  }

  /** ssl3_cbc_digest_record: the HMAC of the header and the data without MAC and padding. */
  method DigestRecord<S(!new)>(alg: Hash<S>, mdOut: array<bv8>, header: Bytes, data: Bytes, withMac: nat, key: Bytes)
    requires Callable(alg, header, data, withMac, key) && mdOut.Length >= alg.mdSize
    modifies mdOut
    ensures mdOut[..] == alg.Hmac(key, header + data[..withMac - alg.mdSize]) + old(mdOut[alg.mdSize..])
  {
    hide Hash.LengthField, Hash.Absorb, PaddedMessage, Hash.Digest, Absorbed, Hash.Padding;
    var bs := alg.blockSize;
    var bits := 8 * (withMac + HEADER - alg.mdSize) + 8 * bs;
    var hmacPad := InnerPad(alg, key);
    var state := alg.compress(alg.init, hmacPad[..bs]);
    var lengthBytes := LengthBytes(alg, bits);
    state := StartingBlocks(alg, state, header, data, withMac, key);
    var macOut := MaskedBlocks(alg, state, header, data, withMac, lengthBytes[..], key);
    OuterPad(alg, hmacPad, key);
    MemCpy(mdOut, 0, alg.Digest(hmacPad[..bs] + macOut[..alg.mdSize]));
  }

  /** s3_cbc.c, lines 521 to 525: the key filled up with zeros, xor 0x36. */
  method InnerPad<S(!new)>(alg: Hash<S>, key: Bytes) returns (pad: array<bv8>)
    requires alg.Valid() && |key| <= alg.blockSize
    ensures fresh(pad) && pad.Length == 128 && pad[..alg.blockSize] == alg.KeyBlock(key, 0x36)
  {
    pad := new bv8[128](_ => 0);
    MemCpy(pad, 0, key);
    assert pad[..] == key + Zeros(128 - |key|);
    assert forall i :: 0 <= i < alg.blockSize ==> pad[i] == pad[..][i] == if i < |key| then key[i] else 0;
    XorPad(pad, alg.blockSize, 0x36);
  }

  /** s3_cbc.c, lines 609 and 610: the inner mask is turned into the outer one. */
  method OuterPad<S(!new)>(alg: Hash<S>, pad: array<bv8>, key: Bytes)
    requires alg.Valid() && |key| <= alg.blockSize && pad.Length == 128
    requires pad[..alg.blockSize] == alg.KeyBlock(key, 0x36)
    modifies pad
    ensures pad[..alg.blockSize] == alg.KeyBlock(key, 0x5c)
  {
    ghost var inner := pad[..alg.blockSize];
    XorPad(pad, alg.blockSize, 0x6a);
    forall i | 0 <= i < alg.blockSize
      ensures pad[i] == alg.KeyBlock(key, 0x5c)[i]
    {
      assert pad[i] == inner[i] ^ 0x6a;
      Remask(if i < |key| then key[i] else 0);
    }
  }

  lemma Remask(x: bv8)
    ensures x ^ 0x36 ^ 0x6a == x ^ 0x5c
  {}

  method XorPad(pad: array<bv8>, n: nat, x: bv8)
    requires n <= pad.Length
    modifies pad
    ensures forall i :: 0 <= i < n ==> pad[i] == old(pad[i]) ^ x
    ensures forall i :: n <= i < pad.Length ==> pad[i] == old(pad[i])
  {
    for i := 0 to n
      invariant forall p :: 0 <= p < i ==> pad[p] == old(pad[p]) ^ x
      invariant forall p :: i <= p < pad.Length ==> pad[p] == old(pad[p])
    {
      pad[i] := pad[i] ^ x;
    }
  }
}
