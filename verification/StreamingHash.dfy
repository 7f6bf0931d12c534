/**
 The chunk collector shared by MD5, SHA-1 and SHA-256 (libressl crypto/md32_common.h):
 input arrives in pieces of any size, whole blocks are compressed at once, the rest waits in a
 64-byte buffer, and the bit count is kept in two 32-bit words.
 */
module StreamingHash {
  import opened MerkleDamgard
  import opened Arithmetic
  import opened Memory

  const WORD: nat := 0x1_0000_0000
  const CBLOCK: nat := 64

  /** Nh:Nl is eight times the number of bytes, modulo 2^64. */
  ghost predicate CountsBits(nl: nat, nh: nat, total: nat) {
    nl < WORD && nh < WORD && nh * WORD + nl == 8 * total % (WORD * WORD)
  }

  /** The two counter words after `len` more bytes, as the 32-bit code computes them. */
  function Counted(nl: nat, nh: nat, len: nat): (r: (nat, nat))
    requires nl < WORD && nh < WORD && len < WORD * WORD
    ensures r.0 < WORD && r.1 < WORD
  {
    var l := (nl + len % WORD * 8 % WORD) % WORD;
    var nh1 := if l < nl then (nh + 1) % WORD else nh;
    (l, (nh1 + len / 0x2000_0000 % WORD) % WORD)
  }

  /** Both words together count bits modulo 2^64, whatever carries between them. */
  lemma CounterIsBitCount(nl: nat, nh: nat, len: nat, total: nat)
    requires CountsBits(nl, nh, total) && len < WORD * WORD
    ensures CountsBits(Counted(nl, nh, len).0, Counted(nl, nh, len).1, total + len)
  {
    var (l, h) := Counted(nl, nh, len);
    var lo, hi := len % WORD * 8 % WORD, len / 0x2000_0000;
    ByteCountInWords(len);
    var carry := if l < nl then 1 else 0;
    assert nl + lo == l + carry * WORD;
    var k := CounterCarries(nh + carry, hi, h);
    var q := 8 * total / (WORD * WORD);
    DivModUnique(8 * (total + len), WORD * WORD, k + q, h * WORD + l);
  }

  lemma ByteCountInWords(len: nat)
    ensures 8 * len == len / 0x2000_0000 * WORD + len % WORD * 8 % WORD
  {
    var hi, r := len / 0x2000_0000, len % 0x2000_0000;
    assert len % WORD == hi % 8 * 0x2000_0000 + r;
    DivModUnique(len % WORD * 8, WORD, hi % 8, 8 * r);
  }

  lemma CounterCarries(nh1: nat, hi: nat, h: nat) returns (k: nat)
    requires h == (nh1 % WORD + hi % WORD) % WORD
    ensures nh1 + hi == h + k * WORD
  {
    k := nh1 / WORD + hi / WORD + (nh1 % WORD + hi % WORD) / WORD;
  }

  /** The two counter words serialised in the order of the data are the 64-bit length field. */
  lemma LengthFieldFromWords<S(!new)>(alg: Hash<S>, nl: nat, nh: nat, total: nat)
    requires alg.Valid() && alg.blockSize == CBLOCK
    requires CountsBits(nl, nh, total)
    ensures alg.LengthField(8 * total)
         == if alg.bigEndian then Word4(nh) + Word4(nl) else Reversed4(nl) + Reversed4(nh)
  {
    var n := 8 * total;
    var q := n / (WORD * WORD);
    DivModUnique(n, WORD, q * WORD + nh, nl);
    DivModUnique(n / WORD, WORD, q, nh);
    Word4LowBits(n);
    Word4LowBits(n / WORD);
    BigEndianLowWord(n, 8);
    BigEndianLowWord(n / WORD, 4);
    LittleEndianLowWord(n, 8);
    LittleEndianLowWord(n / WORD, 4);
  }

  lemma Word4LowBits(n: nat)
    ensures Word4(n) == Word4(n % WORD)
  {
    LowParts(n);
  }

  lemma LowParts(n: nat)
    ensures var m := n % WORD;
      && n % 0x100 == m % 0x100 && n / 0x100 % 0x100 == m / 0x100 % 0x100
      && n / 0x1_0000 % 0x100 == m / 0x1_0000 % 0x100 && n / 0x100_0000 % 0x100 == m / 0x100_0000 % 0x100
  {
    var m, q := n % WORD, n / WORD;
    assert n == q * WORD + m;
    DivModUnique(n, 0x100, q * 0x100_0000 + m / 0x100, m % 0x100);
    DivModUnique(n, 0x1_0000, q * 0x1_0000 + m / 0x1_0000, m % 0x1_0000);
    DivModUnique(n, 0x100_0000, q * 0x100 + m / 0x100_0000, m % 0x100_0000);
    DivModUnique(n / 0x100, 0x100, q * 0x1_0000 + m / 0x1_0000, m / 0x100 % 0x100);
    DivModUnique(n / 0x1_0000, 0x100, q * 0x100 + m / 0x100_0000, m / 0x1_0000 % 0x100);
    DivModUnique(n / 0x100_0000, 0x100, q, m / 0x100_0000);
  }

  function Reversed4(n: nat): (b: Bytes)
    ensures |b| == 4
  {
    [Word4(n)[3], Word4(n)[2], Word4(n)[1], Word4(n)[0]]
  }

  /** A hash in progress. `message` is everything given to Update so far. */
  class HashContext<S(!new)> {
    const alg: Hash<S>
    const data: array<bv8>
    var state: S
    var nl: nat
    var nh: nat
    var num: nat
    ghost var message: Bytes

    ghost predicate Valid()
      reads this, data
    {
      && alg.Valid() && alg.blockSize == CBLOCK && data.Length == CBLOCK
      && num < CBLOCK && num <= |message| && (|message| - num) % CBLOCK == 0
      && state == alg.Absorb(alg.init, message[..|message| - num])
      && data[..num] == message[|message| - num..]
      && CountsBits(nl, nh, |message|)
    }

    constructor (alg: Hash<S>)
      requires alg.Valid() && alg.blockSize == CBLOCK
      ensures Valid() && message == [] && this.alg == alg && fresh(data)
    {
      this.alg := alg;
      data := new bv8[CBLOCK](_ => 0);
      state, nl, nh, num := alg.init, 0, 0, 0;
      message := [];
    }

    /** The chaining value after the whole blocks of `done`. */
    ghost predicate Chained(done: Bytes)
      reads this
    {
      alg.Valid() && alg.blockSize == CBLOCK && |done| % CBLOCK == 0 && state == alg.Absorb(alg.init, done)
    }

    /** HASH_BLOCK_DATA_ORDER on whole blocks. */
    method BlockDataOrder(blocks: Bytes, ghost done: Bytes)
      requires Chained(done) && |blocks| % CBLOCK == 0
      modifies `state
      ensures Chained(done + blocks)
    {
      state := alg.Absorb(state, blocks);
      alg.AbsorbAppend(alg.init, done, blocks, |done| / CBLOCK);
    }

    /** The bit counter (md32_common.h, lines 226 to 232). */
    method Count(len: nat, ghost total: nat)
      requires CountsBits(nl, nh, total) && len < WORD * WORD
      modifies `nl, `nh
      ensures CountsBits(nl, nh, total + len)
    {
      CounterIsBitCount(nl, nh, len, total);
      var l := (nl + len % WORD * 8 % WORD) % WORD;
      if l < nl {
        nh := (nh + 1) % WORD;
      }
      nh := (nh + len / 0x2000_0000 % WORD) % WORD;
      nl := l;
    }

    /** Fill the buffer up to a block and compress it. */
    method TopUp(src: Bytes, ghost done: Bytes)
      requires Chained(done) && data.Length == CBLOCK && num < CBLOCK && |src| == CBLOCK - num
      modifies `state, `num, data
      ensures Chained(done + (old(data[..num]) + src)) && num == 0
    {
      MemCpy(data, num, src);
      assert data[..] == old(data[..num]) + src;
      BlockDataOrder(data[..], done);
      num := 0;
      MemSet(data, 0, 0, CBLOCK);
    }

    /** Compress the whole blocks of src, buffer the rest. */
    method WholeBlocks(src: Bytes, ghost done: Bytes)
      requires Chained(done) && data.Length == CBLOCK && num == 0
      modifies `state, `num, data
      ensures num < CBLOCK && num <= |src| && (|src| - num) % CBLOCK == 0
      ensures Chained(done + src[..|src| - num]) && data[..num] == src[|src| - num..]
    {
      var n := |src| / CBLOCK;
      if n > 0 {
        BlockDataOrder(src[..n * CBLOCK], done);
      }
      assert n == 0 ==> done + src[..n * CBLOCK] == done;
      if |src| - n * CBLOCK != 0 {
        num := |src| - n * CBLOCK;
        MemCpy(data, 0, src[n * CBLOCK..]);
      }
    }

    /** HASH_UPDATE: any split of a message into calls leaves the state of its whole blocks. */
    method Update(src: Bytes)
      requires Valid() && |src| < WORD * WORD
      modifies this, data
      ensures Valid() && message == old(message) + src
    {
      hide *;
      if |src| == 0 {
        assert message + src == message;
        return;
      }
      ghost var done, pending := Split();
      Count(|src|, |message|);
      message := message + src;
      if num == 0 {
        WholeBlocks(src, done);
        ghost var cut := |src| - num;
        assert done + pending + src == done + src[..cut] + src[cut..];
        Settle(done + src[..cut], src[cut..]);
      } else if |src| >= CBLOCK || |src| + num >= CBLOCK {
        var room := CBLOCK - num;
        TopUp(src[..room], done);
        var rest := src[room..];
        WholeBlocks(rest, done + (pending + src[..room]));
        ghost var cut := |rest| - num;
        assert src == src[..room] + rest;
        Regroup(done, pending, src[..room], rest, cut);
        Settle(done + (pending + src[..room]) + rest[..cut], rest[cut..]);
      } else {
        MemCpy(data, num, src);
        num := num + |src|;
        assert data[..num] == pending + src;
        assert done + pending + src == done + (pending + src);
        Settle(done, pending + src);
      }
    }

    /** The message splits at its last block boundary. */
    lemma Split() returns (done: Bytes, pending: Bytes)
      requires Valid()
      ensures Chained(done) && message == done + pending && data[..num] == pending
      ensures data.Length == CBLOCK && |pending| == num < CBLOCK && CountsBits(nl, nh, |message|)
    {
      done, pending := message[..|message| - num], message[|message| - num..];
    }

    lemma Settle(done: Bytes, pending: Bytes)
      requires Chained(done) && message == done + pending && |pending| == num < CBLOCK && data.Length == CBLOCK
      requires data[..num] == pending && CountsBits(nl, nh, |message|)
      ensures Valid()
    {
      assert message[..|message| - num] == done && message[|message| - num..] == pending;
    }

    lemma Regroup(a: Bytes, b: Bytes, c: Bytes, rest: Bytes, cut: nat)
      requires cut <= |rest|
      ensures a + b + (c + rest) == a + (b + c) + rest[..cut] + rest[cut..]
    {
      assert rest == rest[..cut] + rest[cut..];
    }

    /** HASH_FINAL: the digest of everything given to Update. */
    method Final(md: array<bv8>)
      requires Valid() && md != data && md.Length >= alg.mdSize
      modifies this, data, md
      ensures md[..] == alg.Digest(old(message)) + old(md[alg.mdSize..])
      ensures num == 0 && data[..] == Zeros(CBLOCK)
    {
      hide CountsBits, Hash.Absorb, Hash.LengthField, Hash.Padding, Chained, AbsorbTail;
      ghost var done, tail := Split();
      ChainedWhole(done);
      FinalBlocks(alg, done, tail, |done| / CBLOCK);
      LastBlocks();
      num := 0;
      MemSet(data, 0, 0, CBLOCK);
      MemCpy(md, 0, alg.raw(state)[..alg.mdSize]);
    }

    /** The marker, the zeros and the bit count, in one or two blocks. */
    method LastBlocks()
      requires alg.Valid() && alg.blockSize == CBLOCK && data.Length == CBLOCK && num < CBLOCK
      requires CountsBits(nl, nh, |message|)
      modifies `state, data
      ensures state == AbsorbTail(alg, old(state), old(data[..num]), alg.LengthField(8 * |message|))
    {
      hide CountsBits, Hash.Absorb, Hash.LengthField, Hash.Padding;
      LengthFieldFromWords(alg, nl, nh, |message|);
      ghost var tail := data[..num];
      var n := num;
      data[n] := 0x80;
      n := n + 1;
      assert data[..n] == tail + [0x80];
      if n > CBLOCK - 8 {
        ZeroFill(n);
        n := 0;
      }
      PadAndLength(n);
    }

    lemma ChainedWhole(done: Bytes)
      requires Chained(done)
      ensures alg.Valid() && |done| == |done| / CBLOCK * CBLOCK && state == alg.Absorb(alg.init, done)
    {}

    /** No room for the length: zero the rest of the block and compress it. */
    method ZeroFill(n: nat)
      requires alg.Valid() && data.Length == CBLOCK && n <= CBLOCK
      modifies `state, data
      ensures state == alg.Absorb(old(state), old(data[..n]) + Zeros(CBLOCK - n))
    {
      ghost var head := data[..n];
      MemSet(data, n, 0, CBLOCK - n);
      assert data[..] == head + Zeros(CBLOCK - n);
      state := alg.Absorb(state, data[..]);
    }

    /** Zeros up to the last eight bytes, the bit count in those, and the last compression. */
    method PadAndLength(n: nat)
      requires alg.Valid() && data.Length == CBLOCK && n <= CBLOCK - 8
      modifies `state, data
      ensures state == alg.Absorb(old(state), old(data[..n]) + Zeros(CBLOCK - 8 - n)
                         + if alg.bigEndian then Word4(nh) + Word4(nl) else Reversed4(nl) + Reversed4(nh))
    {
      ghost var head := data[..n];
      MemSet(data, n, 0, CBLOCK - 8 - n);
      assert data[..CBLOCK - 8] == head + Zeros(CBLOCK - 8 - n);
      var words := if alg.bigEndian then Word4(nh) + Word4(nl) else Reversed4(nl) + Reversed4(nh);
      MemCpy(data, CBLOCK - 8, words);
      assert data[..] == head + Zeros(CBLOCK - 8 - n) + words;
      state := alg.Absorb(state, data[..]);
    }
  }

  /** The one or two blocks that HASH_FINAL makes of the buffered tail complete the padded message. */
  lemma FinalBlocks<S(!new)>(alg: Hash<S>, done: Bytes, tail: Bytes, blocks: nat)
    requires alg.Valid() && alg.blockSize == CBLOCK && |done| == blocks * CBLOCK && |tail| < CBLOCK
    ensures alg.Absorb(alg.init, done + tail + alg.Padding(|done + tail|))
         == AbsorbTail(alg, alg.Absorb(alg.init, done), tail, alg.LengthField(8 * |done + tail|))
  {
    hide Hash.Absorb, Hash.LengthField, Hash.ZeroCount, Zeros;
    var n, s := |done + tail|, alg.Absorb(alg.init, done);
    var field := alg.LengthField(8 * n);
    var rest := tail + alg.Padding(n);
    assert done + tail + alg.Padding(n) == done + rest;
    TailZeros(alg, n, blocks, |tail|);
    LengthFieldSize(alg, n);
    if |tail| + 1 > CBLOCK - 8 {
      var b1, b2 := tail + [0x80] + Zeros(CBLOCK - |tail| - 1), [] + Zeros(56) + field;
      ZerosSplit(CBLOCK - |tail| - 1, 56);
      assert rest == b1 + b2;
      alg.AbsorbAppend(alg.init, done, rest, blocks);
      alg.AbsorbAppend(s, b1, b2, 1);
    } else {
      assert rest == tail + [0x80] + Zeros(55 - |tail|) + field;
      alg.AbsorbAppend(alg.init, done, rest, blocks);
    }
  }

  /** How many zeros complete the last block, or the one after it. */
  lemma TailZeros<S(!new)>(alg: Hash<S>, n: nat, blocks: nat, t: nat)
    requires alg.Valid() && alg.blockSize == CBLOCK && n == blocks * CBLOCK + t && t < CBLOCK
    ensures alg.ZeroCount(n) == if t + 1 > CBLOCK - 8 then 2 * CBLOCK - 9 - t else CBLOCK - 9 - t
  {
    DivModUnique(n, CBLOCK, blocks, t);
  }

  lemma LengthFieldSize<S(!new)>(alg: Hash<S>, n: nat)
    requires alg.Valid() && alg.blockSize == CBLOCK
    ensures |alg.LengthField(8 * n)| == 8 && forall k: nat :: |Zeros(k)| == k
  {}

  lemma ZerosSplit(a: nat, b: nat)
    ensures Zeros(a + b) == Zeros(a) + Zeros(b)
  {}

  /** What HASH_FINAL compresses after a buffered tail. */
  function AbsorbTail<S(!new)>(alg: Hash<S>, s: S, tail: Bytes, field: Bytes): S
    requires alg.Valid() && alg.blockSize == CBLOCK && |tail| < CBLOCK
  {
    if |tail| + 1 > CBLOCK - 8
    then alg.Absorb(alg.Absorb(s, tail + [0x80] + Zeros(CBLOCK - |tail| - 1)), [] + Zeros(56) + field)
    else alg.Absorb(s, tail + [0x80] + Zeros(55 - |tail|) + field)
  }
}
