/**
 Merkle-Damgard hashing and HMAC, stated on whole byte strings.

 The compression function is a parameter: nothing here depends on which one it is.
 FIPS 180-4 section 5.1 and RFC 1321 sections 3.1-3.3 give the padding, RFC 2104 section 2 the HMAC.
 */
module MerkleDamgard {
  import opened Arithmetic

  type Bytes = seq<bv8>

  function Zeros(n: nat): (z: Bytes)
    ensures |z| == n
  {
    seq(n, _ => 0)
  }

  /** The truncation to an unsigned char. */
  function Byte(n: nat): bv8 {
    (n % 256) as bv8
  }

  /** The `len` low-order bytes of n, most significant first. */
  function BigEndian(n: nat, len: nat): (b: Bytes)
    ensures |b| == len
  {
    if len == 0 then [] else BigEndian(n / 256, len - 1) + [Byte(n)]
  }

  /** The `len` low-order bytes of n, least significant first. */
  function LittleEndian(n: nat, len: nat): (b: Bytes)
    ensures |b| == len
  {
    if len == 0 then [] else [Byte(n)] + LittleEndian(n / 256, len - 1)
  }

  /** Serialising a 32-bit word one shifted byte at a time. */
  function Word4(n: nat): (b: Bytes)
    ensures |b| == 4
  {
    [Byte(n / 0x100_0000), Byte(n / 0x1_0000), Byte(n / 0x100), Byte(n)]
  }

  lemma DivChain(n: nat)
    ensures n / 256 / 256 == n / 0x1_0000
    ensures n / 256 / 256 / 256 == n / 0x100_0000
    ensures n / 256 / 256 / 256 / 256 == n / 0x1_0000_0000
  {}

  /** The low word of a big-endian number is its last four bytes. */
  lemma BigEndianLowWord(n: nat, len: nat)
    requires len >= 4
    ensures BigEndian(n, len) == BigEndian(n / 0x1_0000_0000, len - 4) + Word4(n)
  {
    DivChain(n);
    BigEndianTail(n, n / 256, n / 0x1_0000, n / 0x100_0000, n / 0x1_0000_0000, len);
  }

  lemma BigEndianTail(n: nat, n1: nat, n2: nat, n3: nat, n4: nat, len: nat)
    requires n1 == n / 256 && n2 == n1 / 256 && n3 == n2 / 256 && n4 == n3 / 256 && len >= 4
    ensures BigEndian(n, len)
         == BigEndian(n4, len - 4) + [Byte(n3), Byte(n2), Byte(n1), Byte(n)]
  {
    hide Byte;
    var r := BigEndian(n4, len - 4);
    assert BigEndian(n3, len - 3) == r + [Byte(n3)];
    assert BigEndian(n2, len - 2) == r + [Byte(n3), Byte(n2)];
    assert BigEndian(n1, len - 1) == r + [Byte(n3), Byte(n2), Byte(n1)];
  }

  /** The low word of a little-endian number is its first four bytes. */
  lemma LittleEndianLowWord(n: nat, len: nat)
    requires len >= 4
    ensures LittleEndian(n, len)
         == [Word4(n)[3], Word4(n)[2], Word4(n)[1], Word4(n)[0]] + LittleEndian(n / 0x1_0000_0000, len - 4)
  {
    DivChain(n);
    LittleEndianHead(n, n / 256, n / 0x1_0000, n / 0x100_0000, n / 0x1_0000_0000, len);
  }

  lemma LittleEndianHead(n: nat, n1: nat, n2: nat, n3: nat, n4: nat, len: nat)
    requires n1 == n / 256 && n2 == n1 / 256 && n3 == n2 / 256 && n4 == n3 / 256 && len >= 4
    ensures LittleEndian(n, len)
         == [Byte(n), Byte(n1), Byte(n2), Byte(n3)] + LittleEndian(n4, len - 4)
  {
    hide Byte;
    var r := LittleEndian(n4, len - 4);
    assert LittleEndian(n3, len - 3) == [Byte(n3)] + r;
    assert LittleEndian(n2, len - 2) == [Byte(n2), Byte(n3)] + r;
    assert LittleEndian(n1, len - 1) == [Byte(n1), Byte(n2), Byte(n3)] + r;
  }

  lemma {:induction false} ZeroBytes(len: nat)
    ensures BigEndian(0, len) == Zeros(len) && LittleEndian(0, len) == Zeros(len)
  {
    if len > 0 {
      ZeroBytes(len - 1);
    }
  }

  /** Byte i of a big-endian number counts the powers of 256 of its place. */
  lemma {:induction false} BigEndianByte(n: nat, len: nat, i: nat)
    requires i < len
    ensures BigEndian(n, len)[i] == Byte(n / Pow(256, len - 1 - i))
  {
    hide Byte;
    if i == len - 1 {
      assert Pow(256, 0) == 1;
    } else {
      BigEndianByte(n / 256, len - 1, i);
      DivTwice(n, len - 2 - i);
    }
  }

  lemma {:induction false} LittleEndianByte(n: nat, len: nat, i: nat)
    requires i < len
    ensures LittleEndian(n, len)[i] == Byte(n / Pow(256, i))
  {
    hide Byte;
    if i == 0 {
      assert Pow(256, 0) == 1;
    } else {
      LittleEndianByte(n / 256, len - 1, i - 1);
      DivTwice(n, i - 1);
    }
  }

  lemma DivTwice(n: nat, k: nat)
    ensures n / 256 / Pow(256, k) == n / Pow(256, k + 1)
  {
    var p := Pow(256, k);
    assert Pow(256, k + 1) == 256 * p;
    hide Pow;
    var q, r := n / 256, n % 256;
    var u, v := q / p, q % p;
    assert q == u * p + v;
    assert n == u * (256 * p) + (256 * v + r);
    DivModUnique(n, 256 * p, u, 256 * v + r);
  }

  lemma XorTwice(x: bv8, pad: bv8)
    ensures x ^ pad ^ pad == x
  {}

  /** A hash: chaining values of type S, with the compression function and the layout of the last block. */
  datatype Hash<!S(!new)> = Hash(
    init: S,                      // the initial chaining value
    compress: (S, Bytes) -> S,    // one block into the chaining value
    raw: S -> Bytes,              // the chaining value written out
    mdSize: nat,                  // bytes of `raw` that form the digest
    blockSize: nat,
    lengthSize: nat,              // bytes of the length field
    bigEndian: bool)
  {
    /** The two layouts in use; only the 64-byte one has a little-endian member (MD5). */
    ghost predicate Valid() {
      && ((blockSize == 64 && lengthSize == 8) || (blockSize == 128 && lengthSize == 16 && bigEndian))
      && 0 < mdSize <= 64
      && forall s: S :: mdSize <= |raw(s)| <= 64
    }

    /** Compress the whole blocks of msg in order. */
    function Absorb(s: S, msg: Bytes): S
      requires blockSize > 0
      decreases |msg|
    {
      if |msg| < blockSize then s else Absorb(compress(s, msg[..blockSize]), msg[blockSize..])
    }

    function LengthField(bits: nat): (f: Bytes)
      ensures |f| == lengthSize
    {
      if bigEndian then BigEndian(bits, lengthSize) else LittleEndian(bits, lengthSize)
    }

    /** Zero bytes between the 0x80 marker and the length field: the fewest that fill a block. */
    function ZeroCount(n: nat): (z: nat)
      requires Valid()
      ensures z < blockSize
    {
      var r := n % blockSize;
      if r + 1 + lengthSize <= blockSize then blockSize - r - 1 - lengthSize
      else 2 * blockSize - r - 1 - lengthSize
    }

    /** The padding of an n-byte message. */
    function Padding(n: nat): Bytes
      requires Valid()
    {
      [0x80] + Zeros(ZeroCount(n)) + LengthField(8 * n)
    }

    function Digest(msg: Bytes): (d: Bytes)
      requires Valid()
      ensures |d| == mdSize
    {
      raw(Absorb(init, msg + Padding(|msg|)))[..mdSize]
    }

    /** A key filled up to a block and masked with `pad`. */
    function KeyBlock(key: Bytes, pad: bv8): (b: Bytes)
      requires |key| <= blockSize
      ensures |b| == blockSize
    {
      seq(blockSize, i requires 0 <= i < blockSize => (if i < |key| then key[i] else 0) ^ pad)
    }

    /** RFC 2104 section 2 for keys no longer than a block. */
    function Hmac(key: Bytes, text: Bytes): (d: Bytes)
      requires Valid() && |key| <= blockSize
      ensures |d| == mdSize
    {
      Digest(KeyBlock(key, 0x5c) + Digest(KeyBlock(key, 0x36) + text))
    }

    /**
     RFC 2104 section 2, block by block: whatever bytes x and y are those of the key, with zeros appended, under the
     outer and the inner pad.
     */
    lemma HmacIs(key: Bytes, text: Bytes, x: Bytes, y: Bytes)
      requires Valid() && |key| <= blockSize == |x| == |y|
      requires forall i :: 0 <= i < blockSize ==> x[i] ^ 0x5c == y[i] ^ 0x36 == if i < |key| then key[i] else 0
      ensures Hmac(key, text) == Digest(x + Digest(y + text))
    {
      Masked(key, 0x5c, x);
      Masked(key, 0x36, y);
    }

    lemma Masked(key: Bytes, pad: bv8, x: Bytes)
      requires |key| <= blockSize == |x|
      requires forall i :: 0 <= i < blockSize ==> x[i] ^ pad == if i < |key| then key[i] else 0
      ensures x == KeyBlock(key, pad)
    {
      forall i | 0 <= i < blockSize ensures x[i] == KeyBlock(key, pad)[i] {
        XorTwice(x[i], pad);
      }
    }

    /** Zeros at the end of a key make no difference. */
    lemma TrailingZero(key: Bytes, text: Bytes)
      requires Valid() && |key| < blockSize
      ensures Hmac(key + [0], text) == Hmac(key, text)
    {
      assert KeyBlock(key + [0], 0x5c) == KeyBlock(key, 0x5c);
      assert KeyBlock(key + [0], 0x36) == KeyBlock(key, 0x36);
    }

    /**
     FIPS 180-4 section 5.1 and RFC 1321 sections 3.1 and 3.2: with a marker, less than a block of zeros and the number
     of its bits a message is whole blocks, and its digest is what they are compressed to.
     */
    lemma DigestIs(msg: Bytes, zeros: Bytes)
      requires Valid() && |zeros| < blockSize && (|msg| + 1 + |zeros| + lengthSize) % blockSize == 0
      requires forall i :: 0 <= i < |zeros| ==> zeros[i] == 0
      ensures Digest(msg) == raw(Absorb(init, msg + [0x80] + zeros + LengthField(8 * |msg|)))[..mdSize]
    {
      hide *;
      SamePadding(|msg|, zeros);
      Joined(msg, zeros, LengthField(8 * |msg|));
      DigestOfPadded(msg, [0x80] + zeros + LengthField(8 * |msg|));
    }

    lemma SamePadding(n: nat, zeros: Bytes)
      requires Valid() && |zeros| < blockSize && (n + 1 + |zeros| + lengthSize) % blockSize == 0
      requires forall i :: 0 <= i < |zeros| ==> zeros[i] == 0
      ensures [0x80] + zeros + LengthField(8 * n) == Padding(n)
    {
      SameLength(n, |zeros|);
      SameZeros(zeros);
    }

    lemma DigestOfPadded(msg: Bytes, padding: Bytes)
      requires Valid() && padding == Padding(|msg|)
      ensures Digest(msg) == raw(Absorb(init, msg + padding))[..mdSize]
    {}


    lemma SameZeros(zeros: Bytes)
      requires forall i :: 0 <= i < |zeros| ==> zeros[i] == 0
      ensures zeros == Zeros(|zeros|)
    {}

    lemma Joined(msg: Bytes, zeros: Bytes, f: Bytes)
      ensures msg + [0x80] + zeros + f == msg + ([0x80] + zeros + f)
    {}

    /** The length field counts the bits, one byte for each power of 256, in the order of the bytes of a word. */
    lemma LengthFieldIs(bits: nat, f: Bytes)
      requires |f| == lengthSize && forall i :: 0 <= i < lengthSize ==>
                 f[i] == (bits / Pow(256, if bigEndian then lengthSize - 1 - i else i) % 256) as bv8
      ensures f == LengthField(bits)
    {
      hide Pow, LengthField;
      forall i | 0 <= i < lengthSize ensures f[i] == LengthField(bits)[i] {
        LengthFieldByte(bits, i);
      }
    }

    /** There is one such number of zeros. */
    lemma SameLength(n: nat, z: nat)
      requires Valid() && z < blockSize && (n + 1 + z + lengthSize) % blockSize == 0
      ensures z == ZeroCount(n)
    {
      if blockSize == 64 {
      } else {
      }
    }

    lemma LengthFieldByte(bits: nat, i: nat)
      requires i < lengthSize
      ensures LengthField(bits)[i] == Byte(bits / Pow(256, if bigEndian then lengthSize - 1 - i else i))
    {
      if bigEndian {
        BigEndianByte(bits, lengthSize, i);
      } else {
        LittleEndianByte(bits, lengthSize, i);
      }
    }

    /** Absorbing is a homomorphism on whole blocks. */
    lemma {:induction false} AbsorbAppend(s: S, a: Bytes, b: Bytes, blocks: nat)
      requires blockSize > 0 && |a| == blocks * blockSize
      ensures Absorb(s, a + b) == Absorb(Absorb(s, a), b)
      decreases blocks
    {
      if blocks == 0 {
        assert a + b == b;
      } else {
        assert blocks * blockSize == blockSize + (blocks - 1) * blockSize;
        assert (a + b)[..blockSize] == a[..blockSize];
        assert (a + b)[blockSize..] == a[blockSize..] + b;
        AbsorbAppend(compress(s, a[..blockSize]), a[blockSize..], b, blocks - 1);
      }
    }

    lemma AbsorbOne(s: S, block: Bytes)
      requires 0 < blockSize == |block|
      ensures Absorb(s, block) == compress(s, block)
    {
      assert block[..blockSize] == block;
    }

    /** Absorbing up to the next block boundary is one more compression. */
    lemma AbsorbNext(s: S, m: Bytes, i: nat)
      requires blockSize > 0 && (i + 1) * blockSize <= |m|
      ensures 0 <= i * blockSize <= (i + 1) * blockSize == i * blockSize + blockSize
      ensures Absorb(s, m[..(i + 1) * blockSize])
           == compress(Absorb(s, m[..i * blockSize]), m[i * blockSize..(i + 1) * blockSize])
    {
      assert (i + 1) * blockSize == i * blockSize + blockSize;
      var a, b := m[..i * blockSize], m[i * blockSize..(i + 1) * blockSize];
      assert m[..(i + 1) * blockSize] == a + b;
      AbsorbAppend(s, a, b, i);
      AbsorbOne(Absorb(s, a), b);
    }

    /** The padded message is whole blocks, the last of which holds the length field. */
    lemma PaddedLength(n: nat)
      requires Valid()
      ensures n + |Padding(n)| == ((n + lengthSize) / blockSize + 1) * blockSize
    {
      var q, r := n / blockSize, n % blockSize;
      assert n == q * blockSize + r;
      if r + lengthSize < blockSize {
        DivModUnique(n + lengthSize, blockSize, q, r + lengthSize);
      } else {
        assert (q + 1) * blockSize == q * blockSize + blockSize;
        assert (q + 2) * blockSize == q * blockSize + 2 * blockSize;
        DivModUnique(n + lengthSize, blockSize, q + 1, r + lengthSize - blockSize);
      }
    }

    /** Byte t of a padded n-byte message. */
    function PaddedByte(msg: Bytes, t: nat): bv8
      requires Valid() && t < |msg| + |Padding(|msg|)|
    {
      var end := |msg| + |Padding(|msg|)|;
      if t < |msg| then msg[t]
      else if t == |msg| then 0x80
      else if t < end - lengthSize then 0
      else LengthField(8 * |msg|)[t - (end - lengthSize)]
    }

    lemma PaddedByteIs(msg: Bytes, t: nat)
      requires Valid() && t < |msg| + |Padding(|msg|)|
      ensures (msg + Padding(|msg|))[t] == PaddedByte(msg, t)
    {
      var n := |msg|;
      var z := ZeroCount(n);
      assert Padding(n) == [0x80] + Zeros(z) + LengthField(8 * n);
      if t > n {
        assert (msg + Padding(n))[t] == Padding(n)[t - n];
        assert Padding(n)[t - n] == if t - n < 1 + z then Zeros(z)[t - n - 1] else LengthField(8 * n)[t - n - 1 - z];
      }
    }
  }
}
