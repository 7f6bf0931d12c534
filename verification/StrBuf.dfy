/** The growing string buffer of lua-cjson (strbuf.c, strbuf.h), with its default exponential growth. */
module StrBufs {
  import opened Arithmetic
  import opened Memory
  import opened Octets

  const DEFAULT_SIZE: nat := 1023
  const GROWTH: nat := 2          // the default increment is -2

  lemma Doubled(n: nat, k: nat)
    ensures n * Pow2(k) * 2 == n * Pow2(k + 1)
  {
    assert Pow2(k + 1) == 2 * Pow2(k);
  }

  /** A larger buffer shrinks to fit; a smaller one is doubled until len bytes and a terminator fit, and no further. */
  ghost predicate NewSize(size: nat, len: nat, newSize: nat) {
    if size > len then newSize == len + 1
    else len + 1 <= newSize < 2 * (len + 1) && exists k :: newSize == size * Pow2(k)
  }

  /** calculate_new_size. */
  method CalculateNewSize(size: nat, len: nat) returns (newSize: nat)
    requires 0 < size && 0 < len
    ensures NewSize(size, len, newSize)
  {
    var reqSize := len + 1;
    if size > reqSize {
      return reqSize;
    }
    newSize := size;
    ghost var k := 0;
    assert Pow2(0) == 1;
    while newSize < reqSize
      invariant 0 < newSize && newSize == size * Pow2(k)
      invariant newSize == size || newSize < 2 * reqSize
    {
      Doubled(size, k);
      newSize, k := newSize * GROWTH, k + 1;
    }
  }

  class StrBuf {
    var buf: array<Octet>
    var length: nat

    ghost predicate Valid()
      reads this
    {
      length < buf.Length         // room for a terminating zero
    }

    ghost function Contents(): seq<Octet>
      reads this, buf
      requires Valid()
    {
      buf[..length]
    }

    /** Room left, the terminating zero aside. */
    function EmptyLength(): int
      reads this
    {
      buf.Length - length - 1
    }

    /** strbuf_new. */
    constructor (len: int)
      ensures Valid() && Contents() == [] && fresh(buf)
      ensures len > 0 ==> buf.Length == len + 1
    {
      var size: nat := if len <= 0 then DEFAULT_SIZE else len + 1;
      buf := new Octet[size](_ => 0);
      length := 0;
    }

    /** strbuf_string. */
    method String() returns (s: seq<Octet>)
      requires Valid()
      ensures s == Contents()
    {
      s := buf[..length];
    }

    method Reset()
      requires Valid()
      modifies this`length
      ensures Valid() && Contents() == []
    {
      length := 0;
    }

    /** strbuf_resize: what is there stays. */
    method Resize(len: nat)
      requires Valid() && 0 < len && length <= len
      modifies this`buf
      ensures Valid() && Contents() == old(Contents()) && fresh(buf) && NewSize(old(buf.Length), len, buf.Length)
    {
      var newSize := CalculateNewSize(buf.Length, len);
      var kept := buf[..length];
      var bytes := new Octet[newSize](_ => 0);
      MemCpy(bytes, 0, kept);
      assert bytes[..length] == bytes[..][..length] == kept;
      buf := bytes;
    }

    method EnsureEmptyLength(len: nat)
      requires Valid()
      modifies this`buf
      ensures Valid() && Contents() == old(Contents()) && EmptyLength() >= len
      ensures buf == old(buf) || fresh(buf)
    {
      if len > EmptyLength() {
        Resize(length + len);
      }
    }

    /** strbuf_append_char_unsafe: the caller knows that there is room. */
    method AppendCharUnsafe(c: Octet)
      requires Valid() && EmptyLength() >= 1
      modifies this`length, buf
      ensures Valid() && Contents() == old(Contents()) + [c] && EmptyLength() == old(EmptyLength()) - 1
    {
      ghost var before := Contents();
      buf[length] := c;
      length := length + 1;
      assert buf[..length - 1] == before;
    }

    /** strbuf_append_mem_unsafe. */
    method AppendMemUnsafe(c: seq<Octet>)
      requires Valid() && EmptyLength() >= |c|
      modifies this`length, buf
      ensures Valid() && Contents() == old(Contents()) + c && EmptyLength() == old(EmptyLength()) - |c|
    {
      ghost var before := Contents();
      MemCpy(buf, length, c);
      length := length + |c|;
      assert buf[..length] == buf[..][..length] == before + c;
    }

    /** strbuf_append_string: byte by byte, growing whenever the buffer is full. */
    method AppendString(str: seq<Octet>)
      requires Valid()
      modifies this, buf
      ensures Valid() && Contents() == old(Contents()) + str
      ensures buf == old(buf) || fresh(buf)
      ensures old(EmptyLength()) >= |str| ==> buf == old(buf) && EmptyLength() == old(EmptyLength()) - |str|
    {
      var space := EmptyLength();
      var i := 0;
      while i < |str|
        invariant 0 <= i <= |str| && Valid() && space == EmptyLength()
        invariant Contents() == old(Contents()) + str[..i]
        invariant buf == old(buf) || fresh(buf)
        invariant old(EmptyLength()) >= |str| ==> buf == old(buf) && space == old(EmptyLength()) - i
      {
        if space < 1 {
          Resize(length + 1);
          space := EmptyLength();
        }
        assert str[..i + 1] == str[..i] + [str[i]];
        AppendCharUnsafe(str[i]);
        space := space - 1;
        i := i + 1;
      }
    }
  }
}
