/**
 The byte string builder of libressl ssl/bs_cbb.c: nested builders write to one growing buffer, and the lengths of
 the open ones are filled in, and their contents moved where a length needs more octets, when they are flushed.
 */
module CbbBuilder {
  import opened Arithmetic
  import opened Der
  import opened Memory
  import opened Octets

  /** A length prefix whose place is reserved but whose value is not known yet. */
  datatype Pending = Pending(offset: nat, lenLen: nat, isAsn1: bool) {
    function Start(): nat {
      offset + lenLen
    }

    /** The prefix for n bytes of contents. */
    function Prefix(n: nat): seq<Octet> {
      if !isAsn1 then Digits(n, lenLen) else if n <= MAX_LENGTH then Length(n) else []
    }

    /** Whether the prefix can express that many bytes. */
    predicate Holds(n: nat) {
      if isAsn1 then n < MAX_LENGTH else n < Pow(256, lenLen)
    }
  }

  /** The bytes once the innermost prefix is filled in. */
  function Closed(data: seq<Octet>, p: Pending): seq<Octet>
    requires p.Start() <= |data|
  {
    data[..p.offset] + p.Prefix(|data| - p.Start()) + data[p.Start()..]
  }

  /** Reserved places lie one after the other in the data, asn1 ones having a single octet. */
  ghost predicate Nested(data: seq<Octet>, open: seq<Pending>) {
    && (forall i :: 0 <= i < |open| ==> 1 <= open[i].lenLen <= 4 && (open[i].isAsn1 ==> open[i].lenLen == 1))
    && (forall i :: 0 <= i < |open| ==> open[i].Start() <= |data|)
    && (forall i, j :: 0 <= i < j < |open| ==> open[i].Start() <= open[j].offset)
  }

  /** The bytes once all prefixes but the outer p are filled in, from the inside out. */
  ghost function ClosedTo(data: seq<Octet>, open: seq<Pending>, p: nat): seq<Octet>
    requires Nested(data, open)
    decreases |open|
  {
    if |open| <= p then data
    else
      var last := open[|open| - 1];
      CloseKeepsNesting(data, open);
      ClosedTo(Closed(data, last), open[..|open| - 1], p)
  }

  /** Whether all those prefixes can express their lengths. */
  ghost predicate HoldTo(data: seq<Octet>, open: seq<Pending>, p: nat)
    requires Nested(data, open)
    decreases |open|
  {
    if |open| <= p then true
    else
      var last := open[|open| - 1];
      CloseKeepsNesting(data, open);
      last.Holds(|data| - last.Start()) && HoldTo(Closed(data, last), open[..|open| - 1], p)
  }

  lemma CloseKeepsNesting(data: seq<Octet>, open: seq<Pending>)
    requires Nested(data, open) && open != []
    ensures Nested(Closed(data, open[|open| - 1]), open[..|open| - 1])
  {}

  lemma {:induction false} ClosedToNested(data: seq<Octet>, open: seq<Pending>, p: nat)
    requires Nested(data, open) && p <= |open|
    ensures Nested(ClosedTo(data, open, p), open[..p])
    decreases |open|
  {
    if p < |open| {
      CloseKeepsNesting(data, open);
      ClosedToNested(Closed(data, open[|open| - 1]), open[..|open| - 1], p);
      assert open[..|open| - 1][..p] == open[..p];
    } else {
      assert open[..p] == open;
    }
  }

  /** Closing down to p is closing down to p + 1 and then the one at p. */
  lemma {:induction false} CloseInSteps(data: seq<Octet>, open: seq<Pending>, p: nat)
    requires Nested(data, open) && p < |open|
    ensures var d := ClosedTo(data, open, p + 1);
      && open[p].Start() <= |d| && ClosedTo(data, open, p) == Closed(d, open[p])
      && (HoldTo(data, open, p) <==> HoldTo(data, open, p + 1) && open[p].Holds(|d| - open[p].Start()))
    decreases |open|
  {
    hide Pending.Holds, Pending.Prefix, Closed, ClosedTo, HoldTo;
    var last := |open| - 1;
    CloseOne(data, open, p);
    var inner, outer := Closed(data, open[last]), open[..last];
    if p < last {
      CloseOne(data, open, p + 1);
      CloseInSteps(inner, outer, p);
      assert outer[p] == open[p];
    } else {
      CloseNone(inner, outer, p);
      CloseNone(data, open, p + 1);
    }
  }

  lemma CloseOne(data: seq<Octet>, open: seq<Pending>, p: nat)
    requires Nested(data, open) && p < |open|
    ensures var last := open[|open| - 1]; var inner, outer := Closed(data, last), open[..|open| - 1];
      && Nested(inner, outer) && ClosedTo(data, open, p) == ClosedTo(inner, outer, p)
      && (HoldTo(data, open, p) <==> last.Holds(|data| - last.Start()) && HoldTo(inner, outer, p))
  {
    CloseKeepsNesting(data, open);
  }

  lemma CloseNone(data: seq<Octet>, open: seq<Pending>, p: nat)
    requires Nested(data, open) && |open| <= p
    ensures ClosedTo(data, open, p) == data && HoldTo(data, open, p)
  {}

  /** cbb_buffer_st; `stack` is the chain of open builders, the top-level one first. */
  class Buffer {
    var buf: array<Octet>
    var len: nat
    const canResize: bool
    ghost var stack: seq<Cbb>
    ghost var open: seq<Pending>      // the prefixes to fill in: one for every builder that has a child

    ghost function Contents(): seq<Octet>
      reads this, buf
      requires len <= buf.Length
    {
      buf[..len]
    }

    ghost predicate Valid()
      reads this, buf, set x | x in stack
    {
      && len <= buf.Length && |stack| == |open| + 1
      && Chained()
      && (forall i, j :: 0 <= i < j < |stack| ==> stack[i] != stack[j])
      && Nested(Contents(), open)
    }

    ghost predicate Chained()
      reads this, set x | x in stack
      requires |stack| == |open| + 1
    {
      && (forall i :: 0 <= i < |stack| ==> stack[i].base == this && stack[i].child == Child(i))
      && (forall i :: 0 <= i < |open| ==> stack[i].Waiting() == open[i])
    }

    ghost function Child(i: nat): Cbb?
      reads this
      requires i < |stack|
    {
      if i + 1 < |stack| then stack[i + 1] else null
    }

    constructor (capacity: nat, canResize: bool)
      ensures buf.Length == capacity && len == 0 && this.canResize == canResize && fresh(buf)
      ensures stack == [] && open == []
    {
      buf := new Octet[capacity](_ => 0);
      this.canResize := canResize;
      len, stack, open := 0, [], [];
    }

    /** Fills in a length of fixed size. */
    method FillLength(offset: nat, lenLen: nat, ghost p: Pending) returns (ok: bool)
      requires len <= buf.Length && p == Pending(offset, lenLen, false) && p.Start() <= len
      modifies buf
      ensures ok <==> p.Holds(len - p.Start())
      ensures ok ==> Contents() == Closed(old(Contents()), p)
    {
      ghost var was, data := buf[..], buf[..len];
      var n := len - (offset + lenLen);
      var rest := WriteNumber(buf, offset, lenLen, n);
      assert buf[..] == was[..offset] + Digits(n, lenLen) + was[offset + lenLen..];
      assert buf[..len] == buf[..][..len];
      assert was[..len] == data;
      assert was[..offset] == data[..offset] && was[offset + lenLen..len] == data[offset + lenLen..];
      assert buf[..len] == data[..offset] + Digits(n, lenLen) + data[offset + lenLen..];
      return rest == 0;
    }

    /** Fills in the length of an element, for which one octet was reserved. */
    method FillAsn1Length(offset: nat, ghost p: Pending) returns (ok: bool)
      requires len <= buf.Length && p == Pending(offset, 1, true) && p.Start() <= len
      modifies this`buf, this`len, buf
      ensures len <= buf.Length && (buf == old(buf) || fresh(buf))
      ensures ok ==> p.Holds(old(len) - p.Start())
      ensures canResize && p.Holds(old(len) - p.Start()) ==> ok
      ensures ok ==> Contents() == Closed(old(Contents()), p)
    {
      var childStart := offset + 1;
      var n := len - childStart;
      ghost var data := buf[..len];
      var lenLen: nat := 1;     // length octets in all
      if n > 0xffff_fffe {
        return false;
      } else if n > 0xff_ffff {
        lenLen := 5;
      } else if n > 0xffff {
        lenLen := 4;
      } else if n > 0xff {
        lenLen := 3;
      } else if n > 0x7f {
        lenLen := 2;
      }
      if lenLen == 1 {
        buf[offset] := n;
        assert buf[..len] == data[..offset] + [n] + data[childStart..];
        return true;
      }
      var extra := lenLen - 1;
      ok := Add(extra);
      if !ok {
        return;
      }
      assert buf[..|data|] == data;
      MoveAndFill(offset, extra, n, data);
    }

    /** The contents move along and the long form of the length is written before them. */
    method MoveAndFill(offset: nat, extra: nat, n: nat, ghost data: seq<Octet>)
      requires 1 <= extra <= 4 && |data| == offset + 1 + n && len == |data| + extra <= buf.Length
      requires buf[..|data|] == data && 0x7f < n < MAX_LENGTH
      requires extra == if n > 0xff_ffff then 4 else if n > 0xffff then 3 else if n > 0xff then 2 else 1
      modifies buf
      ensures buf[..len] == data[..offset] + Length(n) + data[offset + 1..]
    {
      hide Length, LengthSize, Digits, Pow, Spliced;
      LongLength(n, extra);
      ghost var b0 := buf[..];
      assert b0[..|data|] == data;
      Slide(offset + 1 + extra, offset + 1, n);
      ghost var b1 := buf[..];
      var initial: Octet := 0x80 + extra;
      Put(offset, initial);
      ghost var b2 := buf[..];
      WriteDigits(offset + 1, extra, n);
      assert b0[..|data|] == data;
      assert |Digits(n, extra)| == extra;
      assert Spliced(b2, offset + 1, Digits(n, extra), buf[..]);
      assert Spliced(b1, offset, [initial], b2);
      assert Spliced(b0, offset + 1 + extra, b0[offset + 1..offset + 1 + n], b1);
      MovedAlong(data, b0, b1, b2, buf[..], offset, extra, n, initial, Digits(n, extra));
      assert buf[..len] == buf[..][..len];
    }

    /** memmove within the buffer. */
    method Slide(to: nat, from: nat, n: nat)
      requires from + n <= buf.Length && to + n <= buf.Length
      modifies buf
      ensures Spliced(old(buf[..]), to, old(buf[..])[from..from + n], buf[..])
    {
      ghost var b := buf[..];
      assert buf[..to] == b[..to] && buf[from..from + n] == b[from..from + n] && buf[to + n..] == b[to + n..];
      MemCpy(buf, to, buf[from..from + n]);
    }

    method Put(at: nat, x: Octet)
      requires at < buf.Length
      modifies buf
      ensures Spliced(old(buf[..]), at, [x], buf[..])
    {
      buf[at] := x;
    }

    /** The length octets after the first. */
    method WriteDigits(at: nat, k: nat, n: nat)
      requires at + k <= buf.Length
      modifies buf
      ensures Spliced(old(buf[..]), at, Digits(n, k), buf[..])
    {
      ghost var b := buf[..];
      assert buf[..at] == b[..at] && buf[at + k..] == b[at + k..];
      var rest := WriteNumber(buf, at, k, n);
    }

    /** cbb_buffer_add: room for more bytes, in a larger buffer if need be and allowed. */
    method Add(n: nat) returns (ok: bool)
      requires len <= buf.Length
      modifies this`buf, this`len
      ensures len <= buf.Length && (buf == old(buf) || fresh(buf))
      ensures ok <==> canResize || old(len) + n <= old(buf.Length)
      ensures len == old(len) + if ok then n else 0
      ensures buf[..old(len)] == old(buf[..len])
    {
      var newLen := len + n;
      if newLen > buf.Length {
        var newCap := buf.Length * 2;
        if !canResize {
          return false;
        }
        if newCap < newLen {
          newCap := newLen;
        }
        var newBuf := new Octet[newCap](_ => 0);
        MemCpy(newBuf, 0, buf[..]);
        assert newBuf[..len] == newBuf[..][..len] == buf[..len];
        buf := newBuf;
      }
      len := newLen;
      return true;
    }
  }

  /** Octets that a length needs after the first, at the least. */
  lemma LongLength(n: nat, k: nat)
    requires 0x7f < n < MAX_LENGTH
    requires k == if n > 0xff_ffff then 4 else if n > 0xffff then 3 else if n > 0xff then 2 else 1
    ensures Length(n) == [0x80 + k] + Digits(n, k) && n < Pow(256, k)
  {
    Powers256();
  }

  /** The four states of the buffer while contents move along for a longer length. */
  /** From place `at` on the bytes are these, and all others are as they were. */
  ghost predicate Spliced(was: seq<Octet>, at: nat, bytes: seq<Octet>, now: seq<Octet>) {
    at + |bytes| <= |was| && now == was[..at] + bytes + was[at + |bytes|..]
  }

  lemma MovedAlong(data: seq<Octet>, b0: seq<Octet>, b1: seq<Octet>, b2: seq<Octet>, b3: seq<Octet>,
                   offset: nat, extra: nat, n: nat, initial: Octet, digits: seq<Octet>)
    requires |data| == offset + 1 + n && |data| + extra <= |b0| && |digits| == extra && 1 <= extra <= 4
    requires b0[..|data|] == data
    requires Spliced(b0, offset + 1 + extra, b0[offset + 1..offset + 1 + n], b1)
    requires Spliced(b1, offset, [initial], b2) && Spliced(b2, offset + 1, digits, b3)
    ensures |b3| == |b0| && b3[..|data| + extra] == data[..offset] + ([initial] + digits) + data[offset + 1..]
  {
    var head, body, tail := data[..offset], data[offset + 1..], b0[offset + 1 + extra + n..];
    assert b0[offset + 1..offset + 1 + n] == body;
    var front := b0[..offset + 1 + extra];
    assert front[..offset] == head;
    assert b1 == front + body + tail && |front| == offset + 1 + extra;
    assert b2[..offset + 1] == head + [initial];
    assert b2[offset + 1 + extra..] == b1[offset + 1 + extra..] == body + tail;
    assert b3 == head + [initial] + digits + (body + tail);
    assert b3 == head + ([initial] + digits) + body + tail;
    assert |head + ([initial] + digits) + body| == |data| + extra;
  }

  /** Writes the low k bytes of v, big-endian; what is left of v is zero exactly if they are all of it. */
  method WriteNumber(buf: array<Octet>, at: nat, k: nat, v: nat) returns (rest: nat)
    requires at + k <= buf.Length
    modifies buf
    ensures buf[..] == old(buf[..at]) + Digits(v, k) + old(buf[at + k..])
    ensures rest == 0 <==> v < Pow(256, k)
  {
    rest := v;
    var i := k;
    ghost var tail: seq<Octet> := [];
    while i > 0
      invariant 0 <= i <= k && |tail| == k - i && Digits(v, k) == Digits(rest, i) + tail
      invariant v < Pow(256, k) <==> rest < Pow(256, i)
      invariant buf[..] == old(buf[..at + i]) + tail + old(buf[at + k..])
    {
      i := i - 1;
      NextDigit(rest, i);
      tail := [rest % 256] + tail;
      buf[at + i] := rest % 256;
      rest := rest / 256;
    }
  }

  lemma NextDigit(v: nat, i: nat)
    ensures v < Pow(256, i + 1) <==> v / 256 < Pow(256, i)
    ensures Digits(v, i + 1) == Digits(v / 256, i) + [v % 256]
  {
    assert Pow(256, i + 1) == 256 * Pow(256, i);
    var p := Pow(256, i);
    assert v == v / 256 * 256 + v % 256;
  }

  ghost function Above(stack: seq<Cbb>, p: nat): set<object> {
    set i: nat | p <= i < |stack| :: stack[i]
  }

  class Cbb {
    var base: Buffer?
    var offset: nat
    var child: Cbb?
    var pendingLenLen: nat
    var pendingIsAsn1: bool
    const isTopLevel: bool

    ghost function Waiting(): Pending
      reads this
    {
      Pending(offset, pendingLenLen, pendingIsAsn1)
    }

    constructor ()
      ensures base == null && child == null && pendingLenLen == 0 && offset == 0 && !pendingIsAsn1 && !isTopLevel
    {
      base, child, pendingLenLen, offset, pendingIsAsn1, isTopLevel := null, null, 0, 0, false, false;
    }

    /** CBB_init, and CBB_init_fixed if the buffer may not grow. */
    constructor Init(initialCapacity: nat, canResize: bool)
      ensures At(0) && isTopLevel && base.stack == [this] && base.open == [] && base.Contents() == []
      ensures base.canResize == canResize && fresh(base) && fresh(base.buf)
    {
      var capacity := if canResize && initialCapacity == 0 then 64 else initialCapacity;
      var buffer := new Buffer(capacity, canResize);
      base, child, pendingLenLen, offset, pendingIsAsn1, isTopLevel := buffer, null, 0, 0, false, true;
      new;
      base.stack := [this];
    }

    /** CBB_finish: all lengths filled in, the bytes are handed over. */
    method Finish() returns (ok: bool, out: seq<Octet>)
      requires base == null || At(0)
      modifies Frame(0)
      ensures ok ==> isTopLevel && old(base) != null && base == null
      ensures ok ==> out == old(ClosedTo(base.Contents(), base.open, 0)) && old(HoldTo(base.Contents(), base.open, 0))
      ensures isTopLevel && old(base != null && base.canResize && HoldTo(base.Contents(), base.open, 0)) ==> ok
    {
      hide ClosedTo, HoldTo, Above;
      if !isTopLevel {
        return false, [];
      }
      ok := Flush(0);
      if !ok {
        return false, [];
      }
      out := base.buf[..base.len];
      base := null;
    }

    /** The builder is the one at place p of the stack. */
    ghost predicate At(p: nat)
      reads this, base, if base != null then {base.buf} + (set x: object | x in base.stack) else {}
    {
      base != null && base.Valid() && p < |base.stack| && base.stack[p] == this
    }

    lemma Within(p: nat)
      requires At(p)
      ensures base.len <= base.buf.Length
    {}

    /** The end of CBB_flush: the innermost prefix is filled in and its builder cut off. */
    method FillIn(ghost p: nat) returns (ok: bool)
      requires At(p) && p + 2 == |base.stack|
      modifies this, base, base.buf, child
      ensures base == old(base) && (base.buf == old(base.buf) || fresh(base.buf))
      ensures ok ==> old(Waiting().Holds(|base.Contents()| - Waiting().Start()))
      ensures base.canResize && old(Waiting().Holds(|base.Contents()| - Waiting().Start())) ==> ok
      ensures ok ==> At(p) && base.stack == old(base.stack)[..p + 1] && base.open == old(base.open)[..p]
      ensures ok ==> base.Contents() == old(Closed(base.Contents(), Waiting()))
    {
      hide Pending.Holds, Pending.Prefix, Closed, Nested;
      LastParent(p);
      ghost var data, open := base.Contents(), base.open;
      if pendingIsAsn1 {
        ok := base.FillAsn1Length(offset, Waiting());
      } else {
        ok := base.FillLength(offset, pendingLenLen, Waiting());
      }
      if !ok {
        return;
      }
      CloseKeepsNesting(data, open);
      CutChild(p);
    }

    /** Lets go of the child; its builder is closed. */
    method CutChild(ghost p: nat)
      requires base != null && base.len <= base.buf.Length && |base.stack| == |base.open| + 1 == p + 2
      requires base.stack[p] == this && base.Chained() && Nested(base.Contents(), base.open[..p])
      requires forall i, j :: 0 <= i < j < |base.stack| ==> base.stack[i] != base.stack[j]
      modifies this, base`stack, base`open, child
      ensures base == old(base) && At(p)
      ensures base.stack == old(base.stack)[..p + 1] && base.open == old(base.open)[..p]
    {
      hide Nested;
      child.base := null;
      child := null;
      pendingLenLen, pendingIsAsn1, offset := 0, false, 0;
      base.stack, base.open := base.stack[..p + 1], base.open[..p];
    }

    /** What an operation on the builder at place p may change: not the builders before it. */
    ghost function Frame(p: nat): set<object>
      reads this, base
    {
      if base == null then {this}
      else
        var b: Buffer := base;
        {this, b, b.buf} + Above(b.stack, p)
    }

    /**
     CBB_flush: the children are closed from the inside out, so that the data are final and this builder has no
     child. With a growing buffer it fails only when a length does not fit its prefix.
     */
    method Flush(ghost p: nat) returns (ok: bool)
      requires base == null || At(p)
      modifies Frame(p)
      ensures base == old(base) && (base != null ==> base.buf == old(base.buf) || fresh(base.buf))
      ensures ok ==> At(p) && base.stack == old(base.stack)[..p + 1] && base.open == old(base.open)[..p]
      ensures ok ==> base.Contents() == old(ClosedTo(base.Contents(), base.open, p))
      ensures ok ==> old(HoldTo(base.Contents(), base.open, p))
      ensures base != null && base.canResize && old(HoldTo(base.Contents(), base.open, p)) ==> ok
      decreases if base == null then 0 else |base.stack| - p
    {
      hide Pending.Holds, Pending.Prefix, Closed, Nested, ClosedTo, HoldTo, Buffer.Chained, Above;
      if base == null {
        return false;
      }
      ghost var data, open, stack := base.Contents(), base.open, base.stack;
      ghost var place, kid := Waiting(), child;
      if child == null || pendingLenLen == 0 {
        Childless(p);
        return true;
      }
      Parental(p);
      CloseInSteps(data, open, p);
      ghost var nested := ClosedTo(data, open, p + 1);
      ok := child.Flush(p + 1);
      if !ok {
        return;
      }
      assert Waiting() == place && child == kid;
      assert base.stack == stack[..p + 2] && base.open == open[..p + 1] && base.Contents() == nested;
      ok := FillIn(p);
    }

    lemma Childless(p: nat)
      requires At(p) && (child == null || pendingLenLen == 0)
      ensures |base.stack| == p + 1
      ensures ClosedTo(base.Contents(), base.open, p) == base.Contents() && HoldTo(base.Contents(), base.open, p)
    {
      CloseNone(base.Contents(), base.open, p);
    }

    lemma LastParent(p: nat)
      requires At(p) && p + 2 == |base.stack|
      ensures Waiting() == base.open[p] && child == base.stack[p + 1] && Nested(base.Contents(), base.open)
      ensures Waiting().Start() <= base.len && (pendingIsAsn1 ==> pendingLenLen == 1)
      ensures base.open[..|base.open| - 1] == base.open[..p]
    {}

    lemma Parental(p: nat)
      requires At(p) && child != null && pendingLenLen != 0
      ensures p + 1 < |base.stack| && child == base.stack[p + 1] && child.base == base
      ensures child.At(p + 1) && Nested(base.Contents(), base.open)
      ensures Waiting() == base.open[p] && this !in child.Frame(p + 1) && child.Frame(p + 1) <= Frame(p)
    {}

    /** Bytes after a builder without children. */
    method Append(data: seq<Octet>, ghost p: nat) returns (ok: bool)
      requires At(p) && |base.stack| == p + 1
      modifies base, base.buf
      ensures base.buf == old(base.buf) || fresh(base.buf)
      ensures base.canResize ==> ok
      ensures ok ==> At(p) && base.stack == old(base.stack) && base.open == old(base.open)
      ensures ok ==> base.Contents() == old(base.Contents()) + data
    {
      ghost var before, open := base.Contents(), base.open;
      var at := base.len;
      ok := base.Add(|data|);
      if !ok {
        return;
      }
      assert base.buf[..at] == before;
      MemCpy(base.buf, at, data);
      assert base.buf[..base.len] == base.buf[..][..at] + base.buf[..][at..at + |data|];
      assert base.Contents() == before + data;
      StaysNested(before, data, open);
    }

    /** CBB_add_bytes and CBB_add_space with a copy. */
    method AddBytes(data: seq<Octet>, ghost p: nat) returns (ok: bool)
      requires base == null || At(p)
      modifies Frame(p)
      ensures base == old(base) && (base != null ==> base.buf == old(base.buf) || fresh(base.buf))
      ensures ok ==> At(p) && base.stack == old(base.stack)[..p + 1] && base.open == old(base.open)[..p]
      ensures ok ==> base.Contents() == old(ClosedTo(base.Contents(), base.open, p)) + data
      ensures ok ==> old(HoldTo(base.Contents(), base.open, p))
      ensures base != null && base.canResize && old(HoldTo(base.Contents(), base.open, p)) ==> ok
    {
      hide Nested, ClosedTo, HoldTo, Buffer.Chained, Above;
      ok := Flush(p);
      if ok {
        ok := Append(data, p);
      }
    }

    /** cbb_add_u, behind CBB_add_u8, _u16 and _u24: the low bytes of v, big-endian. */
    method AddU(v: nat, lenLen: nat, ghost p: nat) returns (ok: bool)
      requires base == null || At(p)
      modifies Frame(p)
      ensures base == old(base) && (base != null ==> base.buf == old(base.buf) || fresh(base.buf))
      ensures ok && lenLen > 0 ==> At(p) && base.stack == old(base.stack)[..p + 1] && base.open == old(base.open)[..p]
      ensures ok && lenLen > 0 ==> lenLen <= 4
      ensures ok && lenLen > 0 ==> base.Contents() == old(ClosedTo(base.Contents(), base.open, p)) + Digits(v, lenLen)
      ensures ok && lenLen > 0 ==> old(HoldTo(base.Contents(), base.open, p))
      ensures base != null && base.canResize && 1 <= lenLen <= 4 && old(HoldTo(base.Contents(), base.open, p)) ==> ok
    {
      hide Nested, ClosedTo, HoldTo, Buffer.Chained, Above, Digits;
      if lenLen == 0 {
        return true;
      }
      if lenLen > 4 {
        return false;
      }
      ok := Flush(p);
      if ok {
        ok := Append(Digits(v, lenLen), p);
      }
    }

    /** Reserves a length prefix at the end of the data and opens a builder for what it will count. */
    method OpenChild(contents: Cbb, at: nat, lenLen: nat, isAsn1: bool, ghost p: nat)
      requires At(p) && |base.stack| == p + 1 && contents !in base.stack && !contents.isTopLevel
      requires 1 <= lenLen <= 4 && (isAsn1 ==> lenLen == 1) && at + lenLen == base.len
      requires forall q :: q in base.open ==> q.Start() <= at
      modifies this, contents, base`stack, base`open
      ensures base == old(base) && contents.base == base && contents.At(p + 1) && At(p)
      ensures base.stack == old(base.stack) + [contents] && base.open == old(base.open) + [Pending(at, lenLen, isAsn1)]
      ensures base.Contents() == old(base.Contents())
    {
      hide Nested;
      ghost var l := base.stack;
      NestedMore(base.Contents(), base.open, Pending(at, lenLen, isAsn1));
      ghost var open, data, b := base.open, base.Contents(), base;
      LinksBelow(p, contents);
      hide Buffer.Chained, Buffer.Valid;
      contents.base, contents.child, contents.offset := base, null, 0;
      contents.pendingLenLen, contents.pendingIsAsn1 := 0, false;
      child, offset, pendingLenLen, pendingIsAsn1 := contents, at, lenLen, isAsn1;
      base.stack := l + [contents];
      base.open := open + [Pending(at, lenLen, isAsn1)];
      ChainGrows(b, l, open, contents, Pending(at, lenLen, isAsn1));
      NowValid(b, l, contents);
    }

    /** The builders before this one, which opening a child does not touch. */
    lemma LinksBelow(p: nat, contents: Cbb)
      requires At(p) && |base.stack| == p + 1 && contents !in base.stack
      ensures forall i :: 0 <= i < p ==> base.stack[i] != this && base.stack[i] != contents
      ensures forall i :: 0 <= i < p ==>
        && base.stack[i].base == base && base.stack[i].child == base.stack[i + 1]
        && base.stack[i].Waiting() == base.open[i]
      ensures base.len <= base.buf.Length && |base.open| == p && base.stack[p] == this
      ensures forall i, j :: 0 <= i < j < |base.stack| ==> base.stack[i] != base.stack[j]
    {}

    /** cbb_add_length_prefixed. */
    method AddLengthPrefixed(contents: Cbb, lenLen: nat, ghost p: nat) returns (ok: bool)
      requires base == null || At(p)
      requires 1 <= lenLen <= 3 && contents != this && !contents.isTopLevel
                 && (base != null ==> contents !in base.stack[..p + 1])
      modifies Frame(p), contents
      ensures base == old(base) && (base != null ==> base.buf == old(base.buf) || fresh(base.buf))
      ensures ok ==> At(p) && contents.At(p + 1) && contents.base == base
      ensures ok ==> base.stack == old(base.stack)[..p + 1] + [contents]
      ensures ok ==> var data := old(ClosedTo(base.Contents(), base.open, p));
        && base.Contents() == data + seq(lenLen, _ => 0)
        && base.open == old(base.open)[..p] + [Pending(|data|, lenLen, false)]
      ensures ok ==> old(HoldTo(base.Contents(), base.open, p))
      ensures base != null && base.canResize && old(HoldTo(base.Contents(), base.open, p)) ==> ok
    {
      hide ClosedTo, HoldTo, Above;
      ok := Flush(p);
      if !ok {
        return;
      }
      ghost var open, before := base.open, base.Contents();
      var at := base.len;
      ok := Append(seq(lenLen, _ => 0), p);
      if !ok {
        return;
      }
      OpenChild(contents, at, lenLen, false, p);
    }

    /** Tag and reserved octet after a builder without children, and the new child after them. */
    method TagAndChild(contents: Cbb, tag: Octet, ghost p: nat) returns (ok: bool)
      requires At(p) && |base.stack| == p + 1 && contents !in base.stack && !contents.isTopLevel
      modifies this, contents, base, base.buf
      ensures base == old(base) && (base.buf == old(base.buf) || fresh(base.buf))
      ensures base.canResize ==> ok
      ensures ok ==> At(p) && contents.At(p + 1) && contents.base == base
      ensures ok ==> base.stack == old(base.stack) + [contents]
      ensures ok ==> base.Contents() == old(base.Contents()) + [tag, 0]
      ensures ok ==> base.open == old(base.open) + [Pending(|old(base.Contents())| + 1, 1, true)]
    {
      ghost var before := base.Contents();
      assert before + [tag] + [0] == before + [tag, 0];
      ok := Append([tag], p);
      if !ok {
        return;
      }
      var at := base.len;
      ok := Append([0], p);
      if !ok {
        return;
      }
      OpenChild(contents, at, 1, true, p);
    }

    /** CBB_add_asn1: one length octet is reserved, the usual case. */
    method AddAsn1(contents: Cbb, tag: nat, ghost p: nat) returns (ok: bool)
      requires base == null || At(p)
      requires contents != this && !contents.isTopLevel && (base != null ==> contents !in base.stack[..p + 1])
      modifies Frame(p), contents
      ensures base == old(base) && (base != null ==> base.buf == old(base.buf) || fresh(base.buf))
      ensures ok ==> tag < 256 && ShortTag(tag)
      ensures ok ==> At(p) && contents.At(p + 1) && contents.base == base
      ensures ok ==> base.stack == old(base.stack)[..p + 1] + [contents]
      ensures ok ==> var data := old(ClosedTo(base.Contents(), base.open, p));
        && base.Contents() == data + [tag, 0]
        && base.open == old(base.open)[..p] + [Pending(|data| + 1, 1, true)]
      ensures ok ==> old(HoldTo(base.Contents(), base.open, p))
      ensures tag < 256 && ShortTag(tag) && base != null && base.canResize ==>
        (old(HoldTo(base.Contents(), base.open, p)) ==> ok)
    {
      hide ClosedTo, HoldTo, Above;
      if tag > 255 {
        return false;
      }
      if tag % 32 == 31 {
        return false;
      }
      ok := Flush(p);
      if ok {
        ok := TagAndChild(contents, tag, p);
      }
    }
  }

  lemma ChainGrows(b: Buffer, l: seq<Cbb>, open: seq<Pending>, contents: Cbb, last: Pending)
    requires |l| == |open| + 1 && b.stack == l + [contents] && b.open == open + [last]
    requires forall i :: 0 <= i < |open| ==> l[i].base == b && l[i].child == l[i + 1] && l[i].Waiting() == open[i]
    requires l[|open|].base == b && l[|open|].child == contents && l[|open|].Waiting() == last
    requires contents.base == b && contents.child == null
    ensures b.Chained()
  {}

  lemma NowValid(b: Buffer, l: seq<Cbb>, contents: Cbb)
    requires |b.stack| == |b.open| + 1 && b.Chained() && b.len <= b.buf.Length && Nested(b.Contents(), b.open)
    requires b.stack == l + [contents] && contents !in l
    requires forall i, j :: 0 <= i < j < |l| ==> l[i] != l[j]
    ensures b.Valid()
  {}

  lemma NestedMore(data: seq<Octet>, open: seq<Pending>, last: Pending)
    requires Nested(data, open) && last.Start() <= |data| && forall q :: q in open ==> q.Start() <= last.offset
    requires 1 <= last.lenLen <= 4 && (last.isAsn1 ==> last.lenLen == 1)
    ensures Nested(data, open + [last])
  {}

  lemma StaysNested(data: seq<Octet>, more: seq<Octet>, open: seq<Pending>)
    requires Nested(data, open)
    ensures Nested(data + more, open)
  {}

  /** A flushed element is its encoding, with the length in the form it needs. */
  lemma ClosedElement(before: seq<Octet>, tag: Octet, content: seq<Octet>)
    requires |content| < MAX_LENGTH
    ensures Closed(before + [tag, 0] + content, Pending(|before| + 1, 1, true)) == before + Element(tag, content)
  {
    hide Length;
    var data := before + [tag, 0] + content;
    assert data[..|before| + 1] == before + [tag] && data[|before| + 2..] == content;
  }

  /** A flushed length-prefixed block is its length and its contents. */
  lemma ClosedBlock(before: seq<Octet>, lenLen: nat, content: seq<Octet>)
    ensures Closed(before + seq(lenLen, _ => 0) + content, Pending(|before|, lenLen, false))
         == before + Digits(|content|, lenLen) + content
  {
    var data := before + seq(lenLen, _ => 0) + content;
    assert data[..|before|] == before && data[|before| + lenLen..] == content;
  }
}
