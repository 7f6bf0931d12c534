/**
 Builder and parser together (libressl ssl/bs_cbb.c and ssl/bs_cbs.c): what nested builders write, the getters take
 apart again, and unsigned integers survive the trip.
 */
module BuildAndParse {
  import opened Arithmetic
  import opened CbbBuilder
  import opened CbsReader
  import opened Der
  import opened Octets

  /** What a program writes with a builder: bytes, an ASN.1 element, or a block after a length of lenLen bytes. */
  datatype Node = Bytes(data: seq<Octet>) | Asn1(tag: Octet, kids: seq<Node>) | Block(lenLen: nat, kids: seq<Node>) {
    function Written(): seq<Octet> {
      match this
      case Bytes(data) => data
      case Asn1(tag, kids) => Element(tag, WrittenAll(kids))
      case Block(lenLen, kids) => Digits(|WrittenAll(kids)|, lenLen) + WrittenAll(kids)
    }

    /** The lengths can be expressed, and the calls exist. */
    ghost predicate Fits() {
      match this
      case Bytes(_) => true
      case Asn1(tag, kids) => ShortTag(tag) && |WrittenAll(kids)| < MAX_LENGTH && forall k :: k in kids ==> k.Fits()
      case Block(lenLen, kids) => |WrittenAll(kids)| < Pow(256, lenLen) && forall k :: k in kids ==> k.Fits()
    }

    /** There are calls for prefixes of 1 to 3 bytes. */
    ghost predicate Callable() {
      match this
      case Bytes(_) => true
      case Asn1(_, kids) => forall k :: k in kids ==> k.Callable()
      case Block(lenLen, kids) => 1 <= lenLen <= 3 && forall k :: k in kids ==> k.Callable()
    }
  }

  function WrittenAll(nodes: seq<Node>): seq<Octet> {
    if nodes == [] then [] else WrittenAll(nodes[..|nodes| - 1]) + nodes[|nodes| - 1].Written()
  }

  /** An element after its header, a block after its length, most significant byte first. */
  lemma WrittenIs(tag: Octet, kids: seq<Node>)
    ensures Asn1(tag, kids).Written() == Element(tag, WrittenAll(kids))
    ensures var w := WrittenAll(kids);
      && (|w| < 0x100 ==> Block(1, kids).Written() == [|w|] + w)
      && (|w| < 0x1_0000 ==> Block(2, kids).Written() == [|w| / 0x100, |w| % 0x100] + w)
      && (|w| < 0x100_0000 ==> Block(3, kids).Written() == [|w| / 0x1_0000, |w| / 0x100 % 0x100, |w| % 0x100] + w)
  {
    hide WrittenAll, Element;
    var n := |WrittenAll(kids)|;
    OneDigit(n);
    TwoDigits(n);
    ThreeDigits(n);
    hide Digits;
  }

  ghost predicate AllFit(nodes: seq<Node>) {
    forall n :: n in nodes ==> n.Fits()
  }

  ghost predicate AllCallable(nodes: seq<Node>) {
    forall n :: n in nodes ==> n.Callable()
  }

  /** Writing nodes with nested builders appends their encodings; it fails only if a length does not fit. */
  method BuildAll(cbb: Cbb, nodes: seq<Node>, ghost p: nat) returns (ok: bool)
    requires cbb.At(p) && |cbb.base.stack| == p + 1 && AllCallable(nodes)
    modifies cbb, cbb.base, cbb.base.buf
    ensures cbb.base == old(cbb.base) && (cbb.base.buf == old(cbb.base.buf) || fresh(cbb.base.buf))
    ensures ok ==> cbb.At(p) && cbb.base.stack == old(cbb.base.stack) && cbb.base.open == old(cbb.base.open)
    ensures ok ==> cbb.base.Contents() == old(cbb.base.Contents()) + WrittenAll(nodes)
    ensures ok ==> AllFit(nodes)
    ensures cbb.base.canResize && AllFit(nodes) ==> ok
    decreases nodes, 2
  {
    ghost var base, before := cbb.base, cbb.base.Contents();
    NothingBefore(nodes);
    hide Buffer.Valid, Nested, ClosedTo, HoldTo, Above, WrittenAll, AllFit, Node.Fits, Node.Written, Node.Callable;
    var i := 0;
    while i < |nodes|
      invariant 0 <= i <= |nodes| && cbb.base == base && (base.buf == old(base.buf) || fresh(base.buf))
      invariant cbb.At(p) && base.stack == old(base.stack) && base.open == old(base.open)
      invariant base.len <= base.buf.Length && base.Contents() == before + WrittenAll(nodes[..i])
      invariant AllFit(nodes[..i])
    {
      OneBefore(nodes, i, before);
      ok := Build(cbb, nodes[i], p);
      if !ok {
        return;
      }
      cbb.Within(p);
      i := i + 1;
    }
    assert nodes[..i] == nodes;
    ok := true;
  }

  lemma NothingBefore(nodes: seq<Node>)
    ensures WrittenAll(nodes[..0]) == [] && AllFit(nodes[..0])
  {}

  lemma OneBefore(nodes: seq<Node>, i: nat, before: seq<Octet>)
    requires i < |nodes|
    ensures before + WrittenAll(nodes[..i + 1]) == before + WrittenAll(nodes[..i]) + nodes[i].Written()
    ensures AllFit(nodes[..i + 1]) <==> AllFit(nodes[..i]) && nodes[i].Fits()
    ensures AllFit(nodes) ==> nodes[i].Fits()
  {
    hide Node.Fits, Node.Written;
    assert nodes[..i + 1][..i] == nodes[..i];
    assert nodes[..i + 1] == nodes[..i] + [nodes[i]] && nodes[i] in nodes;
  }

  /** One node. */
  method Build(cbb: Cbb, node: Node, ghost p: nat) returns (ok: bool)
    requires cbb.At(p) && |cbb.base.stack| == p + 1 && node.Callable()
    modifies cbb, cbb.base, cbb.base.buf
    ensures cbb.base == old(cbb.base) && (cbb.base.buf == old(cbb.base.buf) || fresh(cbb.base.buf))
    ensures ok ==> cbb.At(p) && cbb.base.stack == old(cbb.base.stack) && cbb.base.open == old(cbb.base.open)
    ensures ok ==> cbb.base.Contents() == old(cbb.base.Contents()) + node.Written()
    ensures ok ==> node.Fits()
    ensures cbb.base.canResize && node.Fits() ==> ok
    decreases node, 1
  {
    hide Nested, ClosedTo, HoldTo, Buffer.Chained, Closed, Pending.Prefix, Element;
    ghost var before, open := cbb.base.Contents(), cbb.base.open;
    Leaf(cbb, p);
    match node {
      case Bytes(data) =>
        ok := cbb.AddBytes(data, p);
      case Asn1(tag, kids) =>
        ok := BuildElement(cbb, node, p);
      case Block(lenLen, kids) =>
        ok := BuildBlock(cbb, node, p);
    }
  }

  method BuildElement(cbb: Cbb, node: Node, ghost p: nat) returns (ok: bool)
    requires cbb.At(p) && |cbb.base.stack| == p + 1 && node.Asn1? && node.Callable()
    modifies cbb, cbb.base, cbb.base.buf
    ensures cbb.base == old(cbb.base) && (cbb.base.buf == old(cbb.base.buf) || fresh(cbb.base.buf))
    ensures ok ==> cbb.At(p) && cbb.base.stack == old(cbb.base.stack) && cbb.base.open == old(cbb.base.open)
    ensures ok ==> cbb.base.Contents() == old(cbb.base.Contents()) + node.Written()
    ensures ok ==> node.Fits()
    ensures cbb.base.canResize && node.Fits() ==> ok
    decreases node, 0
  {
    hide Nested, ClosedTo, HoldTo, Buffer.Chained, Closed, Pending.Prefix, Element;
    ghost var before, open, written := cbb.base.Contents(), cbb.base.open, WrittenAll(node.kids);
    Leaf(cbb, p);
    var child := new Cbb();
    ok := cbb.AddAsn1(child, node.tag, p);
    if !ok {
      return;
    }
    ok := BuildAll(child, node.kids, p + 1);
    if !ok {
      return;
    }
    if |written| < MAX_LENGTH {
      ClosedElement(before, node.tag, written);
    }
    OneOpen(cbb.base.Contents(), open, Pending(|before| + 1, 1, true));
    ok := cbb.Flush(p);
  }

  method BuildBlock(cbb: Cbb, node: Node, ghost p: nat) returns (ok: bool)
    requires cbb.At(p) && |cbb.base.stack| == p + 1 && node.Block? && node.Callable()
    modifies cbb, cbb.base, cbb.base.buf
    ensures cbb.base == old(cbb.base) && (cbb.base.buf == old(cbb.base.buf) || fresh(cbb.base.buf))
    ensures ok ==> cbb.At(p) && cbb.base.stack == old(cbb.base.stack) && cbb.base.open == old(cbb.base.open)
    ensures ok ==> cbb.base.Contents() == old(cbb.base.Contents()) + node.Written()
    ensures ok ==> node.Fits()
    ensures cbb.base.canResize && node.Fits() ==> ok
    decreases node, 0
  {
    hide Nested, ClosedTo, HoldTo, Buffer.Chained, Closed, Pending.Prefix, Digits;
    ghost var before, open, written := cbb.base.Contents(), cbb.base.open, WrittenAll(node.kids);
    Leaf(cbb, p);
    var child := new Cbb();
    ok := cbb.AddLengthPrefixed(child, node.lenLen, p);
    if !ok {
      return;
    }
    ok := BuildAll(child, node.kids, p + 1);
    if !ok {
      return;
    }
    ClosedBlock(before, node.lenLen, written);
    OneOpen(cbb.base.Contents(), open, Pending(|before|, node.lenLen, false));
    ok := cbb.Flush(p);
  }

  lemma Leaf(cbb: Cbb, p: nat)
    requires cbb.At(p) && |cbb.base.stack| == p + 1
    ensures var b := cbb.base; ClosedTo(b.Contents(), b.open, p) == b.Contents() && HoldTo(b.Contents(), b.open, p)
    ensures cbb.base.open[..p] == cbb.base.open
  {
    CloseNone(cbb.base.Contents(), cbb.base.open, p);
  }

  /** One prefix to fill in. */
  lemma OneOpen(data: seq<Octet>, open: seq<Pending>, last: Pending)
    requires Nested(data, open + [last]) && last.Start() <= |data|
    ensures ClosedTo(data, open + [last], |open|) == Closed(data, last)
    ensures HoldTo(data, open + [last], |open|) <==> last.Holds(|data| - last.Start())
  {
    var all := open + [last];
    assert all[..|open|] == open;
    CloseOne(data, all, |open|);
    CloseNone(Closed(data, last), open, |open|);
  }

  /** What a reader knows beforehand: tags, sizes of length prefixes, and how many bytes to take. */
  datatype Shape = Take(n: nat) | Tagged(tag: Octet, kids: seq<Shape>) | Prefixed(lenLen: nat, kids: seq<Shape>)

  function ShapeOf(node: Node): Shape {
    match node
    case Bytes(data) => Take(|data|)
    case Asn1(tag, kids) => Tagged(tag, seq(|kids|, i requires 0 <= i < |kids| => ShapeOf(kids[i])))
    case Block(lenLen, kids) => Prefixed(lenLen, seq(|kids|, i requires 0 <= i < |kids| => ShapeOf(kids[i])))
  }

  function Shapes(nodes: seq<Node>): (r: seq<Shape>)
    ensures |r| == |nodes|
  {
    seq(|nodes|, i requires 0 <= i < |nodes| => ShapeOf(nodes[i]))
  }

  lemma WrittenSplits(nodes: seq<Node>, i: nat)
    requires i < |nodes|
    ensures WrittenAll(nodes[i..]) == nodes[i].Written() + WrittenAll(nodes[i + 1..])
  {
    WrittenConcat([nodes[i]], nodes[i + 1..]);
    assert [nodes[i]] + nodes[i + 1..] == nodes[i..];
    assert WrittenAll([nodes[i]]) == nodes[i].Written() by {
      assert [nodes[i]][..0] == [];
      assert WrittenAll([nodes[i]]) == WrittenAll([nodes[i]][..0]) + nodes[i].Written();
    }
  }

  lemma {:induction false} WrittenConcat(a: seq<Node>, b: seq<Node>)
    ensures WrittenAll(a + b) == WrittenAll(a) + WrittenAll(b)
    decreases |b|
  {
    hide Node.Written;
    if b == [] {
      assert a + b == a;
    } else {
      var n := |b| - 1;
      WrittenConcat(a, b[..n]);
      assert (a + b)[..|a| + n] == a + b[..n];
    }
  }

  /** The getters take the bytes of any nodes of these shapes apart into those nodes. */
  method ReadAll(cbs: Cbs, shapes: seq<Shape>, ghost nodes: seq<Node>, ghost rest: seq<Octet>)
      returns (ok: bool, got: seq<Node>)
    requires shapes == Shapes(nodes) && AllFit(nodes) && AllCallable(nodes) && cbs.data == WrittenAll(nodes) + rest
    modifies cbs
    ensures ok && got == nodes && cbs.data == rest
    decreases shapes
  {
    hide Node.Written, Node.Fits, Node.Callable;
    got := [];
    var i := 0;
    assert nodes[0..] == nodes;
    while i < |shapes|
      invariant 0 <= i <= |shapes| && got == nodes[..i] && cbs.data == WrittenAll(nodes[i..]) + rest
    {
      WrittenSplits(nodes, i);
      var node;
      assert nodes[i] in nodes;
      assert WrittenAll(nodes[i..]) + rest == nodes[i].Written() + (WrittenAll(nodes[i + 1..]) + rest);
      ok, node := Read(cbs, shapes[i], nodes[i], WrittenAll(nodes[i + 1..]) + rest);
      got := got + [node];
      i := i + 1;
    }
    assert nodes[i..] == [];
    ok := true;
  }

  method Read(cbs: Cbs, shape: Shape, ghost node: Node, ghost rest: seq<Octet>) returns (ok: bool, got: Node)
    requires shape == ShapeOf(node) && node.Fits() && node.Callable() && cbs.data == node.Written() + rest
    modifies cbs
    ensures ok && got == node && cbs.data == rest
    decreases shape
  {
    hide Element, Digits, WrittenAll, Pow;
    match shape {
      case Take(n) =>
        var data;
        ok, data := cbs.Get(n);
        got := Bytes(data);
      case Tagged(tag, kids) =>
        var contents, inner;
        SameElement(tag, WrittenAll(node.kids), rest);
        ok, contents := cbs.GetAsn1(tag);
        ElementIsPrefixFree(tag, WrittenAll(node.kids), rest, tag, contents, cbs.data);
        var child := new Cbs(contents);
        assert contents == WrittenAll(node.kids) + [];
        ok, inner := ReadAll(child, kids, node.kids, []);
        got := Asn1(tag, inner);
      case Prefixed(lenLen, kids) =>
        var contents, inner;
        ghost var w := WrittenAll(node.kids);
        NumOfDigits(|w|, lenLen);
        assert cbs.data[..lenLen] == Digits(|w|, lenLen);
        assert cbs.data[lenLen..] == w + rest;
        ok, contents := cbs.GetLengthPrefixed(lenLen);
        SameSplit(Digits(|w|, lenLen), contents, cbs.data, w, rest);
        var child := new Cbs(contents);
        assert contents == w + [];
        ok, inner := ReadAll(child, kids, node.kids, []);
        got := Block(lenLen, inner);
    }
  }

  lemma SameSplit(p: seq<Octet>, a: seq<Octet>, b: seq<Octet>, c: seq<Octet>, d: seq<Octet>)
    requires p + a + b == p + c + d && |a| == |c|
    ensures a == c && b == d
  {
    var s := p + a + b;
    assert a == s[|p|..|p| + |a|] && c == s[|p|..|p| + |a|];
    assert b == s[|p| + |a|..] && d == s[|p| + |a|..];
  }

  /** Whatever a program writes with nested builders, if it can be written, reads back as it was. */
  method BuildAndRead(capacity: nat, nodes: seq<Node>) returns (built: bool, out: seq<Octet>, got: seq<Node>)
    requires AllCallable(nodes)
    ensures built <==> AllFit(nodes)
    ensures built ==> out == WrittenAll(nodes) && got == nodes
  {
    hide Node.Written, Node.Fits, Node.Callable, Nested, ClosedTo, HoldTo, Buffer.Chained;
    var cbb := new Cbb.Init(capacity, true);
    out, got := [], [];
    built := BuildAll(cbb, nodes, 0);
    if built {
      Leaf(cbb, 0);
      built, out := cbb.Finish();
      assert out == WrittenAll(nodes) + [];
      var cbs := new Cbs(out);
      var ok;
      ok, got := ReadAll(cbs, Shapes(nodes), nodes, []);
    }
  }
}
