/**
 From indefinite to definite lengths (libressl ssl/bs_ber.c; X.690 sections 8.1.3 and 10.1): what the conversion writes
 for each element, and when that is what the element denotes.
 */
module Ber {
  import opened BuildAndParse
  import opened CbbBuilder
  import opened CbsReader
  import opened Der
  import opened Octets

  const MAX_DEPTH: nat := 2048

  /** What an element of indefinite length may stand for: a structure, or a string in segments. */
  datatype Kind = Structure | BitSegments | OctetSegments

  /** What the elements with other than universal tags stand for, each given by its place: their tags do not say. */
  type Schema = seq<nat> -> Kind

  /** An element as it may come in: primitive, constructed of definite or of indefinite length. */
  datatype Element = Prim(tag: Octet, content: seq<Octet>) | Def(tag: Octet, kids: seq<Element>)
                   | Indef(tag: Octet, kids: seq<Element>)
  {
    function Bytes(): seq<Octet> {
      match this
      case Prim(tag, content) => Der.Element(tag, content)
      case Def(tag, kids) => Der.Element(tag, BytesAll(kids))
      case Indef(tag, kids) => [tag, 0x80] + BytesAll(kids) + [0, 0]
    }

    /** The octets of definite length after the header. */
    function Content(): seq<Octet> {
      match this
      case Prim(tag, content) => content
      case Def(tag, kids) => BytesAll(kids)
      case Indef(_, _) => []
    }

    /** Two zero octets are not an element: they end contents of indefinite length. */
    ghost predicate Valid() {
      match this
      case Prim(tag, content) =>
        ShortTag(tag) && !Constructed(tag) && |content| <= MAX_LENGTH && !(tag == 0 && content == [])
      case Def(tag, kids) =>
        ShortTag(tag) && Constructed(tag) && |BytesAll(kids)| <= MAX_LENGTH && (forall k :: k in kids ==> k.Valid())
      case Indef(tag, kids) =>
        ShortTag(tag) && Constructed(tag) && (forall k :: k in kids ==> k.Valid())
    }

    /**
     Whether contents of indefinite length are fragments of one primitive value: by the tag, or for a
     context-specific tag by the first of them.
     */
    predicate Fragmented() {
      && Indef?
      && (IsPrimitiveType(tag)
          || (tag / 64 == 2 && kids != [] && !kids[0].Indef? && kids[0].Content() != []
              && IsPrimitiveType(kids[0].tag)))
    }

    /** The contents of the primitive elements inside, in their order. */
    function Leaves(): seq<seq<Octet>> {
      match this
      case Prim(tag, content) => [content]
      case Def(tag, kids) => LeavesAll(kids)
      case Indef(tag, kids) => LeavesAll(kids)
    }

    /**
     A segment of a bit string (type 3) or of an octet string (type 4): the tags of segments are these, at every depth
     (X.690 sections 8.6.4 and 8.7.3).
     */
    predicate IsSegment(n: nat) {
      match this
      case Prim(tag, _) => tag == n
      case Def(tag, kids) => tag == n + 32 && forall k :: k in kids ==> k.IsSegment(n)
      case Indef(tag, kids) => tag == n + 32 && forall k :: k in kids ==> k.IsSegment(n)
    }

    /** Whether the element, if it is of this kind, is a string in segments. */
    predicate IsString(kind: Kind) {
      && Indef? && Constructed(tag)
      && match kind
         case Structure => false
         case BitSegments => (forall k :: k in kids ==> k.IsSegment(3)) && Aligned(LeavesAll(kids))
         case OctetSegments => forall k :: k in kids ==> k.IsSegment(4)
    }

    /** The contents octets of that string in primitive form. */
    function StringValue(kind: Kind): seq<Octet>
      requires IsString(kind)
    {
      if kind.BitSegments? then BitString(LeavesAll(kids)) else Flat(LeavesAll(kids))
    }

    /**
     The tree that the element denotes: segments make one string, however deep they are, and anything else is the
     tree of its elements. An element of definite length keeps its form, since only indefinite lengths are to be
     converted (bytestring.h, line 501).
     */
    function Denoted(schema: Schema, path: seq<nat>): Tree
      decreases this
    {
      match this
      case Prim(tag, content) => Primitive(tag, content)
      case Def(tag, kids) => Compound(tag, DenotedAll(kids, schema, path, 0))
      case Indef(tag, kids) =>
        var kind := KindOf(tag, schema, path);
        if IsString(kind) then Primitive(tag - 32, StringValue(kind))
        else Compound(tag, DenotedAll(kids, schema, path, 0))
    }

    /** As a fragment, it is primitive, empty, or again in fragments of indefinite length. */
    predicate Plain() {
      match this
      case Prim(_, _) => true
      case Def(_, kids) => kids == []
      case Indef(_, kids) => kids == [] || (Fragmented() && forall k :: k in kids ==> k.Plain())
    }

    /** Exactly strings are joined, their segments are plain, and of a bit string there is one with contents. */
    predicate Clean(schema: Schema, path: seq<nat>)
      decreases this
    {
      match this
      case Prim(_, _) => true
      case Def(_, kids) => forall i :: 0 <= i < |kids| ==> kids[i].Clean(schema, path + [i])
      case Indef(tag, kids) =>
        var kind := KindOf(tag, schema, path);
        if IsString(kind) then
          && Fragmented() && (forall k :: k in kids ==> k.Plain())
          && (kind.BitSegments? ==> |LeavesAll(kids)| == 1)
        else
          !Fragmented() && forall i :: 0 <= i < |kids| ==> kids[i].Clean(schema, path + [i])
    }

    /** The tree that the conversion makes of the element. */
    function Rewritten(): Tree {
      match this
      case Prim(tag, content) => Primitive(tag, content)
      case Def(tag, kids) => Compound(tag, RewrittenAll(kids))
      case Indef(tag, kids) =>
        if Fragmented() && Constructed(tag) then Primitive(tag - 32, JoinedAll(kids))
        else Compound(tag, RewrittenAll(kids))
    }

    /** The tree of the same elements, each of definite length, with strings in one piece. */
    function Plainly(): Tree {
      match this
      case Prim(tag, content) => Primitive(tag, content)
      case Def(tag, kids) => Compound(tag, PlainlyAll(kids))
      case Indef(tag, kids) =>
        if tag < 0x20 || tag == 0x30 || tag == 0x31 then Compound(tag, PlainlyAll(kids))
        else Primitive(tag - 0x20, Flat(LeavesAll(kids)))
    }

    /**
     Of indefinite length are only sequences and sets (0x30 and 0x31), bit strings (0x23) in one primitive segment, and
     strings in primitive segments that are octet strings (0x20 more than the types 4, 7, 12, 18 to 28 and 30).
     */
    predicate Ordinary() {
      match this
      case Prim(_, _) => true
      case Def(_, kids) => forall k :: k in kids ==> k.Ordinary()
      case Indef(tag, kids) =>
        if tag == 0x30 || tag == 0x31 then forall k :: k in kids ==> k.Ordinary()
        else if tag == 0x23 then |kids| == 1 && kids[0].Prim? && kids[0].tag == 3 && kids[0].content != []
        else
          && (tag == 0x24 || tag == 0x27 || tag == 0x2c || 0x32 <= tag <= 0x3c || tag == 0x3e)
          && forall i :: 0 <= i < |kids| ==> kids[i].Prim? && kids[i].tag == 4
    }

    /**
     Whether the nesting is within the limit and all lengths that are written can be: without a header there is none.
     */
    ghost predicate Fits(squash: bool, depth: nat) {
      && (squash || |Joined()| < MAX_LENGTH)
      && (Prim? || (depth < MAX_DEPTH && forall k :: k in kids ==> k.Fits(Fragmented(), depth + 1)))
    }

    /** What the element contributes as a fragment. */
    function Joined(): seq<Octet> {
      match this
      case Prim(tag, content) => content
      case Def(tag, kids) => EncodeAll(RewrittenAll(kids))
      case Indef(tag, kids) => if Fragmented() then JoinedAll(kids) else EncodeAll(RewrittenAll(kids))
    }
  }

  function BytesAll(es: seq<Element>): seq<Octet> {
    if es == [] then [] else es[0].Bytes() + BytesAll(es[1..])
  }

  /** Elements at the places of this path that begin with the given one. */
  predicate AllClean(es: seq<Element>, schema: Schema, path: seq<nat>, first: nat) {
    forall i :: 0 <= i < |es| ==> es[i].Clean(schema, path + [first + i])
  }

  function LeavesAll(es: seq<Element>): seq<seq<Octet>> {
    if es == [] then [] else es[0].Leaves() + LeavesAll(es[1..])
  }

  function Flat(leaves: seq<seq<Octet>>): seq<Octet> {
    if leaves == [] then [] else leaves[0] + Flat(leaves[1..])
  }

  /** Each segment begins with its number of unused bits, and only the last one has any (X.690 section 8.6.4.2). */
  predicate Aligned(leaves: seq<seq<Octet>>) {
    forall i :: 0 <= i < |leaves| ==> leaves[i] != [] && (i < |leaves| - 1 ==> leaves[i][0] == 0)
  }

  /** The octets of segments of a bit string after their first ones. */
  function Bits(leaves: seq<seq<Octet>>): seq<Octet>
    requires forall i :: 0 <= i < |leaves| ==> leaves[i] != []
  {
    if leaves == [] then [] else leaves[0][1..] + Bits(leaves[1..])
  }

  /** The contents of the bit string in primitive form (X.690 sections 8.6.2 and 8.6.4). */
  function BitString(leaves: seq<seq<Octet>>): seq<Octet>
    requires Aligned(leaves)
  {
    if leaves == [] then [0] else [leaves[|leaves| - 1][0]] + Bits(leaves)
  }

  function DenotedAll(es: seq<Element>, schema: Schema, path: seq<nat>, first: nat): seq<Tree>
    decreases es
  {
    if es == [] then []
    else [es[0].Denoted(schema, path + [first])] + DenotedAll(es[1..], schema, path, first + 1)
  }

  function PlainlyAll(es: seq<Element>): seq<Tree> {
    if es == [] then [] else [es[0].Plainly()] + PlainlyAll(es[1..])
  }

  function RewrittenAll(es: seq<Element>): seq<Tree> {
    if es == [] then [] else [es[0].Rewritten()] + RewrittenAll(es[1..])
  }

  function JoinedAll(es: seq<Element>): seq<Octet> {
    if es == [] then [] else es[0].Joined() + JoinedAll(es[1..])
  }

  ghost predicate ValidAll(es: seq<Element>) {
    forall e :: e in es ==> e.Valid()
  }

  /** is_primitive_type: of the universal class, and neither a sequence nor a set. */
  predicate IsPrimitiveType(tag: Octet) {
    tag / 64 == 0 && tag % 32 != 16 && tag % 32 != 17
  }

  /**
   The types that are encoded like an octet string: that one, the strings of characters, the times that are such
   strings, and object descriptors (X.690 sections 8.7, 8.23 and 8.25).
   */
  predicate LikeOctets(n: nat) {
    n == 4 || n == 7 || n == 12 || 18 <= n <= 28 || n == 30
  }

  /** A universal tag says what it is. */
  function KindOf(tag: Octet, schema: Schema, path: seq<nat>): Kind {
    if tag / 64 != 0 then schema(path)
    else if tag % 32 == 3 then BitSegments
    else if LikeOctets(tag % 32) then OctetSegments
    else Structure
  }

  lemma OneMore(es: seq<Element>, e: Element)
    ensures BytesAll(es + [e]) == BytesAll(es) + e.Bytes()
    ensures RewrittenAll(es + [e]) == RewrittenAll(es) + [e.Rewritten()]
    ensures JoinedAll(es + [e]) == JoinedAll(es) + e.Joined()
  {
    BytesMore(es, e);
    RewrittenMore(es, e);
    JoinedMore(es, e);
  }

  lemma {:induction false} BytesMore(es: seq<Element>, e: Element)
    ensures BytesAll(es + [e]) == BytesAll(es) + e.Bytes()
  {
    hide Element.Bytes;
    if es == [] {
      assert es + [e] == [e] && [e][1..] == [];
    } else {
      BytesMore(es[1..], e);
      assert (es + [e])[1..] == es[1..] + [e];
    }
  }

  lemma {:induction false} RewrittenMore(es: seq<Element>, e: Element)
    ensures RewrittenAll(es + [e]) == RewrittenAll(es) + [e.Rewritten()]
  {
    hide Element.Rewritten;
    if es == [] {
      assert es + [e] == [e] && [e][1..] == [];
    } else {
      RewrittenMore(es[1..], e);
      assert (es + [e])[1..] == es[1..] + [e];
    }
  }

  lemma {:induction false} JoinedMore(es: seq<Element>, e: Element)
    ensures JoinedAll(es + [e]) == JoinedAll(es) + e.Joined()
  {
    hide Element.Joined;
    if es == [] {
      assert es + [e] == [e] && [e][1..] == [];
    } else {
      JoinedMore(es[1..], e);
      assert (es + [e])[1..] == es[1..] + [e];
    }
  }

  /** Input of definite lengths in the fewest octets stays as it is. */
  lemma {:induction false} DefiniteInput(es: seq<Element>, trees: seq<Tree>)
    requires ValidAll(es) && AllValid(trees) && BytesAll(es) == EncodeAll(trees)
    ensures RewrittenAll(es) == trees
    decreases es
  {
    if es == [] || trees == [] {
      if es != [] { NotEmpty(es[0]); }
      if trees != [] { ValidIsElement(trees[0]); }
    } else {
      var e, t := es[0], trees[0];
      var more, rest := BytesAll(es[1..]), EncodeAll(trees[1..]);
      ValidIsElement(t);
      assert e in es && e.Valid();
      if e.Indef? {
        IndefiniteIsNot(e, more, t, rest);
      } else {
        DefiniteShape(e);
        ElementIsPrefixFree(e.tag, e.Content(), more, t.tag, Der.Content(t), rest);
        if e.Def? {
          DefiniteInput(e.kids, t.kids);
        }
        DefiniteInput(es[1..], trees[1..]);
        assert trees == [t] + trees[1..];
      }
    }
  }

  lemma DefiniteShape(e: Element)
    requires e.Valid() && !e.Indef?
    ensures e.Bytes() == Der.Element(e.tag, e.Content()) && |e.Content()| <= MAX_LENGTH
    ensures e.Def? <==> Constructed(e.tag)
    ensures e.Def? ==> ValidAll(e.kids)
  {}

  lemma NotEmpty(e: Element)
    requires e.Valid()
    ensures e.Bytes() != []
  {}

  lemma IndefiniteIsNot(e: Element, more: seq<Octet>, t: Tree, rest: seq<Octet>)
    requires e.Indef? && t.Valid()
    ensures e.Bytes() + more != t.Encode() + rest
  {
    ValidIsElement(t);
    AfterTag(t.tag, Der.Content(t), rest);
    assert (e.Bytes() + more)[1] == 0x80;
    assert Length(|Der.Content(t)|)[0] != 0x80;
    assert (t.Encode() + rest)[1] == (t.Encode() + rest)[1..][0];
  }

  /** What an element adds to the output: as a fragment its octets, otherwise its encoding. */
  function Piece(e: Element, squash: bool): seq<Octet> {
    if squash then e.Joined() else e.Rewritten().Encode()
  }

  function Pieces(es: seq<Element>, squash: bool): seq<Octet> {
    if squash then JoinedAll(es) else EncodeAll(RewrittenAll(es))
  }

  ghost predicate Fine(e: Element, squash: bool, depth: nat) {
    e.Valid() && e.Fits(squash, depth)
  }

  /** Elements at this depth that can be converted. */
  ghost predicate AllFine(es: seq<Element>, squash: bool, depth: nat) {
    depth <= MAX_DEPTH && forall e :: e in es ==> Fine(e, squash, depth)
  }

  lemma FineMore(es: seq<Element>, e: Element, squash: bool, depth: nat)
    requires AllFine(es, squash, depth) && Fine(e, squash, depth)
    ensures AllFine(es + [e], squash, depth) && Pieces(es + [e], squash) == Pieces(es, squash) + Piece(e, squash)
    ensures BytesAll(es + [e]) == BytesAll(es) + e.Bytes()
  {
    hide Fine;
    OneMore(es, e);
    EncodeConcat(RewrittenAll(es), [e.Rewritten()]);
    EncodeOne(e.Rewritten());
  }

  lemma FineIsValid(es: seq<Element>, squash: bool, depth: nat)
    requires AllFine(es, squash, depth)
    ensures ValidAll(es)
  {}

  /** Converted elements have definite lengths in the fewest octets at every depth (X.690 section 10.1). */
  lemma {:induction false} FineIsDefinite(es: seq<Element>, depth: nat)
    requires AllFine(es, false, depth)
    ensures AllValid(RewrittenAll(es))
    decreases es
  {
    if es != [] {
      var e := es[0];
      assert e in es && Fine(e, false, depth);
      if !e.Prim? && !e.Fragmented() {
        KidsFine(e, false, depth);
        FineIsDefinite(e.kids, depth + 1);
      }
      FineIsDefinite(es[1..], depth);
    }
  }

  /** An element in definite form is as long as its joined octets and a header. */
  lemma EncodedLength(e: Element, depth: nat)
    requires Fine(e, false, depth)
    ensures |e.Rewritten().Encode()| >= |e.Joined()| + 2
  {}

  /** As a fragment an element gives its leaves exactly if it is plain; otherwise at least one inner header as well. */
  lemma {:induction false} LeavesIffPlain(e: Element, squash: bool, depth: nat)
    requires Fine(e, squash, depth)
    ensures if e.Plain() then e.Joined() == Flat(e.Leaves()) else |e.Joined()| >= |Flat(e.Leaves())| + 2
    decreases e, 1
  {
    if e.Prim? {
      assert [e.content][1..] == [];
    } else {
      KidsFine(e, squash, depth);
      if e.Fragmented() {
        AllLeavesIffPlain(e.kids, depth + 1);
      } else {
        EncodingIsLonger(e.kids, depth + 1);
      }
    }
  }

  lemma {:induction false} AllLeavesIffPlain(es: seq<Element>, depth: nat)
    requires AllFine(es, true, depth)
    ensures if forall e :: e in es ==> e.Plain() then JoinedAll(es) == Flat(LeavesAll(es))
            else |JoinedAll(es)| >= |Flat(LeavesAll(es))| + 2
    decreases es, 0
  {
    if es != [] {
      assert es[0] in es && Fine(es[0], true, depth);
      LeavesIffPlain(es[0], true, depth);
      AllLeavesIffPlain(es[1..], depth);
      FlatConcat(es[0].Leaves(), LeavesAll(es[1..]));
    }
  }

  lemma {:induction false} EncodingIsLonger(es: seq<Element>, depth: nat)
    requires AllFine(es, false, depth)
    ensures |EncodeAll(RewrittenAll(es))| >= |Flat(LeavesAll(es))| + 2 * |es|
    decreases es, 0
  {
    if es != [] {
      assert es[0] in es && Fine(es[0], false, depth);
      LeavesIffPlain(es[0], false, depth);
      EncodedLength(es[0], depth);
      EncodingIsLonger(es[1..], depth);
      FlatConcat(es[0].Leaves(), LeavesAll(es[1..]));
    }
  }

  lemma {:induction false} FlatConcat(a: seq<seq<Octet>>, b: seq<seq<Octet>>)
    ensures Flat(a + b) == Flat(a) + Flat(b)
  {
    if a == [] {
      assert a + b == b;
    } else {
      FlatConcat(a[1..], b);
      assert (a + b)[1..] == a[1..] + b && (a + b)[0] == a[0];
      assert Flat(a + b) == a[0] + (Flat(a[1..]) + Flat(b));
    }
  }

  lemma {:induction false} BitsLength(leaves: seq<seq<Octet>>)
    requires forall i :: 0 <= i < |leaves| ==> leaves[i] != []
    ensures |Bits(leaves)| + |leaves| == |Flat(leaves)|
  {
    if leaves != [] {
      BitsLength(leaves[1..]);
    }
  }

  /** Joined as they are, the segments of a bit string are its value exactly if there is one. */
  lemma OneSegment(leaves: seq<seq<Octet>>)
    requires Aligned(leaves)
    ensures Flat(leaves) == BitString(leaves) <==> |leaves| == 1
    ensures |BitString(leaves)| <= |Flat(leaves)| + 1
  {
    BitsLength(leaves);
    if |leaves| == 1 {
      OneLeaf(leaves[0]);
      assert leaves == [leaves[0]];
    }
    hide Flat, Bits;
  }

  lemma OneLeaf(x: seq<Octet>)
    requires x != []
    ensures Flat([x]) == x && [x[0]] + Bits([x]) == x
  {
    var none := [x][1..];
    assert none == [] && Flat(none) == [] && Bits(none) == [];
    assert Flat([x]) == x + Flat(none) && Bits([x]) == x[1..] + Bits(none);
  }

  /** The conversion makes of an element what it denotes exactly if it is clean. */
  lemma {:induction false} RewrittenIffClean(e: Element, depth: nat, schema: Schema, path: seq<nat>)
    requires Fine(e, false, depth)
    ensures e.Rewritten() == e.Denoted(schema, path) <==> e.Clean(schema, path)
    decreases e, 1
  {
    if !e.Prim? {
      KidsFine(e, false, depth);
      if !e.Fragmented() {
        AllRewrittenIffClean(e.kids, depth + 1, schema, path, 0);
      } else {
        AllLeavesIffPlain(e.kids, depth + 1);
        if e.IsString(BitSegments) {
          OneSegment(LeavesAll(e.kids));
        }
      }
    }
  }

  lemma {:induction false} AllRewrittenIffClean(es: seq<Element>, depth: nat, schema: Schema, path: seq<nat>,
                                                first: nat)
    requires AllFine(es, false, depth)
    ensures RewrittenAll(es) == DenotedAll(es, schema, path, first) <==> AllClean(es, schema, path, first)
    decreases es, 0
  {
    if es != [] {
      assert es[0] in es && Fine(es[0], false, depth);
      RewrittenIffClean(es[0], depth, schema, path + [first]);
      AllRewrittenIffClean(es[1..], depth, schema, path, first + 1);
      AllCleanFirst(es, schema, path, first);
      var denoted := DenotedAll(es, schema, path, first);
      assert RewrittenAll(es)[0] == es[0].Rewritten() && RewrittenAll(es)[1..] == RewrittenAll(es[1..]);
      assert denoted[0] == es[0].Denoted(schema, path + [first]);
      assert denoted[1..] == DenotedAll(es[1..], schema, path, first + 1);
    }
  }

  lemma AllCleanFirst(es: seq<Element>, schema: Schema, path: seq<nat>, first: nat)
    requires es != []
    ensures AllClean(es, schema, path, first) <==>
            es[0].Clean(schema, path + [first]) && AllClean(es[1..], schema, path, first + 1)
  {
    hide Element.Clean;
    if AllClean(es, schema, path, first) {
      assert es[0].Clean(schema, path + [first + 0]);
      forall i | 0 <= i < |es[1..]| ensures es[1..][i].Clean(schema, path + [first + 1 + i]) {
        assert es[i + 1].Clean(schema, path + [first + (i + 1)]);
      }
    }
    if es[0].Clean(schema, path + [first]) && AllClean(es[1..], schema, path, first + 1) {
      forall i | 0 <= i < |es| ensures es[i].Clean(schema, path + [first + i]) {
        if i > 0 {
          assert es[1..][i - 1].Clean(schema, path + [first + 1 + (i - 1)]);
        }
      }
    }
  }

  lemma {:induction false} AllPrimitive(kids: seq<Element>)
    requires forall i :: 0 <= i < |kids| ==> kids[i].Prim?
    ensures |LeavesAll(kids)| == |kids| && forall i :: 0 <= i < |kids| ==> LeavesAll(kids)[i] == kids[i].content
    ensures JoinedAll(kids) == Flat(LeavesAll(kids))
  {
    if kids != [] {
      AllPrimitive(kids[1..]);
      assert LeavesAll(kids) == [kids[0].content] + LeavesAll(kids[1..]);
    }
  }

  /** Primitive elements under any other universal tag are joined. */
  lemma OthersAreJoined(tag: Octet, kids: seq<Element>)
    requires 0x20 <= tag < 0x3f && tag != 0x30 && tag != 0x31 && forall i :: 0 <= i < |kids| ==> kids[i].Prim?
    ensures Indef(tag, kids).Rewritten() == Primitive(tag - 0x20, Flat(LeavesAll(kids)))
  {
    OtherTags(tag);
    hide IsPrimitiveType, Constructed, LeavesAll, Flat, JoinedAll;
    AllPrimitive(kids);
  }

  lemma OtherTags(tag: Octet)
    requires 0x20 <= tag < 0x3f && tag != 0x30 && tag != 0x31
    ensures IsPrimitiveType(tag) && Constructed(tag)
  {}

  /**
   Primitive octet strings under the tag of a type that is encoded like one (the tags are 0x20 more than the types 4, 7,
   12, 18 to 28 and 30) make one string, and that is what they denote under any schema.
   */
  lemma StringsAreJoined(tag: Octet, kids: seq<Element>, schema: Schema, path: seq<nat>)
    requires tag == 0x24 || tag == 0x27 || tag == 0x2c || 0x32 <= tag <= 0x3c || tag == 0x3e
    requires forall i :: 0 <= i < |kids| ==> kids[i].Prim? && kids[i].tag == 4
    ensures Indef(tag, kids).Rewritten() == Indef(tag, kids).Denoted(schema, path)
    ensures Indef(tag, kids).Denoted(schema, path) == Primitive(tag - 0x20, Flat(LeavesAll(kids)))
  {
    OthersAreJoined(tag, kids);
    assert Indef(tag, kids).IsString(OctetSegments);
  }

  /** A bit string in one primitive segment is that segment. */
  lemma OneSegmentStays(content: seq<Octet>, schema: Schema, path: seq<nat>)
    requires content != []
    ensures var e := Indef(0x23, [Prim(3, content)]);
      e.Rewritten() == e.Denoted(schema, path) == Primitive(3, content)
  {
    var e := Indef(0x23, [Prim(3, content)]);
    AllPrimitive(e.kids);
    assert LeavesAll(e.kids) == [content];
    OneSegment([content]);
    OthersAreJoined(0x23, e.kids);
    assert Flat([content]) == content by { assert [content][1..] == []; }
    assert e.IsString(BitSegments);
  }

  /**
   Sequences and sets stay what they are and strings become one piece: that is what such elements denote under any
   schema, and what the conversion makes of them.
   */
  lemma {:induction false} OrdinaryIsRight(es: seq<Element>, schema: Schema, path: seq<nat>, first: nat)
    requires forall e :: e in es ==> e.Ordinary()
    ensures RewrittenAll(es) == PlainlyAll(es) == DenotedAll(es, schema, path, first)
    decreases es, 1
  {
    hide Element.Rewritten, Element.Denoted, Element.Ordinary, Element.Plainly;
    if es != [] {
      assert es[0] in es;
      OneOrdinary(es[0], schema, path + [first]);
      OrdinaryIsRight(es[1..], schema, path, first + 1);
    }
  }

  lemma {:induction false} OneOrdinary(e: Element, schema: Schema, path: seq<nat>)
    requires e.Ordinary()
    ensures e.Rewritten() == e.Plainly() == e.Denoted(schema, path)
    decreases e, 0
  {
    if e.Def? || (e.Indef? && (e.tag == 0x30 || e.tag == 0x31)) {
      OrdinaryIsRight(e.kids, schema, path, 0);
    } else if e.Indef? && e.tag == 0x23 {
      OneSegmentStays(e.kids[0].content, schema, path);
      assert e.kids == [Prim(3, e.kids[0].content)];
      OneLeaf(e.kids[0].content);
      AllPrimitive(e.kids);
      assert LeavesAll(e.kids) == [e.kids[0].content];
    } else if e.Indef? {
      StringsAreJoined(e.tag, e.kids, schema, path);
    }
  }

  /** Under a context-specific tag the first element decides: it joins if universal, no structure, and not empty. */
  lemma ContextDecides(tag: Octet, kids: seq<Element>)
    requires 0xa0 <= tag < 0xbf && kids != [] && !Constructed(kids[0].tag)
    requires forall i :: 0 <= i < |kids| ==> kids[i].Prim?
    ensures Indef(tag, kids).Rewritten() ==
            if kids[0].content != [] && kids[0].tag < 0x20 && kids[0].tag != 0x10 && kids[0].tag != 0x11
            then Primitive(tag - 0x20, Flat(LeavesAll(kids)))
            else Compound(tag, RewrittenAll(kids))
  {
    ContextTag(tag, kids[0].tag);
    hide IsPrimitiveType, Constructed, LeavesAll, Flat, JoinedAll, RewrittenAll;
    AllPrimitive(kids);
  }

  lemma ContextTag(tag: Octet, first: Octet)
    requires 0xa0 <= tag < 0xbf && !Constructed(first)
    ensures !IsPrimitiveType(tag) && tag / 64 == 2 && Constructed(tag)
    ensures IsPrimitiveType(first) <==> first < 0x20 && first != 0x10 && first != 0x11
  {}

  lemma KidsFine(e: Element, squash: bool, depth: nat)
    requires Fine(e, squash, depth) && !e.Prim?
    ensures AllFine(e.kids, e.Fragmented(), depth + 1)
  {}

  /** What follows the elements: an end of contents, if one is looked for. */
  function End(looking: bool): seq<Octet> {
    if looking then [0, 0] else []
  }

  /** The elements are at the front; all else is left, and nothing unless an end is looked for. */
  ghost predicate Reads(data: seq<Octet>, es: seq<Element>, rest: seq<Octet>, looking: bool) {
    data == BytesAll(es) + End(looking) + rest && (looking || rest == [])
  }

  /** No elements that can be converted are at the front. */
  ghost predicate Refused(data: seq<Octet>, squash: bool, looking: bool, depth: nat) {
    forall es, rest :: AllFine(es, squash, depth) ==> !Reads(data, es, rest, looking)
  }

  ghost predicate Head(data: seq<Octet>, e: Element, more: seq<Octet>) {
    data == e.Bytes() + more
  }

  /** No single one is. */
  ghost predicate NoHead(data: seq<Octet>, squash: bool, depth: nat) {
    forall e, more :: Fine(e, squash, depth) ==> !Head(data, e, more)
  }

  /** An element is not an end of contents. */
  lemma NotEnd(e: Element, more: seq<Octet>)
    requires e.Valid()
    ensures var data := e.Bytes() + more; |data| >= 2 && !(data[0] == 0 && data[1] == 0)
  {
    if !e.Indef? {
      DefiniteShape(e);
      AfterTag(e.tag, e.Content(), more);
      var data := e.Bytes() + more;
      assert data[1] == data[1..][0] == Length(|e.Content()|)[0];
    }
  }

  /** Input has one reading: the same element is at the front, with the same octets after it. */
  lemma {:induction false} OneReading(e: Element, x: seq<Octet>, f: Element, y: seq<Octet>)
    requires e.Valid() && f.Valid() && e.Bytes() + x == f.Bytes() + y
    ensures e == f && x == y
    decreases e, 1
  {
    hide Der.Element, ValidAll;
    if e.Indef? && f.Indef? {
      var data := e.Bytes() + x;
      assert data == [e.tag, 0x80] + (BytesAll(e.kids) + End(true) + x);
      assert data == [f.tag, 0x80] + (BytesAll(f.kids) + End(true) + y);
      assert data[2..] == BytesAll(e.kids) + End(true) + x == BytesAll(f.kids) + End(true) + y;
      IndefiniteShape(e);
      IndefiniteShape(f);
      SameReading(e.kids, x, f.kids, y, true);
    } else if e.Indef? {
      DefiniteShape(f);
      DefiniteByte(f.tag, f.Content(), y);
    } else if f.Indef? {
      DefiniteShape(e);
      DefiniteByte(e.tag, e.Content(), x);
    } else {
      DefiniteShape(e);
      DefiniteShape(f);
      ElementIsPrefixFree(e.tag, e.Content(), x, f.tag, f.Content(), y);
      if e.Def? {
        assert Reads(BytesAll(e.kids), f.kids, [], false);
        SameReading(e.kids, [], f.kids, [], false);
      }
    }
  }

  lemma IndefiniteShape(e: Element)
    requires e.Valid() && e.Indef?
    ensures ValidAll(e.kids) && e.Bytes() == [e.tag, 0x80] + BytesAll(e.kids) + [0, 0]
  {}

  lemma SameReading(es: seq<Element>, x: seq<Octet>, fs: seq<Element>, y: seq<Octet>, looking: bool)
    requires ValidAll(es) && ValidAll(fs) && (looking || x == y == [])
    requires BytesAll(es) + End(looking) + x == BytesAll(fs) + End(looking) + y
    ensures es == fs && x == y
    decreases es, 1
  {
    hide Element.Bytes, Element.Valid;
    assert BytesAll(es) + (End(looking) + x) == BytesAll(fs) + End(looking) + y;
    RestOfReading(es, End(looking) + x, fs, y, looking);
    AtEnd(x, fs[|es|..], y, looking);
  }

  /** Where the input ends, or an end of contents is, there are no more elements. */
  lemma AtEnd(x: seq<Octet>, es: seq<Element>, y: seq<Octet>, looking: bool)
    requires ValidAll(es) && Reads(End(looking) + x, es, y, looking) && (looking || x == [])
    ensures es == [] && x == y
  {
    hide Element.Bytes, Element.Valid;
    if es != [] {
      var more := BytesAll(es[1..]);
      assert es[0] in es && BytesAll(es) == es[0].Bytes() + more;
      assert es[0].Bytes() + more + End(looking) + y == es[0].Bytes() + (more + End(looking) + y);
      NotEnd(es[0], more + End(looking) + y);
    } else {
      assert x == (End(looking) + x)[|End(looking)|..] && y == (End(looking) + y)[|End(looking)|..];
    }
  }

  /** What is left after the first elements is the rest of any reading. */
  lemma {:induction false} RestOfReading(es: seq<Element>, was: seq<Octet>, fs: seq<Element>, rest: seq<Octet>,
                                         looking: bool)
    requires ValidAll(es) && ValidAll(fs) && (looking || rest == [])
    requires BytesAll(es) + was == BytesAll(fs) + End(looking) + rest
    ensures |es| <= |fs| && fs[..|es|] == es && Reads(was, fs[|es|..], rest, looking)
    decreases es, 0
  {
    hide Element.Bytes, Element.Valid;
    if es == [] {
      assert fs[0..] == fs;
    } else {
      var e := es[0];
      assert e in es && BytesAll(es) + was == e.Bytes() + (BytesAll(es[1..]) + was);
      NotEnd(e, BytesAll(es[1..]) + was);
      assert fs != [];
      var f := fs[0];
      assert f in fs && BytesAll(fs) + End(looking) + rest == f.Bytes() + (BytesAll(fs[1..]) + End(looking) + rest);
      OneReading(e, BytesAll(es[1..]) + was, f, BytesAll(fs[1..]) + End(looking) + rest);
      RestOfReading(es[1..], was, fs[1..], rest, looking);
      assert fs[1..][|es| - 1..] == fs[|es|..];
      assert fs[..|es|] == [f] + fs[1..][..|es| - 1];
    }
  }

  /** If what is left cannot be converted, neither can the whole. */
  lemma RefusedLater(es: seq<Element>, was: seq<Octet>, squash: bool, looking: bool, depth: nat)
    requires ValidAll(es) && Refused(was, squash, looking, depth)
    ensures Refused(BytesAll(es) + was, squash, looking, depth)
  {
    hide BytesAll, Fine, End;
    forall fs, rest | AllFine(fs, squash, depth) && Reads(BytesAll(es) + was, fs, rest, looking) ensures false {
      FineIsValid(fs, squash, depth);
      RestOfReading(es, was, fs, rest, looking);
      FineRest(fs, |es|, squash, depth);
    }
  }

  lemma FineRest(es: seq<Element>, k: nat, squash: bool, depth: nat)
    requires AllFine(es, squash, depth) && k <= |es|
    ensures AllFine(es[k..], squash, depth)
  {
    hide Fine;
  }

  lemma FirstIsHead(data: seq<Octet>, es: seq<Element>, rest: seq<Octet>, looking: bool, squash: bool, depth: nat)
    requires AllFine(es, squash, depth) && Reads(data, es, rest, looking) && es != []
    ensures Fine(es[0], squash, depth) && Head(data, es[0], BytesAll(es[1..]) + End(looking) + rest)
  {
    hide Fine, Element.Bytes;
    assert es[0] in es;
    var more := BytesAll(es[1..]);
    assert BytesAll(es) == es[0].Bytes() + more;
    assert es[0].Bytes() + more + End(looking) + rest == es[0].Bytes() + (more + End(looking) + rest);
  }

  lemma RefusedHere(was: seq<Octet>, squash: bool, looking: bool, depth: nat)
    requires was != [] && NoHead(was, squash, depth) && !(looking && |was| >= 2 && was[0] == 0 && was[1] == 0)
    ensures Refused(was, squash, looking, depth)
  {
    hide Fine;
    forall es, rest | AllFine(es, squash, depth) && Reads(was, es, rest, looking) ensures false {
      if es != [] {
        FirstIsHead(was, es, rest, looking, squash, depth);
      }
    }
  }

  /** Without an element at the front nothing can be converted, not even an end of contents. */
  lemma Unreadable(was: seq<Octet>, squash: bool, looking: bool, depth: nat)
    requires was != [] && !StartsWithElement(was) && !StartsIndefinite(was)
    ensures Refused(was, squash, looking, depth)
  {
    hide StartsWithElement, Der.Element, Element.Fits;
    if |was| >= 2 && was[0] == 0 && was[1] == 0 {
      EndIsElement();
      assert was == Der.Element(0, []) + was[2..];
      SameElement(0, [], was[2..]);
    }
    forall e, more | Fine(e, squash, depth) && Head(was, e, more) ensures false {
      HeadIsThere(e, more);
    }
    RefusedHere(was, squash, looking, depth);
  }

  lemma HeadIsThere(e: Element, more: seq<Octet>)
    requires e.Valid()
    ensures var data := e.Bytes() + more; StartsWithElement(data) || StartsIndefinite(data)
  {
    hide Der.Element;
    if !e.Indef? {
      DefiniteShape(e);
      SameElement(e.tag, e.Content(), more);
    }
  }

  /** The end is missing. */
  lemma NoEnd(squash: bool, depth: nat)
    ensures Refused([], squash, true, depth)
  {}

  /** An end that is not looked for. */
  lemma WrongEnd(was: seq<Octet>, squash: bool, depth: nat)
    requires |was| >= 2 && was[0] == 0 && was[1] == 0
    ensures Refused(was, squash, false, depth)
  {
    hide Element.Fits, Element.Bytes, Element.Valid;
    forall e, more | Fine(e, squash, depth) && Head(was, e, more) ensures false {
      NotEnd(e, more);
    }
    RefusedHere(was, squash, false, depth);
  }

  /** What GetAnyElement finds at the front. */
  ghost predicate Found(data: seq<Octet>, out: seq<Octet>, tag: Octet, headerLen: nat, rest: seq<Octet>) {
    && data == out + rest && ShortTag(tag)
    && (IsElement(out, tag, headerLen) || (IsIndefinite(out, tag) && headerLen == 2))
  }

  /** A header without contents: nothing inside, or indefinite length. */
  lemma HeaderOnly(data: seq<Octet>, out: seq<Octet>, tag: Octet, headerLen: nat, rest: seq<Octet>)
    requires Found(data, out, tag, headerLen, rest)
    ensures |out| == headerLen ==> headerLen == 2 && (out == [tag, 0] || (out == [tag, 0x80] && Constructed(tag)))
    ensures |out| > headerLen ==> IsElement(out, tag, headerLen)
    ensures out != [tag, 0x80] ==> IsElement(out, tag, headerLen)
    ensures headerLen >= 2
  {
    if IsElement(out, tag, headerLen) && |out| == headerLen {
      assert out[headerLen..] == [];
    }
  }

  /** Looking ahead sees the first of the contents, or their end. */
  lemma LookAhead(kids: seq<Element>, more: seq<Octet>, out: seq<Octet>, tag: Octet, headerLen: nat, rest: seq<Octet>)
    requires ValidAll(kids) && Found(BytesAll(kids) + [0, 0] + more, out, tag, headerLen, rest)
    ensures |out| > headerLen && IsPrimitiveType(tag) <==>
      kids != [] && !kids[0].Indef? && kids[0].Content() != [] && IsPrimitiveType(kids[0].tag)
  {
    hide Der.Element, Element.Bytes;
    var data := BytesAll(kids) + [0, 0] + more;
    HeaderOnly(data, out, tag, headerLen, rest);
    if kids == [] {
      EndIsElement();
      assert data == Der.Element(0, []) + more;
      FrontElement(data, out, tag, headerLen, rest, 0, [], more);
    } else {
      var e := kids[0];
      var after := BytesAll(kids[1..]) + [0, 0] + more;
      assert e in kids && data == e.Bytes() + after;
      if e.Indef? {
        FrontIndefinite(data, out, tag, headerLen, rest, e, after);
      } else {
        DefiniteShape(e);
        FrontElement(data, out, tag, headerLen, rest, e.tag, e.Content(), after);
      }
    }
  }

  lemma EndIsElement()
    ensures Der.Element(0, []) == [0, 0]
  {}

  /** An element at the front is what is found there. */
  lemma FrontElement(data: seq<Octet>, out: seq<Octet>, tag: Octet, headerLen: nat, rest: seq<Octet>,
                     t: Octet, content: seq<Octet>, after: seq<Octet>)
    requires Found(data, out, tag, headerLen, rest) && |content| <= MAX_LENGTH
               && data == Der.Element(t, content) + after
    ensures tag == t && out == Der.Element(t, content) && headerLen == |out| - |content|
  {
    AfterTag(t, content, after);
    assert data[1] == data[1..][0] == Length(|content|)[0] != 0x80;
    assert |out| >= 2 ==> data[1] == out[1];
    HeaderOnly(data, out, tag, headerLen, rest);
    ElementIsPrefixFree(tag, out[headerLen..], rest, t, content, after);
  }

  lemma FrontIndefinite(data: seq<Octet>, out: seq<Octet>, tag: Octet, headerLen: nat, rest: seq<Octet>,
                        e: Element, after: seq<Octet>)
    requires Found(data, out, tag, headerLen, rest) && e.Indef? && data == e.Bytes() + after
    ensures |out| == headerLen
  {
    HeaderOnly(data, out, tag, headerLen, rest);
    assert data[1] == 0x80;
    if IsElement(out, tag, headerLen) {
      DefiniteByte(tag, out[headerLen..], rest);
    }
  }

  /** The octet after the tag is not that of the indefinite form. */
  lemma DefiniteByte(tag: Octet, content: seq<Octet>, rest: seq<Octet>)
    requires |content| <= MAX_LENGTH
    ensures var data := Der.Element(tag, content) + rest; |data| >= 2 && data[1] != 0x80
  {
    AfterTag(tag, content, rest);
    var data := Der.Element(tag, content) + rest;
    assert data[1] == data[1..][0] == Length(|content|)[0];
  }

  /**
   cbs_convert_indefinite: the elements up to the end of the input, or up to an end-of-contents if one is looked
   for, are converted, joined if headers are squashed and with definite lengths otherwise. It fails only if there
   are none.
   */
  method Convert(input: Cbs, out: Cbb, squash: bool, looking: bool, depth: nat, ghost p: nat)
      returns (ok: bool, ghost forest: seq<Element>)
    requires out.At(p) && |out.base.stack| == p + 1 && out.base.canResize
    modifies input, out, out.base, out.base.buf
    ensures out.base == old(out.base) && (out.base.buf == old(out.base.buf) || fresh(out.base.buf))
    ensures ok ==> out.At(p) && out.base.stack == old(out.base.stack) && out.base.open == old(out.base.open)
    ensures ok ==> out.base.Contents() == old(out.base.Contents()) + Pieces(forest, squash)
    ensures ok ==> AllFine(forest, squash, depth) && Reads(old(input.data), forest, input.data, looking)
    ensures !ok ==> Refused(old(input.data), squash, looking, depth)
    decreases |input.data|, 3
  {
    hide Nested, Buffer.Chained, ClosedTo, HoldTo, Found, IsElement, StartsWithElement, Pieces, Piece, AllFine, Fine,
      BytesAll, Element.Bytes, ValidAll, Der.Element, Refused, NoHead;
    forest := [];
    if depth > MAX_DEPTH {
      TooDeep(input.data, squash, looking, depth);
      return false, [];
    }
    ghost var base, before, data := out.base, out.base.Contents(), input.data;
    NothingYet(squash, depth, data);
    while input.data != []
      invariant out.base == base && (base.buf == old(base.buf) || fresh(base.buf))
      invariant out.At(p) && base.stack == old(base.stack) && base.open == old(base.open)
      invariant base.Contents() == before + Pieces(forest, squash)
      invariant AllFine(forest, squash, depth) && data == BytesAll(forest) + input.data
      decreases |input.data|
    {
      ghost var was := input.data;
      FineIsValid(forest, squash, depth);
      var contents, tag, headerLen;
      ok, contents, tag, headerLen := input.GetAnyElement(false);
      if !ok {
        Unreadable(was, squash, looking, depth);
        RefusedLater(forest, was, squash, looking, depth);
        return;
      }
      ItIsFound(was, contents, tag, headerLen, input.data);
      HeaderOnly(was, contents, tag, headerLen, input.data);
      ghost var e, after := Prim(0, []), input.data;
      if |contents| == headerLen && headerLen == 2 && contents == [0, 0] {
        assert looking ==> data == BytesAll(forest) + [0, 0] + input.data;
        if !looking {
          WrongEnd(was, squash, depth);
          RefusedLater(forest, was, squash, looking, depth);
        }
        ok := looking;
        return;
      } else if |contents| == headerLen && contents[headerLen - 1] == 0x80 {
        ok, e := ConvertIndefinite(input, out, tag, squash, depth, p);
      } else {
        ok, e := ConvertDefinite(contents, headerLen, tag, out, squash, depth, after, p);
      }
      if !ok {
        NotAnEnd(contents, tag, headerLen, after, was);
        RefusedHere(was, squash, looking, depth);
        RefusedLater(forest, was, squash, looking, depth);
        return;
      }
      FineMore(forest, e, squash, depth);
      assert was == e.Bytes() + input.data;
      assert BytesAll(forest) + was == BytesAll(forest) + e.Bytes() + input.data;
      forest := forest + [e];
    }
    ok := !looking;
    if looking {
      FineIsValid(forest, squash, depth);
      NoEnd(squash, depth);
      RefusedLater(forest, [], squash, true, depth);
    }
  }

  lemma TooDeep(data: seq<Octet>, squash: bool, looking: bool, depth: nat)
    requires depth > MAX_DEPTH
    ensures Refused(data, squash, looking, depth)
  {}

  lemma NothingYet(squash: bool, depth: nat, data: seq<Octet>)
    requires depth <= MAX_DEPTH
    ensures Pieces([], squash) == [] && AllFine([], squash, depth) && BytesAll([]) + data == data
  {}

  lemma ItIsFound(data: seq<Octet>, out: seq<Octet>, tag: Octet, headerLen: nat, rest: seq<Octet>)
    requires data == out + rest && ShortTag(tag)
    requires IsElement(out, tag, headerLen) || (IsIndefinite(out, tag) && headerLen == 2)
    ensures Found(data, out, tag, headerLen, rest) && headerLen <= |out|
  {}

  /** An element of indefinite length, after its header: a primitive value in fragments, or a constructed one. */
  method ConvertIndefinite(input: Cbs, out: Cbb, tag: Octet, squash: bool, depth: nat, ghost p: nat)
      returns (ok: bool, ghost e: Element)
    requires out.At(p) && |out.base.stack| == p + 1 && out.base.canResize && ShortTag(tag) && Constructed(tag)
    modifies input, out, out.base, out.base.buf
    ensures out.base == old(out.base) && (out.base.buf == old(out.base.buf) || fresh(out.base.buf))
    ensures ok ==> out.At(p) && out.base.stack == old(out.base.stack) && out.base.open == old(out.base.open)
    ensures ok ==> out.base.Contents() == old(out.base.Contents()) + Piece(e, squash)
    ensures ok ==> Fine(e, squash, depth) && e.Bytes() + input.data == [tag, 0x80] + old(input.data)
    ensures ok ==> |input.data| <= |old(input.data)|
    ensures !ok ==> NoHead([tag, 0x80] + old(input.data), squash, depth)
    decreases |input.data|, 5
  {
    hide Nested, Buffer.Chained, ClosedTo, HoldTo, Closed, Pieces, AllFine, BytesAll, Found, IsElement,
      StartsWithElement, Der.Element, Element.Fragmented, Element.Valid, Tree.Valid, Fine, Refused, NoHead;
    ghost var data := input.data;
    e := Prim(0, []);
    var squashKids := IsPrimitiveType(tag);
    if tag / 64 == 2 {
      var fits, byContents := FragmentsAhead(input);
      if !fits {
        NothingAhead(data, tag, squash, depth);
        return false, e;
      }
      squashKids := byContents;
    }
    ghost var kids;
    if squash {
      ok, kids := Convert(input, out, squashKids, true, depth + 1, p);
    } else {
      ok, kids := ConvertNested(input, out, if squashKids then tag - 32 else tag, squashKids, depth, p);
    }
    if ok {
      e := Indef(tag, kids);
      FineIsValid(kids, squashKids, depth + 1);
      SquashedKids(data, kids, input.data, tag, squashKids);
      IndefinitePiece(tag, kids, squash, squashKids, depth, data, input.data);
    } else {
      NoIndefinite(data, tag, squash, squashKids, depth);
    }
  }

  /** The contents become an element of definite length. */
  method ConvertNested(input: Cbs, out: Cbb, tag: Octet, squashKids: bool, depth: nat, ghost p: nat)
      returns (ok: bool, ghost kids: seq<Element>)
    requires out.At(p) && |out.base.stack| == p + 1 && out.base.canResize && ShortTag(tag)
    modifies input, out, out.base, out.base.buf
    ensures out.base == old(out.base) && (out.base.buf == old(out.base.buf) || fresh(out.base.buf))
    ensures ok ==> out.At(p) && out.base.stack == old(out.base.stack) && out.base.open == old(out.base.open)
    ensures ok ==> out.base.Contents() == old(out.base.Contents()) + Der.Element(tag, Pieces(kids, squashKids))
    ensures ok ==> AllFine(kids, squashKids, depth + 1) && |Pieces(kids, squashKids)| < MAX_LENGTH
    ensures ok ==> Reads(old(input.data), kids, input.data, true)
    ensures !ok ==> NoContents(old(input.data), squashKids, depth)
    decreases |input.data|, 4
  {
    hide Nested, Buffer.Chained, ClosedTo, HoldTo, Closed, Pieces, AllFine, BytesAll, Der.Element, Refused, Reads,
      NoContents;
    ghost var before, open, data := out.base.Contents(), out.base.open, input.data;
    Leaf(out, p);
    kids := [];
    var child := new Cbb();
    ok := out.AddAsn1(child, tag, p);
    assert ok;      // the buffer may grow and the tag is short
    ok, kids := Convert(input, child, squashKids, true, depth + 1, p + 1);
    if !ok {
      RefusedContents(data, squashKids, depth);
      return;
    }
    if |Pieces(kids, squashKids)| < MAX_LENGTH {
      ClosedElement(before, tag, Pieces(kids, squashKids));
    } else {
      TooLong(data, kids, input.data, squashKids, depth);
    }
    OneOpen(out.base.Contents(), open, Pending(|before| + 1, 1, true));
    ok := out.Flush(p);
  }

  /** No contents of indefinite length that an element could have are at the front. */
  ghost predicate NoContents(data: seq<Octet>, squashKids: bool, depth: nat) {
    forall kids, rest :: AllFine(kids, squashKids, depth + 1) && Reads(data, kids, rest, true) ==>
      |Pieces(kids, squashKids)| >= MAX_LENGTH
  }

  lemma RefusedContents(data: seq<Octet>, squashKids: bool, depth: nat)
    requires Refused(data, squashKids, true, depth + 1)
    ensures NoContents(data, squashKids, depth)
  {}

  lemma TooLong(data: seq<Octet>, kids: seq<Element>, rest: seq<Octet>, squashKids: bool, depth: nat)
    requires AllFine(kids, squashKids, depth + 1) && Reads(data, kids, rest, true)
    requires |Pieces(kids, squashKids)| >= MAX_LENGTH
    ensures NoContents(data, squashKids, depth)
  {
    hide BytesAll, Pieces, Fine;
    forall es, more | AllFine(es, squashKids, depth + 1) && Reads(data, es, more, true) ensures es == kids {
      FineIsValid(es, squashKids, depth + 1);
      FineIsValid(kids, squashKids, depth + 1);
      SameReading(es, more, kids, rest, true);
    }
  }

  /** Whether the contents begin with octets of a primitive type: then a context-specific tag is implicit. */
  method FragmentsAhead(input: Cbs) returns (ok: bool, r: bool)
    ensures ok ==> SeenAhead(input.data, r)
    ensures !ok ==> !StartsWithElement(input.data) && !StartsIndefinite(input.data)
  {
    hide IsElement, StartsWithElement;
    var copy := new Cbs(input.data);
    var contents, tag, headerLen;
    ok, contents, tag, headerLen := copy.GetAnyElement(false);
    r := ok && |contents| > headerLen && IsPrimitiveType(tag);
    if ok {
      ItIsFound(input.data, contents, tag, headerLen, copy.data);
    }
  }

  ghost predicate SeenAhead(data: seq<Octet>, r: bool) {
    exists out, tag, headerLen, rest ::
      Found(data, out, tag, headerLen, rest) && (r <==> |out| > headerLen && IsPrimitiveType(tag))
  }

  /** The decision made beforehand is the right one for the contents. */
  lemma SquashedKids(data: seq<Octet>, kids: seq<Element>, more: seq<Octet>, tag: Octet, squashKids: bool)
    requires ValidAll(kids) && Reads(data, kids, more, true)
    requires if tag / 64 == 2 then SeenAhead(data, squashKids) else squashKids == IsPrimitiveType(tag)
    ensures Indef(tag, kids).Fragmented() <==> squashKids
  {
    if tag / 64 == 2 {
      var out, t, headerLen, rest :|
        Found(data, out, t, headerLen, rest) && (squashKids <==> |out| > headerLen && IsPrimitiveType(t));
      LookAhead(kids, more, out, t, headerLen, rest);
    }
  }

  lemma IndefinitePiece(tag: Octet, kids: seq<Element>, squash: bool, squashKids: bool, depth: nat,
                        data: seq<Octet>, more: seq<Octet>)
    requires ShortTag(tag) && Constructed(tag) && (Indef(tag, kids).Fragmented() <==> squashKids)
    requires AllFine(kids, squashKids, depth + 1) && (squash || |Pieces(kids, squashKids)| < MAX_LENGTH)
    requires Reads(data, kids, more, true)
    ensures var e := Indef(tag, kids);
      && Fine(e, squash, depth) && e.Bytes() + more == [tag, 0x80] + data
      && Piece(e, squash) == if squash then Pieces(kids, squashKids)
                             else Der.Element(if squashKids then tag - 32 else tag, Pieces(kids, squashKids))
  {
    hide Der.Element;
    assert [tag, 0x80] + data == [tag, 0x80] + BytesAll(kids) + [0, 0] + more;
  }

  /** After the header of indefinite length there is no element to look at. */
  lemma NothingAhead(data: seq<Octet>, tag: Octet, squash: bool, depth: nat)
    requires !StartsWithElement(data) && !StartsIndefinite(data)
    ensures NoHead([tag, 0x80] + data, squash, depth)
  {
    hide BytesAll, StartsWithElement;
    forall e, more | Fine(e, squash, depth) && Head([tag, 0x80] + data, e, more) ensures false {
      IndefiniteHead(data, tag, e, more);
      if data == [] {
      } else {
        KidsFine(e, squash, depth);
        Unreadable(data, e.Fragmented(), true, depth + 1);
      }
    }
  }

  /** An element at a header of indefinite length has this tag, and its contents follow. */
  lemma IndefiniteHead(data: seq<Octet>, tag: Octet, e: Element, more: seq<Octet>)
    requires e.Valid() && Head([tag, 0x80] + data, e, more)
    ensures e.Indef? && e.tag == tag && Reads(data, e.kids, more, true) && ValidAll(e.kids) && data != []
  {
    hide Der.Element;
    if e.Indef? {
      assert [tag, 0x80] + data == [e.tag, 0x80] + (BytesAll(e.kids) + End(true) + more);
      assert ([tag, 0x80] + data)[2..] == data;
    } else {
      DefiniteShape(e);
      DefiniteByte(e.tag, e.Content(), more);
    }
  }

  lemma NoIndefinite(data: seq<Octet>, tag: Octet, squash: bool, squashKids: bool, depth: nat)
    requires if tag / 64 == 2 then SeenAhead(data, squashKids) else squashKids == IsPrimitiveType(tag)
    requires if squash then Refused(data, squashKids, true, depth + 1) else NoContents(data, squashKids, depth)
    ensures NoHead([tag, 0x80] + data, squash, depth)
  {
    hide BytesAll, SeenAhead, AllFine, Reads;
    forall e, more | Fine(e, squash, depth) && Head([tag, 0x80] + data, e, more) ensures false {
      IndefiniteHead(data, tag, e, more);
      SquashedKids(data, e.kids, more, tag, squashKids);
      KidsFine(e, squash, depth);
    }
  }

  /** An element of definite length: its contents are converted if it is constructed. */
  method ConvertDefinite(contents: seq<Octet>, headerLen: nat, tag: Octet, out: Cbb, squash: bool, depth: nat,
                         ghost after: seq<Octet>, ghost p: nat)
      returns (ok: bool, ghost e: Element)
    requires out.At(p) && |out.base.stack| == p + 1 && out.base.canResize && ShortTag(tag)
    requires IsElement(contents, tag, headerLen) && contents != [0, 0] && depth <= MAX_DEPTH
    modifies out, out.base, out.base.buf
    ensures out.base == old(out.base) && (out.base.buf == old(out.base.buf) || fresh(out.base.buf))
    ensures ok ==> out.At(p) && out.base.stack == old(out.base.stack) && out.base.open == old(out.base.open)
    ensures ok ==> out.base.Contents() == old(out.base.Contents()) + Piece(e, squash)
    ensures ok ==> Fine(e, squash, depth) && e.Bytes() == contents
    ensures !ok ==> NoHead(contents + after, squash, depth)
    decreases |contents|, 2
  {
    hide Nested, Buffer.Chained, ClosedTo, HoldTo, Closed, IsElement, Der.Element, Content, Element.Bytes, Fine, NoHead,
      Refused;
    ghost var before, open := out.base.Contents(), out.base.open;
    Leaf(out, p);
    e := Prim(0, []);
    HasHeader(contents, tag, headerLen);
    var content := contents[headerLen..];
    if squash {
      ok, e := ConvertContent(content, tag, out, depth, p);
      if !ok {
        NoDefinite(contents, tag, headerLen, after, squash, depth);
        return;
      }
    } else {
      var child := new Cbb();
      ok := out.AddAsn1(child, tag, p);
      assert ok;    // the buffer may grow and the tag is short
      ok, e := ConvertContent(content, tag, child, depth, p + 1);
      if !ok {
        NoDefinite(contents, tag, headerLen, after, squash, depth);
        return;
      }
      ghost var written := out.base.Contents()[|before| + 2..];
      assert written == e.Joined();
      if |written| < MAX_LENGTH {
        ClosedElement(before, tag, written);
      } else {
        TooLongDefinite(e, contents, headerLen, after, depth);
      }
      OneOpen(out.base.Contents(), open, Pending(|before| + 1, 1, true));
      ok := out.Flush(p);
    }
    if ok {
      DefinitePiece(e, contents, headerLen, squash, depth);
    }
  }

  /** The contents: converted elements, or octets as they are. */
  method ConvertContent(content: seq<Octet>, tag: Octet, out: Cbb, depth: nat, ghost p: nat)
      returns (ok: bool, ghost e: Element)
    requires out.At(p) && |out.base.stack| == p + 1 && out.base.canResize
    modifies out, out.base, out.base.buf
    ensures out.base == old(out.base) && (out.base.buf == old(out.base.buf) || fresh(out.base.buf))
    ensures ok ==> out.At(p) && out.base.stack == old(out.base.stack) && out.base.open == old(out.base.open)
    ensures ok ==> out.base.Contents() == old(out.base.Contents()) + e.Joined()
    ensures ok ==> e.tag == tag && e.Content() == content
    ensures ok ==> if Constructed(tag) then e.Def? && AllFine(e.kids, false, depth + 1) else e.Prim?
    ensures !ok ==> Constructed(tag) && Refused(content, false, false, depth + 1)
    decreases |content|, 4
  {
    hide Nested, Buffer.Chained, ClosedTo, HoldTo, AllFine, BytesAll, Refused;
    if Constructed(tag) {
      var inside := new Cbs(content);
      ghost var kids;
      ok, kids := Convert(inside, out, false, false, depth + 1, p);
      e := Def(tag, kids);
    } else {
      Leaf(out, p);
      ok := out.AddBytes(content, p);
      e := Prim(tag, content);
    }
  }

  lemma HasHeader(contents: seq<Octet>, tag: Octet, headerLen: nat)
    requires IsElement(contents, tag, headerLen)
    ensures 2 <= headerLen <= |contents| && |contents| - headerLen <= MAX_LENGTH
    ensures contents == Der.Element(tag, contents[headerLen..])
  {}

  lemma DefinitePiece(e: Element, contents: seq<Octet>, headerLen: nat, squash: bool, depth: nat)
    requires IsElement(contents, e.tag, headerLen) && contents != [0, 0] && ShortTag(e.tag) && !e.Indef?
    requires e.Content() == contents[headerLen..] && depth <= MAX_DEPTH
    requires if Constructed(e.tag) then e.Def? && AllFine(e.kids, false, depth + 1) else e.Prim?
    requires squash || |e.Joined()| < MAX_LENGTH
    ensures Fine(e, squash, depth) && e.Bytes() == contents
    ensures Piece(e, squash) == if squash then e.Joined() else Der.Element(e.tag, e.Joined())
  {
    HasHeader(contents, e.tag, headerLen);
    EndIsElement();
  }

  /** An element at a header of definite length has this tag and these contents. */
  lemma DefiniteHead(contents: seq<Octet>, tag: Octet, headerLen: nat, after: seq<Octet>, e: Element, more: seq<Octet>)
    requires IsElement(contents, tag, headerLen) && e.Valid() && Head(contents + after, e, more)
    ensures !e.Indef? && e.tag == tag && e.Content() == contents[headerLen..] && (e.Def? <==> Constructed(tag))
    ensures e.Def? ==> ValidAll(e.kids) && Reads(contents[headerLen..], e.kids, [], false)
  {
    hide Der.Element;
    HasHeader(contents, tag, headerLen);
    if e.Indef? {
      DefiniteByte(tag, contents[headerLen..], after);
    } else {
      DefiniteShape(e);
      ElementIsPrefixFree(tag, contents[headerLen..], after, e.tag, e.Content(), more);
    }
  }

  lemma NoDefinite(contents: seq<Octet>, tag: Octet, headerLen: nat, after: seq<Octet>, squash: bool, depth: nat)
    requires IsElement(contents, tag, headerLen) && Constructed(tag)
    requires Refused(contents[headerLen..], false, false, depth + 1)
    ensures NoHead(contents + after, squash, depth)
  {
    hide IsElement, AllFine, Reads;
    forall e, more | Fine(e, squash, depth) && Head(contents + after, e, more) ensures false {
      DefiniteHead(contents, tag, headerLen, after, e, more);
      KidsFine(e, squash, depth);
    }
  }

  lemma TooLongDefinite(e: Element, contents: seq<Octet>, headerLen: nat, after: seq<Octet>, depth: nat)
    requires IsElement(contents, e.tag, headerLen) && !e.Indef? && e.Content() == contents[headerLen..]
    requires if Constructed(e.tag) then e.Def? && AllFine(e.kids, false, depth + 1) else e.Prim?
    requires |e.Joined()| >= MAX_LENGTH
    ensures NoHead(contents + after, false, depth)
  {
    hide IsElement;
    forall f, more | Fine(f, false, depth) && Head(contents + after, f, more) ensures false {
      DefiniteHead(contents, e.tag, headerLen, after, f, more);
      if e.Def? {
        FineIsValid(e.kids, false, depth + 1);
        SameReading(e.kids, [], f.kids, [], false);
      }
    }
  }

  /** What is found is not an end of contents unless it says so. */
  lemma NotAnEnd(contents: seq<Octet>, tag: Octet, headerLen: nat, rest: seq<Octet>, was: seq<Octet>)
    requires Found(was, contents, tag, headerLen, rest) && contents != [0, 0]
    ensures !(|was| >= 2 && was[0] == 0 && was[1] == 0)
  {
    hide Der.Element, Found;
    if |was| >= 2 && was[0] == 0 && was[1] == 0 {
      EndIsElement();
      assert was == Der.Element(0, []) + was[2..];
      FrontElement(was, contents, tag, headerLen, rest, 0, [], was[2..]);
    }
  }

  /** All of the input, at the top level. */
  ghost predicate Converts(data: seq<Octet>, forest: seq<Element>) {
    AllFine(forest, false, 0) && BytesAll(forest) == data
  }

  /**
   The conversion of CBS_asn1_indefinite_to_definite: it succeeds exactly on elements whose nesting and lengths are
   within the limits. All lengths in the output are definite and in the fewest octets. Parsed strictly it gives, for
   any schema, the trees that the input denotes exactly if the input is clean; input without indefinite lengths comes
   out as it was.
   */
  method IndefiniteToDefinite(data: seq<Octet>) returns (ok: bool, out: seq<Octet>, parsed: seq<Tree>)
    ensures ok <==> exists forest :: Converts(data, forest)
    ensures forall forest :: Converts(data, forest) ==> parsed == RewrittenAll(forest)
    ensures forall forest, schema: Schema :: Converts(data, forest) ==>
              (parsed == DenotedAll(forest, schema, [], 0) <==> AllClean(forest, schema, [], 0))
    ensures forall forest: seq<Element> ::
              Converts(data, forest) && (forall e :: e in forest ==> e.Ordinary()) ==>
                parsed == PlainlyAll(forest)
    ensures ok ==> AllValid(parsed) && EncodeAll(parsed) == out
    ensures ok ==> forall trees :: AllValid(trees) && EncodeAll(trees) == data ==> parsed == trees && out == data
  {
    hide Nested, Buffer.Chained, ClosedTo, HoldTo, BytesAll, ValidAll, AllValid, EncodeAll, RewrittenAll, AllFine,
      Refused;
    var input := new Cbs(data);
    var cbb := new Cbb.Init(|data|, true);
    ghost var forest;
    out, parsed := [], [];
    ok, forest := Convert(input, cbb, false, false, 0, 0);
    if !ok {
      NotConverted(data);
      return;
    }
    assert data == BytesAll(forest);
    Leaf(cbb, 0);
    ok, out := cbb.Finish();
    assert ok;      // there is no length left to fill in
    var strict;
    strict, parsed := StrictForest(out);
    FineIsDefinite(forest, 0);
    assert AllValid(RewrittenAll(forest)) && EncodeAll(RewrittenAll(forest)) == out;
    EncodingIsInjective(parsed, RewrittenAll(forest));
    OneConversion(data, forest);
    forall schema: Schema
      ensures parsed == DenotedAll(forest, schema, [], 0) <==> AllClean(forest, schema, [], 0)
    {
      AllRewrittenIffClean(forest, 0, schema, [], 0);
    }
    if forall e :: e in forest ==> e.Ordinary() {
      OrdinaryIsRight(forest, _ => Structure, [], 0);
    }
    FineIsValid(forest, false, 0);
    forall trees | AllValid(trees) && EncodeAll(trees) == data ensures parsed == trees {
      DefiniteInput(forest, trees);
    }
  }

  /** 24 80 24 03 04 01 AA 00 00 */
  const LEAF := Prim(4, [0xAA])
  const INNER := Def(0x24, [LEAF])
  const NESTED := Indef(0x24, [INNER])

  /** 23 80 03 02 00 AA 03 02 00 BB 00 00 */
  const FIRST_BITS := Prim(3, [0, 0xAA])
  const LAST_BITS := Prim(3, [0, 0xBB])
  const BITS := Indef(0x23, [FIRST_BITS, LAST_BITS])

  /** 28 80 06 01 2A 81 01 AA 00 00 */
  const REFERENCE := Prim(6, [0x2A])
  const DATA := Prim(0x81, [0xAA])
  const EXTERNAL := Indef(0x28, [REFERENCE, DATA])

  /** A0 80 02 01 05 00 00 and A0 80 04 01 AA 00 00 */
  const FIVE := Prim(2, [5])
  const TAGGED_INTEGER := Indef(0xA0, [FIVE])
  const TAGGED_STRING := Indef(0xA0, [LEAF])

  /**
   A constructed fragment of definite length: the string of one octet comes out as three, with the header of the
   inner fragment in it.
   */
  lemma NestedFragment(schema: Schema, path: seq<nat>)
    ensures Converts([0x24, 0x80, 0x24, 3, 4, 1, 0xAA, 0, 0], [NESTED]) && !NESTED.Clean(schema, path)
    ensures NESTED.Denoted(schema, path) == Primitive(4, [0xAA]) && NESTED.Rewritten() == Primitive(4, [4, 1, 0xAA])
  {
    NestedBytes();
    OneOf(LEAF, schema, path);
    OneOf(INNER, schema, path);
    OneOf(NESTED, schema, path);
    hide Element.Bytes, Tree.Encode, EncodeAll, BytesAll, RewrittenAll, LeavesAll, JoinedAll, Der.Element;
    assert LEAF.Leaves()[1..] == [] && Flat(LEAF.Leaves()) == [0xAA];
    assert LEAF.IsSegment(4) && INNER.IsSegment(4) && NESTED.IsString(OctetSegments);
    assert NESTED.Fragmented() && INNER in NESTED.kids && !INNER.Plain();
    assert Fine(LEAF, false, 2) && Fine(INNER, true, 1);
    assert Fine(NESTED, false, 0);
  }

  lemma NestedBytes()
    ensures LEAF.Bytes() == LEAF.Rewritten().Encode() == [4, 1, 0xAA] && INNER.Joined() == [4, 1, 0xAA]
    ensures NESTED.Bytes() == [0x24, 0x80, 0x24, 3, 4, 1, 0xAA, 0, 0]
  {
    OneOf(LEAF, _ => Structure, []);
    OneOf(INNER, _ => Structure, []);
    EncodeOne(LEAF.Rewritten());
    assert INNER.Bytes() == [0x24, 3, 4, 1, 0xAA];
  }

  /** A bit string in two segments: the number of unused bits of the second one ends up among the bits. */
  lemma TwoSegments(schema: Schema, path: seq<nat>)
    ensures Converts([0x23, 0x80, 3, 2, 0, 0xAA, 3, 2, 0, 0xBB, 0, 0], [BITS]) && !BITS.Clean(schema, path)
    ensures BITS.Denoted(schema, path) == Primitive(3, [0, 0xAA, 0xBB])
    ensures BITS.Rewritten() == Primitive(3, [0, 0xAA, 0, 0xBB])
  {
    OneOf(BITS, schema, path);
    TwoOf(FIRST_BITS, LAST_BITS, schema, path);
    assert BITS.Bytes() == [0x23, 0x80, 3, 2, 0, 0xAA, 3, 2, 0, 0xBB, 0, 0];
    var leaves: seq<seq<Octet>> := [[0, 0xAA], [0, 0xBB]];
    assert leaves[1..] == [[0, 0xBB]] && leaves[1..][1..] == [];
    assert leaves == LeavesAll(BITS.kids) && BitString(leaves) == [0, 0xAA, 0xBB];
    hide Element.Bytes, BytesAll, RewrittenAll, LeavesAll, JoinedAll, Der.Element;
    assert Fine(FIRST_BITS, true, 1) && Fine(LAST_BITS, true, 1);
    assert BITS.IsString(BitSegments) && BITS.Fragmented() && Fine(BITS, false, 0);
  }

  /** EXTERNAL is a sequence of other types: the code takes them for fragments of a string. */
  lemma ExternalIsNoString(schema: Schema, path: seq<nat>)
    ensures Converts([0x28, 0x80, 6, 1, 0x2A, 0x81, 1, 0xAA, 0, 0], [EXTERNAL]) && !EXTERNAL.Clean(schema, path)
    ensures EXTERNAL.Denoted(schema, path) == Compound(0x28, [Primitive(6, [0x2A]), Primitive(0x81, [0xAA])])
    ensures EXTERNAL.Rewritten() == Primitive(8, [0x2A, 0xAA])
  {
    OneOf(EXTERNAL, schema, path);
    TwoOf(REFERENCE, DATA, schema, path);
    assert EXTERNAL.Bytes() == [0x28, 0x80, 6, 1, 0x2A, 0x81, 1, 0xAA, 0, 0];
    hide Element.Bytes, BytesAll, RewrittenAll, DenotedAll, LeavesAll, JoinedAll, Der.Element;
    assert Fine(REFERENCE, true, 1) && Fine(DATA, true, 1);
    assert EXTERNAL.Fragmented() && Fine(EXTERNAL, false, 0);
  }

  /**
   An integer is no segment of a string, so that under any schema a tag around it is explicit: the code drops its own.
   */
  lemma TaggedInteger(schema: Schema, path: seq<nat>)
    ensures Converts([0xA0, 0x80, 2, 1, 5, 0, 0], [TAGGED_INTEGER]) && !TAGGED_INTEGER.Clean(schema, path)
    ensures TAGGED_INTEGER.Denoted(schema, path) == Compound(0xA0, [Primitive(2, [5])])
    ensures TAGGED_INTEGER.Rewritten() == Primitive(0x80, [5])
  {
    OneOf(TAGGED_INTEGER, schema, path);
    OneOf(FIVE, schema, path);
    assert TAGGED_INTEGER.Bytes() == [0xA0, 0x80, 2, 1, 5, 0, 0];
    hide Element.Bytes, BytesAll, RewrittenAll, DenotedAll, LeavesAll, JoinedAll, Der.Element;
    assert Fine(FIVE, true, 1) && FIVE in TAGGED_INTEGER.kids;
    assert TAGGED_INTEGER.Fragmented() && Fine(TAGGED_INTEGER, false, 0);
  }

  /** A tag around a string is taken for an implicit one, which is right exactly if the schema says so. */
  lemma TaggedString(schema: Schema, path: seq<nat>)
    ensures Converts([0xA0, 0x80, 4, 1, 0xAA, 0, 0], [TAGGED_STRING])
    ensures TAGGED_STRING.Rewritten() == Primitive(0x80, [0xAA])
    ensures TAGGED_STRING.Clean(schema, path) <==> schema(path) == OctetSegments
    ensures TAGGED_STRING.Denoted(schema, path) ==
            if schema(path) == OctetSegments then Primitive(0x80, [0xAA]) else Compound(0xA0, [Primitive(4, [0xAA])])
  {
    OneOf(TAGGED_STRING, schema, path);
    OneOf(LEAF, schema, path);
    assert TAGGED_STRING.Bytes() == [0xA0, 0x80, 4, 1, 0xAA, 0, 0];
    assert LEAF.Leaves()[1..] == [] && Flat(LEAF.Leaves()) == [0xAA];
    hide Element.Bytes, BytesAll, RewrittenAll, DenotedAll, LeavesAll, JoinedAll, Der.Element;
    assert Fine(LEAF, true, 1) && LEAF in TAGGED_STRING.kids && !LEAF.IsSegment(3) && LEAF.IsSegment(4);
    assert TAGGED_STRING.Fragmented() && Fine(TAGGED_STRING, false, 0);
  }

  lemma OneOf(e: Element, schema: Schema, path: seq<nat>)
    ensures BytesAll([e]) == e.Bytes() && RewrittenAll([e]) == [e.Rewritten()] && JoinedAll([e]) == e.Joined()
    ensures LeavesAll([e]) == e.Leaves() && DenotedAll([e], schema, path, 0) == [e.Denoted(schema, path + [0])]
  {
    assert [e][1..] == [];
  }

  lemma TwoOf(e: Element, f: Element, schema: Schema, path: seq<nat>)
    ensures BytesAll([e, f]) == e.Bytes() + f.Bytes() && RewrittenAll([e, f]) == [e.Rewritten(), f.Rewritten()]
    ensures JoinedAll([e, f]) == e.Joined() + f.Joined() && LeavesAll([e, f]) == e.Leaves() + f.Leaves()
    ensures DenotedAll([e, f], schema, path, 0) == [e.Denoted(schema, path + [0]), f.Denoted(schema, path + [1])]
  {
    OneOf(f, schema, path);
    assert [e, f][1..] == [f];
    assert DenotedAll([f], schema, path, 1) == [f.Denoted(schema, path + [1])];
  }

  /** Sequences of indefinite length inside one another. */
  function Nest(k: nat): Element {
    if k == 0 then Prim(5, []) else Indef(0x30, [Nest(k - 1)])
  }

  /** They are converted exactly down to a depth of 2048. */
  lemma DeepestNest(k: nat)
    requires k > 0 && 6 * k + 2 < MAX_LENGTH
    ensures AllFine([Nest(k)], false, 0) <==> k <= 2048
  {
    NestFits(k, 0);
    hide Nest, Element.Fits, Element.Valid;
    var es := [Nest(k)];
    assert Nest(k) in es && forall e :: e in es ==> e == Nest(k);
  }

  lemma {:induction false} NestFits(k: nat, depth: nat)
    requires 6 * k + 2 < MAX_LENGTH
    ensures Nest(k).Valid() && |Nest(k).Rewritten().Encode()| <= 6 * k + 2
    ensures Nest(k).Fits(false, depth) <==> k == 0 || depth + k <= 2048
  {
    if k > 0 {
      var e := Nest(k - 1);
      NestFits(k - 1, depth + 1);
      OneOf(e, _ => Structure, []);
      EncodeOne(e.Rewritten());
      assert Nest(k).kids == [e] && e in Nest(k).kids;
      assert !Nest(k).Fragmented();
    }
  }

  lemma NotConverted(data: seq<Octet>)
    requires Refused(data, false, false, 0)
    ensures forall forest :: !Converts(data, forest)
  {
    hide Fine;
    forall forest ensures !Converts(data, forest) {
      if BytesAll(forest) == data {
        assert Reads(data, forest, [], false);
      }
    }
  }

  lemma OneConversion(data: seq<Octet>, forest: seq<Element>)
    requires Converts(data, forest)
    ensures forall f :: Converts(data, f) ==> f == forest
  {
    hide Fine;
    forall f | Converts(data, f) ensures f == forest {
      FineIsValid(f, false, 0);
      FineIsValid(forest, false, 0);
      SameReading(f, [], forest, [], false);
    }
  }
}
