/**
 Encodings of elements with one-byte tags and definite lengths in the fewest octets (X.690 sections 8.1.2, 8.1.3 and
 10.1).
 */
module Der {
  import opened Arithmetic
  import opened Octets

  const MAX_LENGTH: nat := 0xffff_ffff      // lengths have at most four octets here

  /** Tags with number 31 introduce long tags, which are not supported. */
  predicate ShortTag(tag: Octet) {
    tag % 32 != 31
  }

  predicate Constructed(tag: Octet) {
    tag / 32 % 2 == 1
  }

  /** How many octets a length needs. */
  function LengthSize(n: nat): (k: nat)
    requires n <= MAX_LENGTH
    ensures 1 <= k <= 4 && n < Pow(256, k) && (n > 0xff ==> n >= Pow(256, k - 1))
  {
    Powers256();
    if n > 0xff_ffff then 4 else if n > 0xffff then 3 else if n > 0xff then 2 else 1
  }

  lemma Powers256()
    ensures Pow(256, 0) == 1 && Pow(256, 1) == 0x100 && Pow(256, 2) == 0x1_0000
    ensures Pow(256, 3) == 0x100_0000 && Pow(256, 4) == 0x1_0000_0000
  {}

  /** The length octets, in the short form where it will do. */
  function Length(n: nat): (b: seq<Octet>)
    requires n <= MAX_LENGTH
    ensures b != []
  {
    if n <= 0x7f then [n] else [0x80 + LengthSize(n)] + Digits(n, LengthSize(n))
  }

  function Header(tag: Octet, n: nat): seq<Octet>
    requires n <= MAX_LENGTH
  {
    [tag] + Length(n)
  }

  /** The encoded element; content that is too long has no encoding. */
  function Element(tag: Octet, content: seq<Octet>): seq<Octet> {
    if |content| <= MAX_LENGTH then Header(tag, |content|) + content else []
  }

  lemma LengthIs(n: nat)
    requires n < 0x1_0000_0000
    ensures Length(n) ==
      if n < 0x80 then [n]
      else if n < 0x100 then [0x81, n]
      else if n < 0x1_0000 then [0x82, n / 0x100, n % 0x100]
      else if n < 0x100_0000 then [0x83, n / 0x1_0000, n / 0x100 % 0x100, n % 0x100]
      else [0x84, n / 0x100_0000, n / 0x1_0000 % 0x100, n / 0x100 % 0x100, n % 0x100]
  {
    hide Digits;
    if n < 0x100 {
      OneDigit(n);
    } else if n < 0x1_0000 {
      TwoDigits(n);
    } else if n < 0x100_0000 {
      ThreeDigits(n);
    } else {
      FourDigits(n);
    }
  }

  /** Elements as X.690 writes them: the tag, one octet for short lengths or a count of length octets, the contents. */
  lemma ElementIs(tag: Octet, c: seq<Octet>)
    requires |c| < 0x1_0000_0000
    ensures var n := |c|;
      Element(tag, c) == [tag] + (
        if n < 0x80 then [n]
        else if n < 0x100 then [0x81, n]
        else if n < 0x1_0000 then [0x82, n / 0x100, n % 0x100]
        else if n < 0x100_0000 then [0x83, n / 0x1_0000, n / 0x100 % 0x100, n % 0x100]
        else [0x84, n / 0x100_0000, n / 0x1_0000 % 0x100, n / 0x100 % 0x100, n % 0x100]) + c
  {
    hide Length;
    LengthIs(|c|);
  }

  /** Bit 6 of a tag says constructed, and the bits below it, if not all set, are its number. */
  lemma TagBits(tag: bv8)
    ensures Constructed(tag as int) <==> tag & 0x20 != 0
    ensures ShortTag(tag as int) <==> tag & 0x1f != 0x1f
  {
    TagParts(tag);
  }

  lemma TagParts(tag: bv8)
    ensures tag as int / 32 % 2 == ((tag >> 5) & 1) as int && tag as int % 32 == (tag & 0x1f) as int
    ensures tag & 0x20 != 0 <==> (tag >> 5) & 1 == 1
  {}

  /** Length octets can be told from what follows them. */
  lemma LengthIsPrefixFree(m: nat, n: nat, x: seq<Octet>, y: seq<Octet>)
    requires m <= MAX_LENGTH && n <= MAX_LENGTH && Length(m) + x == Length(n) + y
    ensures m == n && x == y
  {
    var a, b := Length(m) + x, Length(n) + y;
    assert a[0] == Length(m)[0] && b[0] == Length(n)[0];
    if m > 0x7f {
      var k := LengthSize(m);
      assert LengthSize(n) == k;
      assert Digits(m, k) == a[1..1 + k] && Digits(n, k) == b[1..1 + k];
      NumOfDigits(m, k);
      NumOfDigits(n, k);
    }
    assert x == a[|Length(m)|..] && y == b[|Length(n)|..];
  }

  lemma AfterTag(tag: Octet, c: seq<Octet>, x: seq<Octet>)
    requires |c| <= MAX_LENGTH
    ensures var a := Element(tag, c) + x; a != [] && a[0] == tag && a[1..] == Length(|c|) + (c + x)
  {
    hide Length;
    assert Element(tag, c) + x == [tag] + (Length(|c|) + (c + x));
  }

  lemma ElementIsPrefixFree(s: Octet, c: seq<Octet>, x: seq<Octet>, t: Octet, d: seq<Octet>, y: seq<Octet>)
    requires |c| <= MAX_LENGTH && |d| <= MAX_LENGTH && Element(s, c) + x == Element(t, d) + y
    ensures s == t && c == d && x == y
  {
    hide Length;
    var a, b := Element(s, c) + x, Element(t, d) + y;
    AfterTag(s, c, x);
    AfterTag(t, d, y);
    LengthIsPrefixFree(|c|, |d|, c + x, d + y);
    assert c == (c + x)[..|c|] && d == (d + y)[..|d|];
    assert x == (c + x)[|c|..] && y == (d + y)[|d|..];
  }

  /** An element: octets, or elements inside a constructed one. */
  datatype Tree = Primitive(tag: Octet, content: seq<Octet>) | Compound(tag: Octet, kids: seq<Tree>) {
    function Encode(): seq<Octet> {
      match this
      case Primitive(tag, content) => Element(tag, content)
      case Compound(tag, kids) => Element(tag, EncodeAll(kids))
    }

    ghost predicate Valid() {
      match this
      case Primitive(tag, content) => ShortTag(tag) && !Constructed(tag) && |content| <= MAX_LENGTH
      case Compound(tag, kids) =>
        ShortTag(tag) && Constructed(tag) && |EncodeAll(kids)| <= MAX_LENGTH && (forall k :: k in kids ==> k.Valid())
    }
  }

  function EncodeAll(trees: seq<Tree>): seq<Octet> {
    if trees == [] then [] else trees[0].Encode() + EncodeAll(trees[1..])
  }

  lemma {:induction false} EncodeConcat(a: seq<Tree>, b: seq<Tree>)
    ensures EncodeAll(a + b) == EncodeAll(a) + EncodeAll(b)
  {
    hide Tree.Encode;
    if a == [] {
      assert a + b == b;
    } else {
      EncodeConcat(a[1..], b);
      assert (a + b)[1..] == a[1..] + b;
    }
  }

  /** What goes into an element is between its header and what follows. */
  lemma EncodeIs(tag: Octet, c: seq<Octet>, kids: seq<Tree>, next: Tree)
    ensures Primitive(tag, c).Encode() == Element(tag, c)
    ensures Compound(tag, kids).Encode() == Element(tag, EncodeAll(kids))
    ensures EncodeAll([]) == [] && EncodeAll(kids + [next]) == EncodeAll(kids) + next.Encode()
  {
    hide Element;
    EncodeConcat(kids, [next]);
    EncodeOne(next);
  }

  lemma EncodeOne(t: Tree)
    ensures EncodeAll([t]) == t.Encode()
  {
    assert EncodeAll([t][1..]) == [];
  }

  ghost predicate AllValid(trees: seq<Tree>) {
    forall t :: t in trees ==> t.Valid()
  }

  /** What the length octets of the tree count. */
  function Content(t: Tree): seq<Octet> {
    if t.Primitive? then t.content else EncodeAll(t.kids)
  }

  lemma ValidIsElement(t: Tree)
    requires t.Valid()
    ensures t.Encode() == Element(t.tag, Content(t)) && |Content(t)| <= MAX_LENGTH && t.Encode() != []
    ensures t.Compound? <==> Constructed(t.tag)
  {}

  /** Encodings of forests can be told apart. */
  lemma {:induction false} EncodingIsInjective(a: seq<Tree>, b: seq<Tree>)
    requires AllValid(a) && AllValid(b) && EncodeAll(a) == EncodeAll(b)
    ensures a == b
    decreases a
  {
    if a == [] || b == [] {
      if a != [] { ValidIsElement(a[0]); }
      if b != [] { ValidIsElement(b[0]); }
    } else {
      var s, t := a[0], b[0];
      ValidIsElement(s);
      ValidIsElement(t);
      ElementIsPrefixFree(s.tag, Content(s), EncodeAll(a[1..]), t.tag, Content(t), EncodeAll(b[1..]));
      if s.Compound? {
        EncodingIsInjective(s.kids, t.kids);
      }
      EncodingIsInjective(a[1..], b[1..]);
      assert a == [s] + a[1..] && b == [t] + b[1..];
    }
  }
}
