/**
 The byte string reader of libressl ssl/bs_cbs.c: a cursor whose getters consume what they return. Strict element
 parsing accepts exactly definite lengths in the fewest octets.
 */
module CbsReader {
  import opened Arithmetic
  import opened Octets
  import opened Der

  class Cbs {
    var data: seq<Octet>      // what is left

    constructor (data: seq<Octet>)
      ensures this.data == data
    {
      this.data := data;
    }

    /** cbs_get, which all getters use; CBS_get_bytes and CBS_skip are the same. */
    method Get(n: nat) returns (ok: bool, p: seq<Octet>)
      modifies this
      ensures ok <==> n <= |old(data)|
      ensures ok ==> p == old(data)[..n] && data == old(data)[n..]
      ensures !ok ==> data == old(data) && p == []
    {
      if |data| < n {
        return false, [];
      }
      p := data[..n];
      data := data[n..];
      return true, p;
    }

    /** cbs_get_u: a big-endian number of 1 to 4 bytes. */
    method GetU(len: nat) returns (ok: bool, v: nat)
      modifies this
      ensures ok <==> 1 <= len <= 4 && len <= |old(data)|
      ensures ok ==> v == Num(old(data)[..len]) && data == old(data)[len..]
      ensures !ok ==> data == old(data)
    {
      v := 0;
      if len < 1 || len > 4 {
        return false, 0;
      }
      var p;
      ok, p := Get(len);
      if !ok {
        return;
      }
      var i := 0;
      while i < len
        invariant 0 <= i <= len && v == Num(p[..i])
      {
        assert p[..i + 1][..i] == p[..i];
        v := v * 256 + p[i];
        i := i + 1;
      }
      assert p[..len] == p;
    }

    /** cbs_get_length_prefixed. */
    method GetLengthPrefixed(lenLen: nat) returns (ok: bool, contents: seq<Octet>)
      modifies this
      ensures ok <==> 1 <= lenLen <= 4 && lenLen <= |old(data)| && lenLen + Num(old(data)[..lenLen]) <= |old(data)|
      ensures ok ==> |contents| == Num(old(data)[..lenLen])
      ensures ok ==> old(data) == old(data)[..lenLen] + contents + data
    {
      contents := [];
      var len;
      ok, len := GetU(lenLen);
      if !ok {
        return;
      }
      ok, contents := Get(len);
    }

    /**
     cbs_get_any_asn1_element_internal: the element at the front, with its header. Strictly, it is there exactly
     when the front is an encoding of definite length; otherwise the header of an indefinite-length element is taken
     as well.
     */
    method GetAnyElement(strict: bool) returns (ok: bool, out: seq<Octet>, tag: Octet, headerLen: nat)
      modifies this
      ensures ok ==> old(data) == out + data && ShortTag(tag)
      ensures ok ==> IsElement(out, tag, headerLen) || (!strict && IsIndefinite(out, tag) && headerLen == 2)
      ensures !ok ==> data == old(data)
      ensures !ok ==> !StartsWithElement(old(data)) && (strict || !StartsIndefinite(old(data)))
    {
      hide Length, IsElement, StartsWithElement;
      out, tag, headerLen, ok := [], 0, 0, false;
      if |data| < 2 {
        TooShort(data);
        return;
      }
      tag := data[0];
      if tag % 32 == 31 {
        NotAnElement(data);
        return;
      }
      if data[1] == 0x80 {
        // indefinite length: not strictly, and not for a primitive
        NoLength(data[1..]);
        NotAnElement(data);
        if !strict && Constructed(tag) {
          headerLen := 2;
          ok, out := Get(2);
        }
        return;
      }
      var fits, n, k := GetLength(data[1..]);
      if !fits {
        NotAnElement(data);
        return;
      }
      headerLen := 1 + k;
      ghost var was := data;
      ok, out := Get(headerLen + n);
      FoundElement(was, n, k);
    }

    /** cbs_get_asn1 without the header: the contents of an element of definite length with this tag. */
    method GetAsn1(tagValue: Octet) returns (ok: bool, contents: seq<Octet>)
      modifies this
      ensures ok <==> StartsWithElement(old(data)) && old(data)[0] == tagValue
      ensures ok ==> |contents| <= MAX_LENGTH && old(data) == Element(tagValue, contents) + data
      ensures |data| <= |old(data)|
    {
      hide StartsWithElement;
      var out, tag, headerLen;
      ok, out, tag, headerLen := GetAnyElement(true);
      if !ok {
        return false, [];
      }
      ElementIsThere(out, tag, headerLen, data);
      if tag != tagValue {
        return false, [];
      }
      contents := out[headerLen..];
    }
  }

  lemma ElementIsThere(out: seq<Octet>, tag: Octet, headerLen: nat, rest: seq<Octet>)
    requires IsElement(out, tag, headerLen) && ShortTag(tag)
    ensures StartsWithElement(out + rest) && (out + rest)[0] == tag
  {
    AfterTag(tag, out[headerLen..], rest);
  }

  /** These length octets are at the front. */
  ghost predicate StartsWithLength(b: seq<Octet>, n: nat) {
    n <= MAX_LENGTH && |Length(n)| <= |b| && b[..|Length(n)|] == Length(n)
  }

  /** The length of an element that is not indefinite: exactly the minimal encodings are accepted. */
  method GetLength(b: seq<Octet>) returns (ok: bool, n: nat, k: nat)
    requires b != [] && b[0] != 0x80
    ensures ok ==> StartsWithLength(b, n) && k == |Length(n)|
    ensures !ok ==> forall m :: !StartsWithLength(b, m)
  {
    n, k := 0, 1;
    if b[0] < 0x80 {
      n := b[0];
      return true, n, 1;
    }
    var numBytes: nat := b[0] % 0x80;
    if numBytes == 0x7f || numBytes > 4 || |b| < 1 + numBytes {
      return false, 0, 0;
    }
    n := Num(b[1..1 + numBytes]);
    LongForm(b, numBytes);
    ok := n >= 128 && n / Pow(256, numBytes - 1) != 0;
    k := 1 + numBytes;
  }

  /** A length in the long form is the minimal one if it needs the long form and its first octet. */
  lemma LongForm(b: seq<Octet>, numBytes: nat)
    requires 1 <= numBytes <= 4 && |b| >= 1 + numBytes && b[0] == 0x80 + numBytes
    ensures var v := Num(b[1..1 + numBytes]);
      if v >= 128 && v / Pow(256, numBytes - 1) != 0 then StartsWithLength(b, v) && |Length(v)| == 1 + numBytes
      else forall n :: !StartsWithLength(b, n)
  {
    hide Num, Digits;
    var d := b[1..1 + numBytes];
    var v := Num(d);
    DigitsOfNum(d);
    Powers256();
    if v >= 128 && v / Pow(256, numBytes - 1) != 0 {
      assert LengthSize(v) == numBytes;
      assert b[..1 + numBytes] == [b[0]] + d;
    } else {
      forall n | StartsWithLength(b, n) ensures false {
        assert b[0] == Length(n)[0];
        assert LengthSize(n) == numBytes && Length(n)[1..] == Digits(n, numBytes) == d;
        NumOfDigits(n, numBytes);
      }
    }
  }

  /** Some element of definite length is at the front. */
  ghost predicate StartsWithElement(b: seq<Octet>) {
    exists content, rest :: |content| <= MAX_LENGTH && b != [] && ShortTag(b[0]) && b == Element(b[0], content) + rest
  }

  ghost predicate StartsIndefinite(b: seq<Octet>) {
    |b| >= 2 && ShortTag(b[0]) && Constructed(b[0]) && b[1] == 0x80
  }

  lemma TooShort(b: seq<Octet>)
    requires |b| < 2
    ensures !StartsWithElement(b)
  {}

  lemma NoLength(b: seq<Octet>)
    requires b != [] && b[0] == 0x80
    ensures forall n :: !StartsWithLength(b, n)
  {
    forall n: nat | n <= MAX_LENGTH ensures !StartsWithLength(b, n) {
      assert Length(n)[0] != 0x80;
      assert |Length(n)| <= |b| ==> b[..|Length(n)|][0] == b[0];
    }
  }

  /** Without length octets after a short tag there is no element. */
  lemma NotAnElement(b: seq<Octet>)
    requires |b| >= 2 && (!ShortTag(b[0]) || forall n :: !StartsWithLength(b[1..], n))
    ensures !StartsWithElement(b)
  {
    forall content, rest | |content| <= MAX_LENGTH && b == Element(b[0], content) + rest
      ensures StartsWithLength(b[1..], |content|)
    {
      AfterTag(b[0], content, rest);
    }
  }

  lemma FoundElement(b: seq<Octet>, n: nat, k: nat)
    requires b != [] && ShortTag(b[0]) && StartsWithLength(b[1..], n) && k == |Length(n)|
    ensures 1 + k + n <= |b| ==> IsElement(b[..1 + k + n], b[0], 1 + k)
    ensures 1 + k + n > |b| ==> !StartsWithElement(b)
  {
    hide Length;
    if 1 + k + n <= |b| {
      var out := b[..1 + k + n];
      assert out[..1 + k] == [b[0]] + b[1..][..k];
      assert out == out[..1 + k] + out[1 + k..];
    } else {
      forall content, rest | |content| <= MAX_LENGTH && b == Element(b[0], content) + rest ensures false {
        AfterTag(b[0], content, rest);
        LengthIsPrefixFree(n, |content|, b[1..][k..], content + rest);
      }
    }
  }

  /** An element of definite length with a header of this length. */
  ghost predicate IsElement(out: seq<Octet>, tag: Octet, headerLen: nat) {
    && headerLen <= |out| && |out| - headerLen <= MAX_LENGTH
    && out == Element(tag, out[headerLen..]) && headerLen == |Header(tag, |out| - headerLen)|
  }

  /** The two bytes that open an element of indefinite length. */
  ghost predicate IsIndefinite(out: seq<Octet>, tag: Octet) {
    Constructed(tag) && out == [tag, 0x80]
  }

  /** The elements at the front are what they were built from. */
  lemma SameElement(tag: Octet, content: seq<Octet>, rest: seq<Octet>)
    requires |content| <= MAX_LENGTH && ShortTag(tag)
    ensures StartsWithElement(Element(tag, content) + rest) && (Element(tag, content) + rest)[0] == tag
  {
    AfterTag(tag, content, rest);
  }

  /**
   Strict parsing of a whole string of elements, going into constructed ones: it succeeds exactly on the encodings
   of forests, and finds the forest.
   */
  method StrictForest(data: seq<Octet>) returns (ok: bool, forest: seq<Tree>)
    ensures ok ==> AllValid(forest) && EncodeAll(forest) == data
    ensures !ok ==> forall f :: AllValid(f) ==> EncodeAll(f) != data
    decreases |data|
  {
    hide Element, Length, IsElement, StartsWithElement, EncodeAll, AllValid;
    var cbs := new Cbs(data);
    forest := [];
    Empty(data);
    while cbs.data != []
      invariant AllValid(forest) && EncodeAll(forest) + cbs.data == data
      decreases |cbs.data|
    {
      ghost var before := cbs.data;
      var fits, out, tag, headerLen := cbs.GetAnyElement(true);
      if !fits {
        NoForest(forest, before);
        return false, [];
      }
      Shorter(out, tag, headerLen);
      var content := out[headerLen..];
      var tree := Primitive(tag, content);
      if Constructed(tag) {
        var inside, kids := StrictForest(content);
        if !inside {
          NoKids(forest, tag, content, cbs.data);
          return false, [];
        }
        tree := Compound(tag, kids);
      }
      OneTreeMore(forest, tree, tag, content);
      assert EncodeAll(forest) + out + cbs.data == EncodeAll(forest) + before;
      forest := forest + [tree];
    }
    ok := true;
  }

  lemma Empty(data: seq<Octet>)
    ensures AllValid([]) && EncodeAll([]) + data == data
  {}

  lemma Shorter(out: seq<Octet>, tag: Octet, headerLen: nat)
    requires IsElement(out, tag, headerLen)
    ensures 0 < headerLen <= |out| && out == Element(tag, out[headerLen..]) && |out| - headerLen <= MAX_LENGTH
  {}

  lemma OneTreeMore(forest: seq<Tree>, tree: Tree, tag: Octet, content: seq<Octet>)
    requires AllValid(forest) && ShortTag(tag) && |content| <= MAX_LENGTH
    requires if Constructed(tag) then tree.Compound? && tree.tag == tag && AllValid(tree.kids)
               && EncodeAll(tree.kids) == content
             else tree == Primitive(tag, content)
    ensures AllValid(forest + [tree]) && EncodeAll(forest + [tree]) == EncodeAll(forest) + Element(tag, content)
  {
    EncodeOne(tree);
    EncodeConcat(forest, [tree]);
  }

  /** What is left after a forest is the encoding of the rest of any longer forest. */
  lemma {:induction false} RestOfForest(forest: seq<Tree>, rest: seq<Octet>, f: seq<Tree>)
    requires AllValid(forest) && AllValid(f) && EncodeAll(f) == EncodeAll(forest) + rest
    ensures |forest| <= |f| && EncodeAll(f[|forest|..]) == rest
  {
    hide Element, Tree.Encode, Tree.Valid;
    if forest == [] {
      assert f[0..] == f;
    } else {
      var s := forest[0];
      ValidIsElement(s);
      assert s.Encode() + EncodeAll(forest[1..]) + rest == s.Encode() + (EncodeAll(forest[1..]) + rest);
      if f != [] {
        var t := f[0];
        ValidIsElement(t);
        ElementIsPrefixFree(s.tag, Content(s), EncodeAll(forest[1..]) + rest, t.tag, Content(t), EncodeAll(f[1..]));
        RestOfForest(forest[1..], rest, f[1..]);
        assert f[1..][|forest| - 1..] == f[|forest|..];
      }
    }
  }

  lemma NoForest(forest: seq<Tree>, rest: seq<Octet>)
    requires AllValid(forest) && rest != [] && !StartsWithElement(rest)
    ensures forall f :: AllValid(f) ==> EncodeAll(f) != EncodeAll(forest) + rest
  {
    forall f | AllValid(f) && EncodeAll(f) == EncodeAll(forest) + rest ensures false {
      RestOfForest(forest, rest, f);
      var g := f[|forest|..];
      if g != [] {
        ValidIsElement(g[0]);
        SameElement(g[0].tag, Content(g[0]), EncodeAll(g[1..]));
      }
    }
  }

  lemma NoKids(forest: seq<Tree>, tag: Octet, content: seq<Octet>, rest: seq<Octet>)
    requires AllValid(forest) && |content| <= MAX_LENGTH && Constructed(tag)
    requires forall f :: AllValid(f) ==> EncodeAll(f) != content
    ensures forall f :: AllValid(f) ==> EncodeAll(f) != EncodeAll(forest) + (Element(tag, content) + rest)
  {
    forall f | AllValid(f) && EncodeAll(f) == EncodeAll(forest) + (Element(tag, content) + rest) ensures false {
      RestOfForest(forest, Element(tag, content) + rest, f);
      var g := f[|forest|..];
      if g != [] {
        ValidIsElement(g[0]);
        ElementIsPrefixFree(g[0].tag, Content(g[0]), EncodeAll(g[1..]), tag, content, rest);
        assert AllValid(g[0].kids);
      }
    }
  }
}
