/** The strings of RFC 8259 section 7, written out, and lua-cjson's tokenizer (lua_cjson.c) against them. */
module JsonGrammar {
  import opened Octets
  import opened JsonString
  import Utf8

  /** The character is the hexadecimal digit of v, in either case. */
  predicate HexAt(c: Octet, v: nat) {
    v < 16 && (c == "0123456789abcdef"[v] as int || c == "0123456789ABCDEF"[v] as int)
  }

  /** \u and the four hexadecimal digits of v, most significant first. */
  predicate IsUnit(t: seq<Octet>, v: nat) {
    && |t| == 6 && t[0] == '\\' as int && t[1] == 'u' as int && v < 0x1_0000
    && HexAt(t[2], v / 0x1000) && HexAt(t[3], v / 0x100 % 16) && HexAt(t[4], v / 16 % 16) && HexAt(t[5], v % 16)
  }

  /** The escape by UTF-16 of a scalar value: one unit, or two beyond 16 bits. */
  predicate IsUtf16(t: seq<Octet>, cp: nat) {
    if cp < 0x1_0000 then IsUnit(t, cp)
    else
      && |t| == 12 && IsUnit(t[..6], 0xD800 + (cp - 0x1_0000) / 0x400)
      && IsUnit(t[6..], 0xDC00 + (cp - 0x1_0000) % 0x400)
  }

  const ESCAPES: string := "\"\\/bfnrt"
  const MEANT: seq<Octet> := [34, 92, 47, 8, 12, 10, 13, 9]

  /** One character of a string: itself, a short escape, or an escape by UTF-16 for its UTF-8. */
  ghost predicate Spells(t: seq<Octet>, out: seq<Octet>) {
    || (|t| == 1 && out == t && t[0] != 0 && t[0] != '"' as int && t[0] != '\\' as int)
    || (|t| == 2 && t[0] == '\\' as int && exists i :: 0 <= i < 8 && t[1] == ESCAPES[i] as int && out == [MEANT[i]])
    || (exists cp: nat :: Utf8.Scalar(cp) && IsUtf16(t, cp) && Utf8.WellFormed(out) && Utf8.CodePoint(out) == cp)
  }

  ghost predicate SpellsAll(t: seq<Octet>, out: seq<Octet>)
    decreases |t|
  {
    if t == [] then out == []
    else exists k: nat, j: nat ::
           0 < k <= |t| && j <= |out| && Spells(t[..k], out[..j]) && SpellsAll(t[k..], out[j..])
  }

  /** hexdigit2int and the digits. */
  lemma HexDigits(c: Octet, v: nat)
    ensures HexAt(c, v) <==> HexDigit2Int(c) == v
  {}

  lemma HexSplits(v: nat, a: nat, b: nat, c: nat, d: nat)
    requires v < 0x1_0000 && a < 16 && b < 16 && c < 16 && d < 16
    ensures v == a * 0x1000 + b * 0x100 + c * 0x10 + d <==>
      a == v / 0x1000 && b == v / 0x100 % 16 && c == v / 16 % 16 && d == v % 16
  {
    var w, x := v / 16, v / 0x100;
    assert x == w / 16 && v / 0x1000 == x / 16;
    LastDigit(v, (a * 16 + b) * 16 + c, d);
    LastDigit(w, a * 16 + b, c);
    LastDigit(x, a, b);
  }

  lemma LastDigit(v: nat, q: nat, r: nat)
    requires r < 16
    ensures v == 16 * q + r <==> q == v / 16 && r == v % 16
  {}

  lemma DigitBelow16(c: Octet)
    ensures HexDigit2Int(c) < 16
  {}

  lemma FourDigits(t: seq<Octet>, v: nat)
    requires |t| == 6 && v < 0x1_0000
    ensures IsUnit(t, v) <==> t[0] == BACKSLASH && t[1] == LETTER_U && IsHex4(t, 2) && Hex4(t, 2) == v
  {
    hide HexDigit2Int, HexAt;
    HexDigits(t[2], v / 0x1000);
    HexDigits(t[3], v / 0x100 % 16);
    HexDigits(t[4], v / 16 % 16);
    HexDigits(t[5], v % 16);
    DigitBelow16(t[2]);
    DigitBelow16(t[3]);
    DigitBelow16(t[4]);
    DigitBelow16(t[5]);
    if IsHex4(t, 2) {
      HexSplits(v, HexDigit2Int(t[2]), HexDigit2Int(t[3]), HexDigit2Int(t[4]), HexDigit2Int(t[5]));
    }
  }

  lemma UnitAt(data: seq<Octet>, p: nat, v: nat)
    requires p + 6 <= |data| && v < 0x1_0000
    ensures IsUnit(data[p..p + 6], v) <==>
      data[p] == BACKSLASH && data[p + 1] == LETTER_U && IsHex4(data, p + 2) && Hex4(data, p + 2) == v
  {
    hide HexDigit2Int, IsUnit;
    var t := data[p..p + 6];
    FourDigits(t, v);
    assert t[2] == data[p + 2] && t[3] == data[p + 3] && t[4] == data[p + 4] && t[5] == data[p + 5];
    assert t[0] == data[p] && t[1] == data[p + 1];
  }

  /** The tokenizer takes the escapes of all scalar values. */
  lemma Utf16Read(data: seq<Octet>, p: nat, k: nat, cp: nat)
    requires Utf8.Scalar(cp) && p + k <= |data| && IsUtf16(data[p..p + k], cp)
    ensures k == if cp < 0x1_0000 then 6 else 12
    ensures data[p] == BACKSLASH && data[p + 1] == LETTER_U && UnicodeItem(data, p) == Item(Utf8.Encode(cp), k)
  {
    hide IsHex4, Hex4, IsUnit, Utf8.Encode;
    if cp < 0x1_0000 {
      IsSix(data[p..p + k], cp);
      UnitAt(data, p, cp);
    } else {
      var high, low := 0xD800 + (cp - 0x1_0000) / 0x400, 0xDC00 + (cp - 0x1_0000) % 0x400;
      assert data[p..p + 12][..6] == data[p..p + 6] && data[p..p + 12][6..] == data[p + 6..p + 6 + 6];
      UnitAt(data, p, high);
      UnitAt(data, p + 6, low);
    }
  }

  lemma IsSix(t: seq<Octet>, v: nat)
    requires IsUnit(t, v)
    ensures |t| == 6
  {}

  /** And what it takes is the escape of a scalar value. */
  lemma Utf16Only(data: seq<Octet>, p: nat)
    requires p + 1 < |data| && data[p] == BACKSLASH && data[p + 1] == LETTER_U && UnicodeItem(data, p).Item?
    ensures var r := UnicodeItem(data, p);
      && p + r.used <= |data|
      && exists cp: nat :: Utf8.Scalar(cp) && IsUtf16(data[p..p + r.used], cp) && r.out == Utf8.Encode(cp)
  {
    hide IsHex4, Hex4, IsUnit, Utf8.Encode;
    HexWithin(data, p + 2);
    var unit := Hex4(data, p + 2);
    UnitAt(data, p, unit);
    if 0xD800 <= unit < 0xE000 {
      HexWithin(data, p + 8);
      var low := Hex4(data, p + 8);
      UnitAt(data, p + 6, low);
      var cp := 0x1_0000 + (unit - 0xD800) * 0x400 + (low - 0xDC00);
      assert data[p..p + 12][..6] == data[p..p + 6] && data[p..p + 12][6..] == data[p + 6..p + 6 + 6];
      assert (cp - 0x1_0000) / 0x400 == unit - 0xD800 && (cp - 0x1_0000) % 0x400 == low - 0xDC00;
      assert Utf8.Scalar(cp) && IsUtf16(data[p..p + 12], cp);
    } else {
      assert Utf8.Scalar(unit) && IsUtf16(data[p..p + 6], unit);
    }
  }

  lemma HexWithin(data: seq<Octet>, p: nat)
    requires IsHex4(data, p)
    ensures p + 4 <= |data|
  {}

  /** The short escapes. */
  lemma ShortEscapes(c: Octet, b: Octet)
    ensures (c != LETTER_U && Escape2Char(c) != 0 && Escape2Char(c) == b) <==>
      exists i :: 0 <= i < 8 && c == ESCAPES[i] as int && b == MEANT[i]
  {
    assert ESCAPES[0] == '"' && ESCAPES[1] == '\\' && ESCAPES[2] == '/' && ESCAPES[3] == 'b';
    assert ESCAPES[4] == 'f' && ESCAPES[5] == 'n' && ESCAPES[6] == 'r' && ESCAPES[7] == 't';
  }

  /** One character of a string is taken as the grammar says. */
  lemma ItemSpells(data: seq<Octet>, p: nat)
    requires p + 1 < |data| && data[p] != 0 && data[p] != QUOTE && ItemAt(data, p).Item?
    ensures var r := ItemAt(data, p);
      p + r.used <= |data| && r.used > 0 && Spells(data[p..p + r.used], r.out)
  {
    hide UnicodeItem, Escape2Char, IsUtf16;
    var r := ItemAt(data, p);
    if data[p] == BACKSLASH {
      if data[p + 1] == LETTER_U {
        Utf16Only(data, p);
        UnicodeIsWellFormed(data, p);
        var cp: nat :| Utf8.Scalar(cp) && IsUtf16(data[p..p + r.used], cp) && r.out == Utf8.Encode(cp);
        Utf8.EncodeIsWellFormed(cp);
      } else {
        ShortEscapes(data[p + 1], Escape2Char(data[p + 1]));
      }
    }
  }

  /** And whatever the grammar allows is taken. */
  lemma SpellsItem(data: seq<Octet>, p: nat, k: nat, out: seq<Octet>)
    requires p + k <= |data| && p + 1 < |data| && Spells(data[p..p + k], out)
    ensures k > 0 && data[p] != 0 && data[p] != QUOTE && ItemAt(data, p) == Item(out, k)
  {
    hide UnicodeItem, Escape2Char, IsUtf16, Utf8.WellFormed, Utf8.CodePoint;
    var t := data[p..p + k];
    if cp: nat :| Utf8.Scalar(cp) && IsUtf16(t, cp) && Utf8.WellFormed(out) && Utf8.CodePoint(out) == cp {
      Utf16Read(data, p, k, cp);
      Utf8.WellFormedIsEncode(out);
    } else if k == 2 {
      assert t[1] == data[p + 1];
      var i :| 0 <= i < 8 && t[1] == ESCAPES[i] as int && out == [MEANT[i]];
      ShortEscapes(data[p + 1], MEANT[i]);
    }
  }

  /** The text from p on spells a string that ends with a quote. */
  ghost predicate StringAt(data: seq<Octet>, p: nat, end: nat, out: seq<Octet>) {
    p < end < |data| && data[end - 1] == '"' as int && SpellsAll(data[p..end - 1], out)
  }

  ghost predicate NoString(data: seq<Octet>, p: nat) {
    forall end, out :: !StringAt(data, p, end, out)
  }

  /** A token is what the text spells. */
  lemma {:induction false} TokenIsSpelled(data: seq<Octet>, p: nat)
    requires DecodeFrom(data, p).Good? && Terminated(data)
    ensures StringAt(data, p, DecodeFrom(data, p).end, DecodeFrom(data, p).out)
    decreases |data| - p
  {
    hide ItemAt, Spells;
    var r := DecodeFrom(data, p);
    if data[p] != QUOTE {
      ItemSpells(data, p);
      var k, out := ItemAt(data, p).used, ItemAt(data, p).out;
      TokenIsSpelled(data, p + k);
      var t := data[p..r.end - 1];
      assert t[..k] == data[p..p + k] && t[k..] == data[p + k..r.end - 1];
      assert r.out[..|out|] == out && r.out[|out|..] == DecodeFrom(data, p + k).out;
    }
  }

  /** And what is spelled is the token. */
  lemma {:induction false} SpelledIsToken(data: seq<Octet>, p: nat, end: nat, out: seq<Octet>)
    requires StringAt(data, p, end, out)
    ensures DecodeFrom(data, p) == Good(out, end)
    decreases end - p
  {
    hide ItemAt, Spells;
    var t := data[p..end - 1];
    if t != [] {
      var k: nat, j: nat :|
        0 < k <= |t| && j <= |out| && Spells(t[..k], out[..j]) && SpellsAll(t[k..], out[j..]);
      assert t[..k] == data[p..p + k] && t[k..] == data[p + k..end - 1];
      SpellsItem(data, p, k, out[..j]);
      SpelledIsToken(data, p + k, end, out[j..]);
      assert out == out[..j] + out[j..];
    }
  }

  /** json_next_string_token, at an opening quote: the token is what the text spells, or it spells none. */
  method ReadString(parser: Parser) returns (ok: bool, token: seq<Octet>)
    requires parser.Valid() && parser.data[parser.ptr] == QUOTE
    modifies parser`ptr, parser.tmp`length, parser.tmp.buf
    ensures parser.Valid()
    ensures ok ==> StringAt(parser.data, old(parser.ptr) + 1, parser.ptr, token)
    ensures !ok ==> NoString(parser.data, old(parser.ptr) + 1)
  {
    hide StringAt, DecodeFrom;
    ghost var p := parser.ptr + 1;
    ok, token := parser.NextStringToken();
    if ok {
      TokenIsSpelled(parser.data, p);
    } else {
      forall end, out ensures !StringAt(parser.data, p, end, out) {
        if StringAt(parser.data, p, end, out) {
          SpelledIsToken(parser.data, p, end, out);
        }
      }
    }
  }

  lemma HexDigitIs(n: nat)
    requires n < 16
    ensures HexAt(HexDigit(n), n)
  {}

  /** What the encoder writes: short escapes, escapes of the other controls and of delete, and bytes as they are. */
  lemma EncoderTable(b: Octet)
    ensures var e := Escaped(b);
      if b in MEANT then |e| == 2 && Spells(e, [b]) else if b < 32 || b == 127 then IsUnit(e, b) else e == [b]
  {
    hide Escape2Char, IsUtf16, Utf8.WellFormed, Utf8.CodePoint, HexAt, HexDigit;
    assert MEANT[0] == 34 && MEANT[1] == 92 && MEANT[2] == 47 && MEANT[3] == 8;
    assert MEANT[4] == 12 && MEANT[5] == 10 && MEANT[6] == 13 && MEANT[7] == 9;
    if b in MEANT {
      EscapeReadsBack(b);
      ShortEscapes(Escaped(b)[1], b);
    } else if b < 32 || b == 127 {
      HexDigitIs(b / 16);
      HexDigitIs(b % 16);
      HexDigitIs(0);
      assert HexDigit(0) == 48 by { Zero(); }
    }
  }

  lemma Zero()
    ensures HexDigit(0) == 48
  {}

  lemma EscapeReadsBack(b: Octet)
    requires b in MEANT
    ensures |Escaped(b)| == 2 && Escaped(b)[1] != LETTER_U && Escape2Char(Escaped(b)[1]) == b != 0
  {}
}
