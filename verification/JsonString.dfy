/**
 Strings in JSON text (lua-cjson lua_cjson.c): escaping on the way out, tokenizing on the way in. Every byte string
 comes back unchanged, and a decoded string is shorter than its text, so that appending needs no checks.
 */
module JsonString {
  import opened Octets
  import opened StrBufs
  import Utf8

  const QUOTE: Octet := 34
  const BACKSLASH: Octet := 92
  const LETTER_U: Octet := 117

  function HexDigit(n: nat): Octet
    requires n < 16
  {
    if n < 10 then 48 + n else 87 + n
  }

  /** char2escape: the escape of a byte, or nothing for the bytes that stand for themselves. */
  function Char2Escape(b: Octet): (e: seq<Octet>)
    ensures |e| <= 6
  {
    if b == 8 then [BACKSLASH, 98]
    else if b == 9 then [BACKSLASH, 116]
    else if b == 10 then [BACKSLASH, 110]
    else if b == 12 then [BACKSLASH, 102]
    else if b == 13 then [BACKSLASH, 114]
    else if b == QUOTE || b == 47 || b == BACKSLASH then [BACKSLASH, b]
    else if b < 32 || b == 127 then [BACKSLASH, LETTER_U, 48, 48, HexDigit(b / 16), HexDigit(b % 16)]
    else []
  }

  function Escaped(b: Octet): seq<Octet> {
    if Char2Escape(b) == [] then [b] else Char2Escape(b)
  }

  function EscapedAll(s: seq<Octet>): seq<Octet> {
    if s == [] then [] else Escaped(s[0]) + EscapedAll(s[1..])
  }

  lemma {:induction false} EscapedConcat(a: seq<Octet>, b: seq<Octet>)
    ensures EscapedAll(a + b) == EscapedAll(a) + EscapedAll(b)
  {
    hide Escaped;
    if a == [] {
      assert a + b == b;
    } else {
      EscapedConcat(a[1..], b);
      assert (a + b)[1..] == a[1..] + b;
      var x, y := EscapedAll(a[1..]), EscapedAll(b);
      assert Escaped(a[0]) + x + y == Escaped(a[0]) + (x + y);
    }
  }

  lemma EscapedNext(s: seq<Octet>, i: nat)
    requires i < |s|
    ensures EscapedAll(s[..i + 1]) == EscapedAll(s[..i]) + Escaped(s[i])
  {
    assert s[..i + 1] == s[..i] + [s[i]];
    EscapedConcat(s[..i], [s[i]]);
    assert [s[i]][1..] == [];
  }

  /** json_append_string: one reservation up front makes room for all escapes. */
  method AppendString(json: StrBuf, str: seq<Octet>)
    requires json.Valid()
    modifies json, json.buf
    ensures json.Valid() && json.Contents() == old(json.Contents()) + [QUOTE] + EscapedAll(str) + [QUOTE]
    ensures json.buf == old(json.buf) || fresh(json.buf)
  {
    hide Escaped, Char2Escape;
    json.EnsureEmptyLength(|str| * 6 + 2);
    ghost var before, buf := json.Contents(), json.buf;
    json.AppendCharUnsafe(QUOTE);
    var i := 0;
    while i < |str|
      invariant 0 <= i <= |str| && json.Valid() && json.buf == buf
      invariant json.Contents() == before + [QUOTE] + EscapedAll(str[..i])
      invariant json.EmptyLength() >= (|str| - i) * 6 + 1
    {
      EscapedNext(str, i);
      EscapedIs(str[i]);
      var escStr := Char2Escape(str[i]);
      if escStr != [] {
        json.AppendString(escStr);
      } else {
        json.AppendCharUnsafe(str[i]);
      }
      i := i + 1;
    }
    assert str[..i] == str;
    json.AppendCharUnsafe(QUOTE);
  }

  lemma EscapedIs(b: Octet)
    ensures Escaped(b) == if Char2Escape(b) == [] then [b] else Char2Escape(b)
  {}

  /** hexdigit2int. */
  function HexDigit2Int(hex: Octet): int {
    if 48 <= hex <= 57 then hex as int - 48
    else
      var lower: int := if hex / 32 % 2 == 0 then hex as int + 32 else hex;     // hex | 0x20
      if 97 <= lower <= 102 then 10 + lower - 97 else -1
  }

  /** Text that ends with a zero byte, as C strings do. */
  predicate Terminated(data: seq<Octet>) {
    data != [] && data[|data| - 1] == 0
  }

  /** Whether four hexadecimal digits are at p. */
  predicate IsHex4(data: seq<Octet>, p: nat) {
    p + 4 <= |data| && forall i :: p <= i < p + 4 ==> HexDigit2Int(data[i]) >= 0
  }

  /** Their number. */
  function Hex4(data: seq<Octet>, p: nat): (v: nat)
    requires IsHex4(data, p)
    ensures v < 0x1_0000
  {
    HexDigit2Int(data[p]) * 0x1000 + HexDigit2Int(data[p + 1]) * 0x100 + HexDigit2Int(data[p + 2]) * 0x10
      + HexDigit2Int(data[p + 3])
  }

  /** decode_hex4: it stops at the first byte that is no digit, and so never reads past the end. */
  method DecodeHex4(data: seq<Octet>, p: nat) returns (v: int)
    requires Terminated(data) && p < |data|
    ensures v == if IsHex4(data, p) then Hex4(data, p) else -1
  {
    hide HexDigit2Int;
    var digit: seq<int> := [];
    var i := 0;
    while i < 4
      invariant 0 <= i <= 4 && p + i < |data| && |digit| == i
      invariant forall k :: 0 <= k < i ==> digit[k] == HexDigit2Int(data[p + k]) && digit[k] >= 0
    {
      var value := HexDigit2Int(data[p + i]);
      if value < 0 {
        assert !IsHex4(data, p);
        return -1;
      }
      ZeroIsNoDigit(data[p + i]);
      digit := digit + [value];
      i := i + 1;
    }
    assert digit[0] == HexDigit2Int(data[p]) && digit[1] == HexDigit2Int(data[p + 1]);
    assert digit[2] == HexDigit2Int(data[p + 2]) && digit[3] == HexDigit2Int(data[p + 3]);
    assert IsHex4(data, p);
    v := digit[0] * 0x1000 + digit[1] * 0x100 + digit[2] * 0x10 + digit[3];
  }

  lemma ZeroIsNoDigit(c: Octet)
    ensures HexDigit2Int(c) >= 0 ==> c != 0
  {}

  datatype Item = Item(out: seq<Octet>, used: nat) | Bad

  /** The code point of an escape by UTF-16: a unit that is no surrogate, or a high and a low surrogate. */
  function UnicodeItem(data: seq<Octet>, p: nat): Item {
    if !IsHex4(data, p + 2) then Bad
    else
      var unit := Hex4(data, p + 2);
      if !(0xD800 <= unit < 0xE000) then Item(Utf8.Encode(unit), 6)
      else if unit >= 0xDC00 || p + 8 > |data| || data[p + 6] != BACKSLASH || data[p + 7] != LETTER_U
        || !IsHex4(data, p + 8) || !(0xDC00 <= Hex4(data, p + 8) < 0xE000) then Bad
      else Item(Utf8.Encode(0x1_0000 + (unit - 0xD800) * 0x400 + (Hex4(data, p + 8) - 0xDC00)), 12)
  }

  /** Every accepted unicode escape becomes well-formed UTF-8 for its code point, and no longer than itself. */
  lemma UnicodeIsWellFormed(data: seq<Octet>, p: nat)
    requires UnicodeItem(data, p).Item?
    ensures var r := UnicodeItem(data, p); Utf8.WellFormed(r.out) && 0 < |r.out| < r.used && p + r.used <= |data|
    ensures var r := UnicodeItem(data, p);
      Utf8.CodePoint(r.out) == if r.used == 6 then Hex4(data, p + 2)
        else 0x1_0000 + (Hex4(data, p + 2) - 0xD800) * 0x400 + (Hex4(data, p + 8) - 0xDC00)
  {
    hide Hex4;
    var r := UnicodeItem(data, p);
    var unit := Hex4(data, p + 2);
    if r.used == 6 {
      Utf8.EncodeIsWellFormed(unit);
    } else {
      Utf8.EncodeIsWellFormed(0x1_0000 + (unit - 0xD800) * 0x400 + (Hex4(data, p + 8) - 0xDC00));
    }
  }

  /** escape2char: 0 for what is no escape. */
  function Escape2Char(c: Octet): Octet {
    if c == QUOTE || c == BACKSLASH || c == 47 || c == LETTER_U then c
    else if c == 98 then 8
    else if c == 116 then 9
    else if c == 110 then 10
    else if c == 102 then 12
    else if c == 114 then 13
    else 0
  }

  /** What the text at p stands for, where the string has not ended. */
  function ItemAt(data: seq<Octet>, p: nat): Item
    requires p + 1 < |data|
  {
    if data[p] != BACKSLASH then Item([data[p]], 1)
    else if data[p + 1] == LETTER_U then UnicodeItem(data, p)
    else if Escape2Char(data[p + 1]) == 0 then Bad
    else Item([Escape2Char(data[p + 1])], 2)
  }

  datatype Decoded = Good(out: seq<Octet>, end: nat) | Error

  /** The string in the text from p on, after its opening quote, and where the text goes on. */
  function DecodeFrom(data: seq<Octet>, p: nat): Decoded
    decreases |data| - p
  {
    if p + 1 >= |data| || data[p] == 0 then Error
    else if data[p] == QUOTE then Good([], p + 1)
    else match ItemAt(data, p)
      case Bad => Error
      case Item(out, used) =>
        if used == 0 then Error
        else match DecodeFrom(data, p + used)
          case Error => Error
          case Good(rest, end) => Good(out + rest, end)
  }

  /** Masks and shifts on a UTF-16 unit, as ranges and remainders. */
  lemma Surrogates(v: nat)
    requires v < 0x1_0000
    ensures v / 0x800 == 0x1B <==> 0xD800 <= v < 0xE000
    ensures v / 0x800 == 0x1B ==> (v / 0x400 % 2 == 1 <==> v >= 0xDC00)
    ensures v / 0x400 == 0x37 <==> 0xDC00 <= v < 0xE000
    ensures 0xD800 <= v < 0xDC00 ==> v % 0x400 == v - 0xD800
    ensures 0xDC00 <= v < 0xE000 ==> v % 0x400 == v - 0xDC00
  {}

  /** json_parse_t: the text, the place in it, and the buffer for decoded strings, which is as long as the text. */
  class Parser {
    const data: seq<Octet>
    var ptr: nat
    const tmp: StrBuf

    ghost predicate Valid()
      reads this, tmp
    {
      Terminated(data) && ptr < |data| && tmp.Valid() && tmp.buf.Length >= |data|
    }

    /** A parser for the text before the terminating zero. */
    constructor (text: seq<Octet>)
      ensures Valid() && ptr == 0 && data == text + [0] && fresh(tmp) && fresh(tmp.buf)
    {
      data, ptr := text + [0], 0;
      tmp := new StrBuf(|text|);
    }

    /** json_append_unicode_escape. */
    method AppendUnicodeEscape() returns (rc: int)
      requires Valid() && ptr + 1 < |data| && data[ptr] == BACKSLASH && data[ptr + 1] == LETTER_U
      requires |tmp.Contents()| < ptr
      modifies this`ptr, tmp`length, tmp.buf
      ensures Valid() && |tmp.Contents()| < ptr
      ensures rc == if UnicodeItem(data, old(ptr)).Item? then 0 else -1
      ensures rc == 0 ==> var r := UnicodeItem(data, old(ptr));
        ptr == old(ptr) + r.used && tmp.Contents() == old(tmp.Contents()) + r.out
    {
      hide Hex4, Utf8.WellFormed, Utf8.CodePoint, IsHex4;
      var escapeLen := 6;
      NotAtEnd(data, ptr + 1);
      var codepoint := DecodeHex4(data, ptr + 2);
      if codepoint < 0 {
        return -1;
      }
      HexIsNotZero(data, ptr + 2);
      Surrogates(codepoint);
      if codepoint / 0x800 == 0x1B {
        if codepoint / 0x400 % 2 == 1 {
          return -1;
        }
        if data[ptr + escapeLen] != BACKSLASH {
          return -1;
        }
        NotAtEnd(data, ptr + escapeLen);
        if data[ptr + escapeLen + 1] != LETTER_U {
          return -1;
        }
        NotAtEnd(data, ptr + escapeLen + 1);
        var surrogateLow := DecodeHex4(data, ptr + 2 + escapeLen);
        if surrogateLow < 0 {
          return -1;
        }
        HexIsNotZero(data, ptr + 8);
        Surrogates(surrogateLow);
        if surrogateLow / 0x400 != 0x37 {
          return -1;
        }
        codepoint := codepoint % 0x400 * 0x400;
        surrogateLow := surrogateLow % 0x400;
        codepoint := codepoint + surrogateLow + 0x1_0000;
        escapeLen := 12;
      }
      UnicodeIsWellFormed(data, ptr);
      var utf8 := Utf8.Encode(codepoint);
      if utf8 == [] {
        return -1;
      }
      tmp.AppendMemUnsafe(utf8);
      ptr := ptr + escapeLen;
      return 0;
    }

    /**
     json_next_string_token, at an opening quote: the string in the text, or an error if there is none. The
     buffer never overflows.
     */
    method NextStringToken() returns (ok: bool, token: seq<Octet>)
      requires Valid() && data[ptr] == QUOTE
      modifies this`ptr, tmp`length, tmp.buf
      ensures Valid()
      ensures var r := DecodeFrom(data, old(ptr) + 1);
        if ok then r == Good(token, ptr) else r == Error
    {
      hide UnicodeItem, Escape2Char;
      ghost var start := ptr + 1;
      NotAtEnd(data, ptr);
      ptr := ptr + 1;
      tmp.Reset();
      while data[ptr] != QUOTE
        invariant Valid() && start <= ptr && |tmp.Contents()| < ptr
        invariant DecodeFrom(data, start) == Prefixed(tmp.Contents(), DecodeFrom(data, ptr))
        decreases |data| - ptr
      {
        ghost var p, before := ptr, tmp.Contents();
        var ch := data[ptr];
        if ch == 0 {
          return false, [];
        }
        NotAtEnd(data, ptr);
        DecodeStep(data, p, before);
        if ch == BACKSLASH {
          ch := Escape2Char(data[ptr + 1]);
          UIsItself(data[ptr + 1]);
          if ch == LETTER_U {
            NotAtEnd(data, ptr + 1);
            UnicodeIsShort(data, p);
            var rc := AppendUnicodeEscape();
            if rc == 0 {
              continue;
            }
            return false, [];
          }
          if ch == 0 {
            return false, [];
          }
          ZeroIsNoEscape(data[ptr + 1]);
          NotAtEnd(data, ptr + 1);
          ptr := ptr + 1;
        }
        tmp.AppendCharUnsafe(ch);
        ptr := ptr + 1;
      }
      token := tmp.String();
      NotAtEnd(data, ptr);
      ptr := ptr + 1;
      ok := true;
    }
  }

  /** More decoded bytes in front. */
  function Prefixed(front: seq<Octet>, r: Decoded): Decoded {
    match r
    case Error => Error
    case Good(out, end) => Good(front + out, end)
  }

  lemma DecodeStep(data: seq<Octet>, p: nat, front: seq<Octet>)
    requires p + 1 < |data| && data[p] != 0 && data[p] != QUOTE
    ensures Prefixed(front, DecodeFrom(data, p)) ==
      match ItemAt(data, p)
      case Bad => Error
      case Item(out, used) => if used == 0 then Error else Prefixed(front + out, DecodeFrom(data, p + used))
  {
    match ItemAt(data, p)
    case Bad =>
    case Item(out, used) =>
      if used != 0 {
        match DecodeFrom(data, p + used)
        case Error =>
        case Good(rest, end) => assert front + (out + rest) == front + out + rest;
      }
  }

  lemma UIsItself(c: Octet)
    ensures Escape2Char(c) == LETTER_U <==> c == LETTER_U
  {}

  lemma ZeroIsNoEscape(c: Octet)
    ensures Escape2Char(c) != 0 ==> c != 0
  {}

  lemma UnicodeIsShort(data: seq<Octet>, p: nat)
    ensures UnicodeItem(data, p).Item? ==> UnicodeItem(data, p).used > 0
  {}

  lemma NotAtEnd(data: seq<Octet>, p: nat)
    requires Terminated(data) && p < |data| && data[p] != 0
    ensures p + 1 < |data|
  {}

  lemma HexIsNotZero(data: seq<Octet>, p: nat)
    requires Terminated(data) && IsHex4(data, p)
    ensures p + 4 < |data|
  {
    assert HexDigit2Int(data[p + 3]) >= 0;
  }

  /** The text of an escaped byte, followed by anything, stands for the byte. */
  lemma EscapedByteDecodes(data: seq<Octet>, p: nat, b: Octet)
    requires p + |Escaped(b)| < |data| && data[p..p + |Escaped(b)|] == Escaped(b)
    ensures data[p] != 0 && data[p] != QUOTE && ItemAt(data, p) == Item([b], |Escaped(b)|)
  {
    var e := Escaped(b);
    SameBytes(data, p, e);
    if |e| == 6 {
      SixBytes(data, p, b);
    } else if |e| == 2 {
      assert data[p + 1] == e[1];
    }
  }

  lemma SameBytes(data: seq<Octet>, p: nat, e: seq<Octet>)
    requires p + |e| <= |data| && data[p..p + |e|] == e
    ensures forall j :: p <= j < p + |e| ==> data[j] == e[j - p]
  {
    forall j | p <= j < p + |e| ensures data[j] == e[j - p] {
      assert data[p..p + |e|][j - p] == data[j];
    }
  }

  /** The long escapes of control characters. */
  lemma SixBytes(data: seq<Octet>, p: nat, b: Octet)
    requires p + 6 < |data| && |Escaped(b)| == 6
    requires forall j :: p <= j < p + 6 ==> data[j] == Escaped(b)[j - p]
    ensures data[p] == BACKSLASH && ItemAt(data, p) == Item([b], 6)
  {
    HexDigitsReadBack(b);
    var e := Escaped(b);
    assert e == [BACKSLASH, LETTER_U, 48, 48, HexDigit(b / 16), HexDigit(b % 16)];
    assert data[p] == e[0] && data[p + 1] == e[1] && data[p + 2] == e[2];
    assert data[p + 3] == e[3] && data[p + 4] == e[4] && data[p + 5] == e[5];
    assert IsHex4(data, p + 2) && Hex4(data, p + 2) == b;
  }

  lemma HexDigitsReadBack(b: Octet)
    ensures HexDigit2Int(HexDigit(b / 16)) == b / 16 && HexDigit2Int(HexDigit(b % 16)) == b % 16
  {}

  /** Decoding an encoded string gives it back, whatever its bytes, and stops after the closing quote. */
  lemma {:induction false} StringRoundTrip(data: seq<Octet>, p: nat, s: seq<Octet>)
    requires Terminated(data) && p + |EscapedAll(s)| + 1 < |data|
    requires data[p..p + |EscapedAll(s)|] == EscapedAll(s) && data[p + |EscapedAll(s)|] == QUOTE
    ensures DecodeFrom(data, p) == Good(s, p + |EscapedAll(s)| + 1)
    decreases |s|
  {
    hide Escaped, ItemAt;
    if s != [] {
      var e, more := Escaped(s[0]), EscapedAll(s[1..]);
      var text := data[p..p + |EscapedAll(s)|];
      assert data[p..p + |e|] == text[..|e|] == e;
      assert data[p + |e|..p + |e| + |more|] == text[|e|..] == more;
      EscapedByteDecodes(data, p, s[0]);
      NotEmpty(s[0]);
      StringRoundTrip(data, p + |e|, s[1..]);
      assert s == [s[0]] + s[1..];
    }
  }

  lemma NotEmpty(b: Octet)
    ensures Escaped(b) != []
  {}

  /** A string goes out and comes back in. */
  method EncodeAndDecode(s: seq<Octet>) returns (text: seq<Octet>, back: seq<Octet>)
    ensures text == [QUOTE] + EscapedAll(s) + [QUOTE] && back == s
  {
    hide Escaped, DecodeFrom;
    var json := new StrBuf(0);
    AppendString(json, s);
    text := json.String();
    var parser := new Parser(text);
    assert parser.data[1..1 + |EscapedAll(s)|] == EscapedAll(s);
    StringRoundTrip(parser.data, 1, s);
    var ok;
    ok, back := parser.NextStringToken();
  }

  /** Decoded strings are shorter than the text they came from. */
  lemma {:induction false} DecodedIsShorter(data: seq<Octet>, p: nat)
    ensures DecodeFrom(data, p).Good? ==>
      p < DecodeFrom(data, p).end <= |data| && |DecodeFrom(data, p).out| < DecodeFrom(data, p).end - p
    decreases |data| - p
  {
    hide UnicodeItem;
    if p + 1 < |data| && data[p] != 0 && data[p] != QUOTE && ItemAt(data, p).Item? && ItemAt(data, p).used != 0 {
      if data[p] == BACKSLASH && data[p + 1] == LETTER_U {
        UnicodeIsWellFormed(data, p);
      }
      DecodedIsShorter(data, p + ItemAt(data, p).used);
    }
  }
}
