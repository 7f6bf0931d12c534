/** Digits and exponent laid out as text: fpconv_g_fmt (bundle/lua-cjson-2.1.0.5/g_fmt.c, lines 35-111). */
module GFmt {
  import opened Arithmetic
  import opened Decimals
  import opened DigitLoops
  import opened Quorems

  datatype Option<T> = None | Some(value: T)

  /** A signed decimal: mantissa times ten to the exponent. */
  datatype Number = Number(negative: bool, mantissa: nat, exponent: int)

  /** The first position from i on that is not a digit. */
  function SkipDigits(t: string, i: nat): (j: nat)
    requires i <= |t|
    ensures i <= j <= |t| && IsDigits(t[i..j]) && (j < |t| ==> !IsDigit(t[j]))
    decreases |t| - i
  {
    if i < |t| && IsDigit(t[i]) then
      var j := SkipDigits(t, i + 1);
      assert t[i..j] == [t[i]] + t[i + 1..j];
      j
    else i
  }

  function Signed(sign: char, digits: string): int
    requires IsDigits(digits)
  {
    if sign == '-' then -(Dec(digits) as int) else Dec(digits)
  }

  /** Read a number back: sign, digits, fraction, exponent. */
  function ReadNumber(t: string): Option<Number> {
    var i0 := if t != "" && t[0] == '-' then 1 else 0;
    var i1 := SkipDigits(t, i0);
    var f := if i1 < |t| && t[i1] == '.' then i1 + 1 else i1;
    var i2 := SkipDigits(t, f);
    var m := Dec(t[i0..i1] + t[f..i2]);
    if i1 == i0 || (f > i1 && i2 == f) then None
    else if i2 == |t| then Some(Number(i0 == 1, m, -(i2 - f)))
    else if i2 + 2 < |t| && t[i2] == 'e' && t[i2 + 1] in "+-" && SkipDigits(t, i2 + 2) == |t| then
      Some(Number(i0 == 1, m, Signed(t[i2 + 1], t[i2 + 2..|t|]) - (i2 - f)))
    else None
  }

  lemma {:induction false} SkipsExactly(t: string, i: nat, j: nat)
    requires i <= j <= |t| && IsDigits(t[i..j]) && (j < |t| ==> !IsDigit(t[j]))
    ensures SkipDigits(t, i) == j
    decreases j - i
  {
    if i < j {
      assert t[i] == t[i..j][0] && t[i + 1..j] == t[i..j][1..];
      SkipsExactly(t, i + 1, j);
    }
  }

  /** The number of two digit strings in a row. */
  lemma {:induction false} DecConcat(s: string, t: string)
    requires IsDigits(s) && IsDigits(t)
    ensures IsDigits(s + t) && Dec(s + t) == Dec(s) * Pow10(|t|) + Dec(t)
    decreases |t|
  {
    if t == "" {
      assert s + t == s;
      Pow10Next(0);
    } else {
      var u := t[..|t| - 1];
      DecConcat(s, u);
      assert (s + t)[..|s + t| - 1] == s + u;
      Pow10Next(|u|);
      Times10(Dec(s), Pow10(|u|));
    }
  }

  lemma {:induction false} DecZeros(s: string)
    requires forall i :: 0 <= i < |s| ==> s[i] == '0'
    ensures IsDigits(s) && Dec(s) == 0
  {
    if s != "" {
      DecZeros(s[..|s| - 1]);
    }
  }

  /** The text that the layout is meant to produce. */
  function Layout(negative: bool, whole: string, fraction: string, exponent: string): string {
    (if negative then "-" else "") + whole + (if fraction == "" then "" else "." + fraction) + exponent
  }

  lemma SkipsOver(prefix: string, digits: string, rest: string)
    requires IsDigits(digits) && (rest == "" || !IsDigit(rest[0]))
    ensures var t := prefix + digits + rest;
            SkipDigits(t, |prefix|) == |prefix| + |digits| && t[|prefix|..|prefix| + |digits|] == digits
  {
    hide SkipDigits;
    Middle(prefix, digits, rest);
    SkipsExactly(prefix + digits + rest, |prefix|, |prefix| + |digits|);
  }

  lemma Middle(a: string, b: string, c: string)
    ensures var t := a + b + c; t[|a|..|a| + |b|] == b && (c != "" ==> t[|a| + |b|] == c[0])
  {}

  datatype Exponent = NoExponent | Exponent(sign: char, digits: string)
  {
    predicate Valid() {
      Exponent? ==> sign in "+-" && digits != "" && IsDigits(digits)
    }

    function Text(): string {
      if Exponent? then "e" + [sign] + digits else ""
    }

    function Value(): int
      requires Valid()
    {
      if Exponent? then Signed(sign, digits) else 0
    }
  }

  /** Such a text reads back as the number it was laid out from. */
  lemma LayoutReads(negative: bool, whole: string, fraction: string, x: Exponent)
    requires whole != "" && IsDigits(whole) && IsDigits(fraction) && x.Valid()
    ensures ReadNumber(Layout(negative, whole, fraction, x.Text()))
         == Some(Number(negative, Dec(whole + fraction), x.Value() - |fraction|))
  {
    var sign := if negative then "-" else "";
    var point := if fraction == "" then "" else ".";
    BothDigits(whole, fraction);
    ExponentStart(x);
    hide SkipDigits, Dec, WholeAt, FractionAt, ExponentAt, Layout, ReadNumber, IsDigits, Exponent.Text, Exponent.Valid;
    LayoutParts(negative, whole, fraction, x.Text(), sign, point);
    WholePart(sign, whole, point, fraction, x.Text());
    FractionPart(sign + whole + point, fraction, x.Text());
    ExponentPart(sign + whole + point + fraction, x);
    ReadParts(sign + whole + point + fraction + x.Text(), |sign|, |sign| + |whole|, |sign + whole + point|,
              |sign + whole + point + fraction|, whole, fraction, x);
  }

  lemma BothDigits(s: string, t: string)
    requires IsDigits(s) && IsDigits(t)
    ensures IsDigits(s + t)
  {}

  lemma ExponentStart(x: Exponent)
    ensures x.Text() == "" || x.Text()[0] == 'e'
  {}

  /** The sign and the digits before any point lie where a reader finds them. */
  ghost predicate WholeAt(t: string, i0: nat, i1: nat, f: nat, whole: string, fraction: string) {
    && i0 < i1 <= f <= |t| && i0 == (if t[0] == '-' then 1 else 0)
    && SkipDigits(t, i0) == i1 && t[i0..i1] == whole
    && f == (if i1 < |t| && t[i1] == '.' then i1 + 1 else i1)
    && (f > i1 ==> fraction != "")
  }

  ghost predicate FractionAt(t: string, f: nat, i2: nat, fraction: string) {
    f <= i2 <= |t| && SkipDigits(t, f) == i2 && t[f..i2] == fraction
  }

  ghost predicate ExponentAt(t: string, i2: nat, x: Exponent) {
    match x
    case NoExponent => i2 == |t|
    case Exponent(sign, digits) =>
      && |t| == i2 + 2 + |digits| && t[i2] == 'e' && t[i2 + 1] == sign
      && SkipDigits(t, i2 + 2) == |t| && t[i2 + 2..|t|] == digits
  }

  lemma LayoutParts(negative: bool, whole: string, fraction: string, rest: string, sign: string, point: string)
    requires sign == (if negative then "-" else "") && point == if fraction == "" then "" else "."
    ensures Layout(negative, whole, fraction, rest) == sign + whole + point + fraction + rest
  {
    if fraction != "" {
      assert sign + whole + (point + fraction) + rest == sign + whole + point + fraction + rest;
    } else {
      assert sign + whole + point + fraction == sign + whole;
      assert sign + whole + "" == sign + whole;
    }
  }

  lemma WholePart(sign: string, whole: string, point: string, fraction: string, rest: string)
    requires whole != "" && IsDigits(whole) && IsDigits(fraction) && (rest == "" || rest[0] == 'e')
    requires point == (if fraction == "" then "" else ".") && sign in ["", "-"]
    ensures WholeAt(sign + whole + point + fraction + rest, |sign|, |sign| + |whole|, |sign + whole + point|,
                    whole, fraction)
  {
    var tail := point + fraction + rest;
    TailStart(point, fraction, rest);
    Associate(sign + whole, point + fraction, rest);
    Associate(sign + whole, point, fraction);
    SkipsOver(sign, whole, tail);
    hide SkipDigits, IsDigits;
    assert IsDigit(whole[0]) by { FirstDigit(whole); }
    Around(sign, whole, tail);
  }

  lemma TailStart(point: string, fraction: string, rest: string)
    requires point == if fraction == "" then "" else "."
    ensures var tail := point + fraction + rest;
      if point == "." then tail != "" && tail[0] == '.' else tail == rest
  {}

  lemma FirstDigit(s: string)
    requires s != "" && IsDigits(s)
    ensures IsDigit(s[0])
  {}

  lemma Around(sign: string, whole: string, tail: string)
    requires whole != ""
    ensures var t := sign + whole + tail;
      t[|sign|] == whole[0] && (sign != "" ==> t[0] == sign[0]) && (tail != "" ==> t[|sign| + |whole|] == tail[0])
  {}

  lemma FractionPart(before: string, fraction: string, rest: string)
    requires IsDigits(fraction) && (rest == "" || rest[0] == 'e')
    ensures FractionAt(before + fraction + rest, |before|, |before + fraction|, fraction)
  {
    SkipsOver(before, fraction, rest);
  }

  lemma ExponentPart(before: string, x: Exponent)
    requires x.Valid()
    ensures ExponentAt(before + x.Text(), |before|, x)
  {
    hide SkipDigits, Dec;
    var t := before + x.Text();
    if x.Exponent? {
      assert t == (before + ['e', x.sign]) + x.digits + "";
      SkipsOver(before + ['e', x.sign], x.digits, "");
    }
  }

  lemma ReadParts(t: string, i0: nat, i1: nat, f: nat, i2: nat, whole: string, fraction: string, x: Exponent)
    requires WholeAt(t, i0, i1, f, whole, fraction) && FractionAt(t, f, i2, fraction) && ExponentAt(t, i2, x)
    requires IsDigits(whole + fraction) && x.Valid()
    ensures ReadNumber(t) == Some(Number(i0 == 1, Dec(whole + fraction), x.Value() - |fraction|))
  {
    hide SkipDigits, Dec;
  }

  /** Digits are ten times those before the last one, and the last one. */
  lemma DigitsCount(s: string, c: char)
    requires IsDigits(s)
    ensures IsDigits(s + [c]) <==> c in "0123456789"
    ensures IsDigits(s + [c]) ==> Dec(s + [c]) == 10 * Dec(s) + (c as int - 48) && "0123456789"[c as int - 48] == c
    ensures Dec("") == 0
  {
    if '0' <= c <= '9' {
      DecAppend(s, c);
    } else {
      assert (s + [c])[|s|] == c;
    }
  }

  /** Digits alone are the number they denote, a point after some divides it by ten for each digit that follows. */
  lemma PlainNumbers(s: string, f: string)
    requires s != "" && f != "" && IsDigits(s) && IsDigits(f)
    ensures ReadNumber(s) == Some(Number(false, Dec(s), 0)) && ReadNumber("-" + s) == Some(Number(true, Dec(s), 0))
    ensures ReadNumber(s + "." + f) == Some(Number(false, Dec(s + f), -|f|))
  {
    hide ReadNumber, Dec, IsDigits;
    assert IsDigits("") by { DecZeros(""); }
    LayoutReads(false, s, "", NoExponent);
    LayoutReads(true, s, "", NoExponent);
    LayoutReads(false, s, f, NoExponent);
    assert s + "" == s && Layout(false, s, "", "") == s;
    assert Layout(true, s, "", "") == "-" + s;
    assert Layout(false, s, f, "") == s + "." + f;
  }

  /** After "e+" or "e-" comes the power of ten to multiply by, or to divide by. */
  lemma ExponentSigns(s: string, x: string)
    requires s != "" && x != "" && IsDigits(s) && IsDigits(x)
    ensures ReadNumber(s + "e+" + x) == Some(Number(false, Dec(s), Dec(x)))
    ensures ReadNumber(s + "e-" + x) == Some(Number(false, Dec(s), -(Dec(x) as int)))
  {
    hide ReadNumber, Dec, IsDigits;
    assert IsDigits("") by { DecZeros(""); }
    LayoutReads(false, s, "", Exponent('+', x));
    LayoutReads(false, s, "", Exponent('-', x));
    assert s + "" == s;
    assert Layout(false, s, "", "e" + "+" + x) == s + "e+" + x;
    assert Layout(false, s, "", "e" + "-" + x) == s + "e-" + x;
  }

  /** *b++ = c */
  method Put(buf: array<char>, b: nat, c: char) returns (b1: nat)
    requires b < buf.Length
    modifies buf
    ensures b1 == b + 1 && buf[..b1] == old(buf[..b]) + [c]
  {
    buf[b] := c;
    b1 := b + 1;
  }

  /** while((*b = *s++)) b++ */
  method Copy(buf: array<char>, b: nat, s: string) returns (b1: nat)
    requires b + |s| <= buf.Length
    modifies buf
    ensures b1 == b + |s| && buf[..b1] == old(buf[..b]) + s
  {
    b1 := b;
    for i := 0 to |s|
      invariant b1 == b + i && buf[..b1] == old(buf[..b]) + s[..i]
    {
      assert s[..i + 1] == s[..i] + [s[i]];
      b1 := Put(buf, b1, s[i]);
    }
    assert s[..|s|] == s;
  }

  method Zeros(buf: array<char>, b: nat, n: nat) returns (b1: nat)
    requires b + n <= buf.Length
    modifies buf
    ensures b1 == b + n && buf[..b1] == old(buf[..b]) + seq(n, _ => '0')
  {
    b1 := b;
    for i := 0 to n
      invariant b1 == b + i && buf[..b1] == old(buf[..b]) + seq(i, _ => '0')
    {
      b1 := Put(buf, b1, '0');
      assert seq(i, _ => '0') + ['0'] == seq(i + 1, _ => '0');
    }
  }

  /** g_fmt.c, line 76: how many digits, and the place of the first. */
  method Width(x: nat) returns (j: nat, k: nat)
    requires x < 1000
    ensures j == (if x < 100 then 2 else 3) && k == Pow10(j - 1) && x < 10 * k
  {
    j, k := 2, 10;
    Pow10Next(0);
    Pow10Next(1);
    while 10 * k <= x
      invariant (j == 2 && k == 10) || (j == 3 && k == 100 && x >= 100)
      decreases 3 - j
    {
      j, k := j + 1, k * 10;
    }
  }

  /** The digits so far, and r / k of the next one. */
  ghost predicate Left(s: string, r: nat, x: nat, k: nat) {
    s != "" && IsDigits(s) && r < k && x * Pow10(|s| - 1) == Dec(s) * k + r
  }

  /** g_fmt.c, lines 78 to 82: one more digit. */
  method PutDigit(buf: array<char>, b: nat, r: nat, k: nat, ghost s: string, ghost x: nat)
    returns (b1: nat, r1: nat, ghost s1: string)
    requires b < buf.Length && Generated(s, r, x, k)
    modifies buf
    ensures b1 == b + 1 && |s1| == |s| + 1 && s1 == s + [s1[|s|]] && buf[..b1] == old(buf[..b]) + [s1[|s|]]
    ensures Left(s1, r1, x, k) && Generated(s1, 10 * r1, x, k)
  {
    hide Dec, Pow10, IsDigits;
    var i := r / k;
    r1 := r - i * k;
    DividesIsFloor(r, k, i, r1);
    OneMoreDigit(s, r, x, k, i, r1);
    s1 := s + [Digit(i)];
    b1 := Put(buf, b, Digit(i));
  }

  /** g_fmt.c, lines 76 to 84: at least two digits of the exponent, most significant first. */
  method PutExponent(buf: array<char>, b: nat, x: nat) returns (b1: nat, ghost digits: string)
    requires x < 1000 && b + 3 <= buf.Length
    modifies buf
    ensures b < b1 <= b + 3 && buf[..b1] == old(buf[..b]) + digits
    ensures |digits| == (if x < 100 then 2 else 3) && IsDigits(digits) && Dec(digits) == x
  {
    var j, k := Width(x);
    hide Dec, Pow10, Generated, IsDigits, Left;
    ghost var n, before := j, buf[..b];
    b1, digits := b, "";
    assert buf[..b1] == before + digits;
    var r: nat := x;
    StartGenerated(x, k);
    while true
      invariant 0 < j <= n <= 3 && |digits| == n - j && b1 == b + n - j
      invariant buf[..b1] == before + digits
      invariant Generated(digits, r, x, k)
      decreases j
    {
      ghost var some := digits;
      b1, r, digits := PutDigit(buf, b1, r, k, digits, x);
      assert before + some + [digits[|some|]] == before + (some + [digits[|some|]]);
      j := j - 1;
      if j == 0 {
        AllDigits(digits, x, k, r);
        break;
      }
      r := r * 10;
    }
  }

  /** After as many digits as k has, nothing is left. */
  lemma AllDigits(s: string, x: nat, k: nat, r: nat)
    requires Left(s, r, x, k) && k == Pow10(|s| - 1)
    ensures IsDigits(s) && Dec(s) == x
  {
    hide Dec, Pow10;
    DivModUnique(x * k, k, Dec(s), r);
    DivModUnique(x * k, k, x, 0);
  }

  /** Zeros written between the last digit and the point. */
  function PadZeros(n: nat, decpt: int, precision: nat): nat {
    if n < decpt <= precision then decpt - n else 0
  }

  /** d.ddde+xx, with at least two digits for the exponent. */
  ghost predicate IsScientific(t: string, sign: string, s: string, exponent: int)
    requires s != ""
  {
    var size := if exponent < 0 then -exponent else exponent;
    exists x: string ::
      && |x| == (if size < 100 then 2 else 3) && IsDigits(x) && Dec(x) == size
      && t == sign + s[..1] + (if |s| == 1 then "" else "." + s[1..]) + (if exponent < 0 then "e-" else "e+") + x
  }

  /** The three forms of a number: with an exponent, below one, and with its point among or behind the digits. */
  ghost predicate Prints(t: string, s: string, decpt: int, negative: bool, precision: nat)
    requires s != ""
  {
    var sign := if negative then "-" else "";
    if decpt <= -4 || decpt > precision then IsScientific(t, sign, s, decpt - 1)
    else if decpt <= 0 then t == sign + "0." + seq(-decpt, _ => '0') + s
    else if decpt < |s| then t == sign + s[..decpt] + "." + s[decpt..]
    else t == sign + s + seq(decpt - |s|, _ => '0')
  }

  /**
   fpconv_g_fmt: the text and its NUL fit in 32 characters, and the text reads back as exactly the decimal
   0.s * 10^decpt with the sign. 9999 marks an infinity or a NaN, whose name is copied.
   */
  method FpconvGFmt(buf: array<char>, s: string, decpt: int, negative: bool, precision: nat) returns (len: nat)
    requires buf.Length >= 32 && 1 <= precision <= 16
    requires if decpt == 9999 then |s| <= 8
             else s != "" && IsDigits(s) && |s| <= precision && -998 <= decpt <= 1000
    modifies buf
    ensures len < 32 && buf[len] == '\0'
    ensures decpt == 9999 ==> buf[..len] == (if negative then "-" else "") + s
    ensures decpt != 9999 ==>
              var pad := PadZeros(|s|, decpt, precision);
              ReadNumber(buf[..len]) == Some(Number(negative, Dec(s) * Pow10(pad), decpt - |s| - pad))
    ensures decpt != 9999 ==> Prints(buf[..len], s, decpt, negative, precision)
  {
    hide ReadNumber, Dec, Pow10, IsScientific;
    var b := 0;
    ghost var sign := if negative then "-" else "";
    if negative {
      b := Put(buf, b, '-');
    }
    assert buf[..b] == sign;
    if decpt == 9999 {
      b := Copy(buf, b, s);
    } else if decpt <= -4 || decpt > precision {
      b := Scientific(buf, b, s, decpt, negative);
    } else if decpt <= 0 {
      b := Fractional(buf, b, s, decpt, negative);
    } else {
      b := Positional(buf, b, s, decpt, negative);
    }
    ghost var t := buf[..b];
    buf[b] := '\0';
    len := b;
    assert buf[..len] == t;
  }

  lemma ZerosAreZero(n: nat)
    ensures IsDigits(seq(n, _ => '0')) && Dec(seq(n, _ => '0')) == 0
  {
    DecZeros(seq(n, _ => '0'));
  }

  /** g_fmt.c, lines 64 to 69: a digit, and the others after a point. */
  method PutMantissa(buf: array<char>, b0: nat, s: string) returns (b: nat)
    requires b0 + |s| + 1 <= buf.Length && s != ""
    modifies buf
    ensures b == b0 + |s| + if |s| > 1 then 1 else 0
    ensures buf[..b] == old(buf[..b0]) + [s[0]] + (if s[1..] == "" then "" else ".") + s[1..]
  {
    b := Put(buf, b0, s[0]);
    if |s| > 1 {
      b := Put(buf, b, '.');
      b := Copy(buf, b, s[1..]);
    }
  }

  lemma IsScientificText(t: string, sign: string, s: string, exponent: int, x: string)
    requires s != "" && t == sign + [s[0]] + (if s[1..] == "" then "" else ".") + s[1..]
                        + ("e" + [if exponent < 0 then '-' else '+'] + x)
    requires var size := if exponent < 0 then -exponent else exponent;
             |x| == (if size < 100 then 2 else 3) && IsDigits(x) && Dec(x) == size
    ensures IsScientific(t, sign, s, exponent)
  {
    hide Dec, IsDigits;
    var e := if exponent < 0 then "e-" else "e+";
    var before := sign + s[..1];
    assert s[..1] == [s[0]] && "e" + [if exponent < 0 then '-' else '+'] == e;
    if |s| == 1 {
      assert s[1..] == "" && before + "" == before;
      Associate(before, e, x);
    } else {
      Associate(before, ".", s[1..]);
      Associate(before + ("." + s[1..]), e, x);
    }
  }

  lemma Associate(a: string, b: string, c: string)
    ensures a + (b + c) == a + b + c
  {}

  /** g_fmt.c, lines 62 to 86: d.ddde+xx */
  method Scientific(buf: array<char>, b0: nat, s: string, decpt: int, negative: bool) returns (b: nat)
    requires b0 <= 1 && buf.Length >= 32 && s != "" && IsDigits(s) && |s| <= 16 && -998 <= decpt <= 1000
    requires buf[..b0] == if negative then "-" else ""
    modifies buf
    ensures b < 32 && ReadNumber(buf[..b]) == Some(Number(negative, Dec(s) * Pow10(0), decpt - |s| - 0))
    ensures IsScientific(buf[..b], if negative then "-" else "", s, decpt - 1)
  {
    hide ReadNumber, Dec, Layout, IsDigits, Pow10, IsScientific;
    DigitsOfParts(s);
    ghost var sign, point := buf[..b0], if s[1..] == "" then "" else ".";
    b := PutMantissa(buf, b0, s);
    ghost var mantissa := buf[..b];
    b := Put(buf, b, 'e');
    var x := decpt - 1;
    var c := if x < 0 then '-' else '+';
    b := Put(buf, b, c);
    ghost var digits;
    b, digits := PutExponent(buf, b, if x < 0 then -x else x);
    ghost var e := Exponent(c, digits);
    ExponentText(mantissa, c, digits);
    LayoutReads(negative, [s[0]], s[1..], e);
    LayoutParts(negative, [s[0]], s[1..], e.Text(), sign, point);
    IsScientificText(buf[..b], sign, s, x, digits);
    Pow10Is1();
  }

  lemma ExponentText(before: string, c: char, digits: string)
    ensures before + ['e'] + [c] + digits == before + Exponent(c, digits).Text()
    ensures Exponent(c, digits).Text() == "e" + [c] + digits
  {
    Associate(before, "e", [c]);
    Associate(before, "e" + [c], digits);
  }

  lemma DigitsOfParts(s: string)
    requires s != "" && IsDigits(s)
    ensures IsDigits([s[0]]) && IsDigits(s[1..]) && [s[0]] + s[1..] == s
  {}

  /** g_fmt.c, lines 87 to 94: 0.000ddd */
  method Fractional(buf: array<char>, b0: nat, s: string, decpt: int, negative: bool) returns (b: nat)
    requires b0 <= 1 && buf.Length >= 32 && s != "" && IsDigits(s) && |s| <= 16 && -4 < decpt <= 0
    requires buf[..b0] == if negative then "-" else ""
    modifies buf
    ensures b < 32 && ReadNumber(buf[..b]) == Some(Number(negative, Dec(s) * Pow10(0), decpt - |s| - 0))
    ensures buf[..b] == (if negative then "-" else "") + "0." + seq(-decpt, _ => '0') + s
  {
    hide ReadNumber, Dec, Layout, Pow10;
    ghost var sign := buf[..b0];
    b := Put(buf, b0, '0');
    b := Put(buf, b, '.');
    b := Zeros(buf, b, -decpt);
    b := Copy(buf, b, s);
    ghost var z := seq(-decpt, _ => '0');
    LeadingZeros(z, s);
    LayoutReads(negative, "0", z + s, NoExponent);
    LayoutParts(negative, "0", z + s, "", sign, ".");
    assert buf[..b] == sign + "0" + "." + (z + s) + "";
    assert buf[..b] == sign + "0." + z + s;
    Pow10Is1();
  }

  lemma LeadingZeros(z: string, s: string)
    requires z == seq(|z|, _ => '0') && IsDigits(s)
    ensures IsDigits(z + s) && Dec("0" + (z + s)) == Dec(s)
  {
    ZerosAreZero(|z|);
    DecConcat(z, s);
    ZerosAreZero(1);
    DecConcat(seq(1, _ => '0'), z + s);
    assert seq(1, _ => '0') == "0";
  }

  /** g_fmt.c, lines 95 to 104: ddd.ddd or ddd000 */
  method Positional(buf: array<char>, b0: nat, s: string, decpt0: int, negative: bool) returns (b: nat)
    requires b0 <= 1 && buf.Length >= 32 && s != "" && IsDigits(s) && |s| <= 16 && 0 < decpt0 <= 16
    requires buf[..b0] == if negative then "-" else ""
    modifies buf
    ensures b < 32
    ensures var pad := if |s| < decpt0 then decpt0 - |s| else 0;
            ReadNumber(buf[..b]) == Some(Number(negative, Dec(s) * Pow10(pad), decpt0 - |s| - pad))
    ensures var sign := if negative then "-" else "";
            buf[..b] == if decpt0 < |s| then sign + s[..decpt0] + "." + s[decpt0..]
                        else sign + s + seq(decpt0 - |s|, _ => '0')
  {
    hide ReadNumber, Dec, Pow10;
    ghost var sign := buf[..b0];
    var decpt;
    b, decpt := PutPointed(buf, b0, s, decpt0);
    b := Zeros(buf, b, if decpt > 0 then decpt else 0);
    Pow10Is1();
    if |s| > decpt0 {
      PointedReads(negative, s[..decpt0], s[decpt0..], sign);
      assert s[..decpt0] + s[decpt0..] == s;
      assert buf[..b] == sign + (s[..decpt0] + "." + s[decpt0..]);
    } else {
      WholeReads(negative, s, decpt, sign);
      assert buf[..b] == sign + (s + seq(decpt, _ => '0'));
    }
  }

  lemma PointedReads(negative: bool, whole: string, fraction: string, sign: string)
    requires whole != "" && fraction != "" && IsDigits(whole) && IsDigits(fraction)
    requires sign == if negative then "-" else ""
    ensures ReadNumber(sign + (whole + "." + fraction)) == Some(Number(negative, Dec(whole + fraction), -|fraction|))
  {
    hide ReadNumber, Dec, IsDigits;
    LayoutReads(negative, whole, fraction, NoExponent);
    LayoutParts(negative, whole, fraction, "", sign, ".");
    hide Layout;
    assert sign + (whole + "." + fraction) == sign + whole + "." + fraction + "";
  }

  lemma WholeReads(negative: bool, s: string, n: nat, sign: string)
    requires s != "" && IsDigits(s) && sign == if negative then "-" else ""
    ensures ReadNumber(sign + (s + seq(n, _ => '0'))) == Some(Number(negative, Dec(s) * Pow10(n), 0))
  {
    hide ReadNumber, Dec;
    var z := seq(n, _ => '0');
    ZerosAreZero(n);
    DecConcat(s, z);
    LayoutReads(negative, s + z, "", NoExponent);
    LayoutParts(negative, s + z, "", "", sign, "");
    assert sign + (s + z) == sign + (s + z) + "" + "" + "";
    assert (s + z) + "" == s + z;
  }

  /** g_fmt.c, lines 96 to 100: the digits, with the point among them if it belongs there. */
  method PutPointed(buf: array<char>, b0: nat, s: string, decpt0: int) returns (b: nat, decpt: int)
    requires b0 + |s| < buf.Length && decpt0 > 0
    modifies buf
    ensures b <= b0 + |s| + 1 && buf[..b] == old(buf[..b0]) + Pointed(s, decpt0, |s|)
    ensures decpt == decpt0 - |s| && (decpt >= 0 ==> b == b0 + |s|)
  {
    decpt := decpt0;
    b := b0;
    for i := 0 to |s|
      invariant decpt == decpt0 - i && b == b0 + |Pointed(s, decpt0, i)|
      invariant buf[..b] == old(buf[..b0]) + Pointed(s, decpt0, i)
    {
      ghost var was := Pointed(s, decpt0, i);
      PointedNext(s, decpt0, i);
      b := Put(buf, b, s[i]);
      decpt := decpt - 1;
      if decpt == 0 && i + 1 < |s| {
        b := Put(buf, b, '.');
      }
      assert buf[..b] == old(buf[..b0]) + Pointed(s, decpt0, i + 1);
    }
  }

  /** The first i digits, with the point if digits follow it. */
  ghost function Pointed(s: string, decpt: int, i: nat): string
    requires i <= |s| && decpt > 0
  {
    if i >= decpt && |s| > decpt then s[..decpt] + "." + s[decpt..i] else s[..i]
  }

  lemma PointedNext(s: string, decpt: int, i: nat)
    requires i < |s| && decpt > 0
    ensures Pointed(s, decpt, i + 1)
         == Pointed(s, decpt, i) + [s[i]] + if i + 1 == decpt && i + 1 < |s| then "." else ""
  {
    assert s[..i + 1] == s[..i] + [s[i]];
    if i >= decpt && |s| > decpt {
      assert s[decpt..i + 1] == s[decpt..i] + [s[i]];
    } else if i + 1 == decpt && |s| > decpt {
      assert s[decpt..i + 1] == "";
    }
  }
}
