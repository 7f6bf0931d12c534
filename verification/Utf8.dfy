/** UTF-8 (RFC 3629 section 3) and lua-cjson's encoder for single code points (lua_cjson.c codepoint_to_utf8). */
module Utf8 {
  import opened Octets

  /** A Unicode scalar value. */
  predicate Scalar(cp: int) {
    0 <= cp < 0xD800 || 0xE000 <= cp <= 0x10_FFFF
  }

  predicate Tail(b: Octet) {
    0x80 <= b < 0xC0
  }

  /** The well-formed sequences for one scalar value, by their bytes (RFC 3629 section 4). */
  predicate WellFormed(u: seq<Octet>) {
    || (|u| == 1 && u[0] < 0x80)
    || (|u| == 2 && 0xC2 <= u[0] < 0xE0 && Tail(u[1]))
    || (|u| == 3 && 0xE0 <= u[0] < 0xF0 && Tail(u[1]) && Tail(u[2])
        && (u[0] == 0xE0 ==> u[1] >= 0xA0) && (u[0] == 0xED ==> u[1] < 0xA0))
    || (|u| == 4 && 0xF0 <= u[0] < 0xF5 && Tail(u[1]) && Tail(u[2]) && Tail(u[3])
        && (u[0] == 0xF0 ==> u[1] >= 0x90) && (u[0] == 0xF4 ==> u[1] < 0x90))
  }

  /** The number in the free bits of a sequence. */
  function CodePoint(u: seq<Octet>): int
    requires WellFormed(u)
  {
    if |u| == 1 then Free(u[0], 0x80)
    else if |u| == 2 then Free(u[0], 0x20) * 0x40 + Free(u[1], 0x40)
    else if |u| == 3 then Free(u[0], 0x10) * 0x1000 + Free(u[1], 0x40) * 0x40 + Free(u[2], 0x40)
    else Free(u[0], 0x08) * 0x4_0000 + Free(u[1], 0x40) * 0x1000 + Free(u[2], 0x40) * 0x40 + Free(u[3], 0x40)
  }

  /** The bits below m. */
  function Free(b: Octet, m: nat): nat
    requires m > 0
  {
    var n: nat := b;
    n % m
  }

  /** codepoint_to_utf8; nothing for numbers beyond 21 bits. */
  function Encode(cp: nat): (u: seq<Octet>)
    ensures |u| <= 4
  {
    if cp <= 0x7F then [cp]
    else if cp <= 0x7FF then [0xC0 + cp / 0x40, 0x80 + cp % 0x40]
    else if cp <= 0xFFFF then [0xE0 + cp / 0x1000, 0x80 + cp / 0x40 % 0x40, 0x80 + cp % 0x40]
    else if cp <= 0x1F_FFFF then
      [0xF0 + cp / 0x4_0000, 0x80 + cp / 0x1000 % 0x40, 0x80 + cp / 0x40 % 0x40, 0x80 + cp % 0x40]
    else []
  }

  /** A scalar value is encoded in well-formed UTF-8 that denotes it. */
  lemma EncodeIsWellFormed(cp: nat)
    requires Scalar(cp)
    ensures WellFormed(Encode(cp)) && CodePoint(Encode(cp)) == cp
  {
    if cp <= 0x7F {
    } else if cp <= 0x7FF {
      Split(cp, cp / 0x40, cp % 0x40);
    } else if cp <= 0xFFFF {
      Three(cp, cp / 0x1000, cp / 0x40 % 0x40, cp % 0x40);
    } else {
      Four(cp, cp / 0x4_0000, cp / 0x1000 % 0x40, cp / 0x40 % 0x40, cp % 0x40);
    }
  }

  lemma Split(cp: nat, hi: nat, lo: nat)
    requires 0x7F < cp <= 0x7FF && hi == cp / 0x40 && lo == cp % 0x40
    ensures WellFormed([0xC0 + hi, 0x80 + lo]) && CodePoint([0xC0 + hi, 0x80 + lo]) == cp
  {
    assert (0xC0 + hi) % 0x20 == hi && (0x80 + lo) % 0x40 == lo;
  }

  lemma Three(cp: nat, a: nat, b: nat, c: nat)
    requires 0x7FF < cp <= 0xFFFF && Scalar(cp) && a == cp / 0x1000 && b == cp / 0x40 % 0x40 && c == cp % 0x40
    ensures var u := [0xE0 + a, 0x80 + b, 0x80 + c]; WellFormed(u) && CodePoint(u) == cp
  {
    assert cp == a * 0x1000 + b * 0x40 + c;
    assert (0xE0 + a) % 0x10 == a && (0x80 + b) % 0x40 == b && (0x80 + c) % 0x40 == c;
  }

  lemma Four(cp: nat, a: nat, b: nat, c: nat, d: nat)
    requires 0xFFFF < cp <= 0x10_FFFF
    requires a == cp / 0x4_0000 && b == cp / 0x1000 % 0x40 && c == cp / 0x40 % 0x40 && d == cp % 0x40
    ensures var u := [0xF0 + a, 0x80 + b, 0x80 + c, 0x80 + d]; WellFormed(u) && CodePoint(u) == cp
  {
    FromParts(cp, a, b, c, d);
    assert (0xF0 + a) % 0x08 == a && (0x80 + b) % 0x40 == b && (0x80 + c) % 0x40 == c && (0x80 + d) % 0x40 == d;
  }

  lemma FromParts(cp: nat, a: nat, b: nat, c: nat, d: nat)
    requires a == cp / 0x4_0000 && b == cp / 0x1000 % 0x40 && c == cp / 0x40 % 0x40 && d == cp % 0x40
    ensures cp == a * 0x4_0000 + b * 0x1000 + c * 0x40 + d
  {
    Shifts(cp);
  }

  /** The numbers that the sequences of each length stand for. */
  lemma EncodeIs(cp: nat)
    requires Scalar(cp)
    ensures var u := Encode(cp);
      if cp < 0x80 then u == [cp]
      else if cp < 0x800 then |u| == 2 && cp == (u[0] as int - 0xC0) * 64 + (u[1] as int - 0x80) && Tail(u[1])
      else if cp < 0x1_0000 then
        && |u| == 3 && Tail(u[1]) && Tail(u[2])
        && cp == ((u[0] as int - 0xE0) * 64 + (u[1] as int - 0x80)) * 64 + (u[2] as int - 0x80)
      else
        && |u| == 4 && Tail(u[1]) && Tail(u[2]) && Tail(u[3])
        && cp / 64 == ((u[0] as int - 0xF0) * 64 + (u[1] as int - 0x80)) * 64 + (u[2] as int - 0x80)
        && cp % 64 == u[3] as int - 0x80
  {
    var a, b := cp / 0x40, cp / 0x1000;
    assert b == a / 0x40 && cp / 0x4_0000 == b / 0x40;
  }

  /** Well-formed UTF-8 denotes a scalar value and is the only one to denote it. */
  lemma WellFormedIsEncode(u: seq<Octet>)
    requires WellFormed(u)
    ensures Scalar(CodePoint(u)) && Encode(CodePoint(u)) == u
  {
    match |u|
    case 2 => Two(CodePoint(u), u[0] as int - 0xC0, u[1] as int - 0x80);
    case 3 => ThreeBack(u);
    case 4 => FourBack(u);
    case _ =>
  }

  lemma Two(v: nat, q: int, r: int)
    requires 0 <= r < 0x40 && v == 0x40 * q + r
    ensures q == v / 0x40 && r == v % 0x40
  {}

  lemma ThreeBack(u: seq<Octet>)
    requires WellFormed(u) && |u| == 3
    ensures Scalar(CodePoint(u)) && Encode(CodePoint(u)) == u
  {
    var a: int, b: int, c: int := u[0] as int - 0xE0, u[1] as int - 0x80, u[2] as int - 0x80;
    var cp := CodePoint(u);
    assert cp == 0x40 * (0x40 * a + b) + c;
    Two(cp, 0x40 * a + b, c);
    Two(cp / 0x40, a, b);
    assert cp / 0x1000 == cp / 0x40 / 0x40;
  }

  lemma FourBack(u: seq<Octet>)
    requires WellFormed(u) && |u| == 4
    ensures Scalar(CodePoint(u)) && Encode(CodePoint(u)) == u
  {
    FourParts(CodePoint(u), u[0] as int - 0xF0, u[1] as int - 0x80, u[2] as int - 0x80, u[3] as int - 0x80);
  }

  lemma FourParts(cp: nat, a: nat, b: nat, c: nat, d: nat)
    requires b < 0x40 && c < 0x40 && d < 0x40 && cp == a * 0x4_0000 + b * 0x1000 + c * 0x40 + d
    ensures a == cp / 0x4_0000 && b == cp / 0x1000 % 0x40 && c == cp / 0x40 % 0x40 && d == cp % 0x40
  {
    var x := 0x40 * a + b;
    var y := 0x40 * x + c;
    Two(cp, y, d);
    Two(y, x, c);
    Two(x, a, b);
    Shifts(cp);
  }

  lemma Shifts(cp: nat)
    ensures cp / 0x1000 == cp / 0x40 / 0x40 && cp / 0x4_0000 == cp / 0x40 / 0x40 / 0x40
  {}
}
