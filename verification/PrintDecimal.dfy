/**
 From the big integers to the text: the digits of dtoa's fixed-length loop, laid out by fpconv_g_fmt
 (bundle/lua-cjson-2.1.0.5, dtoa.c and g_fmt.c).
 */
module PrintDecimal {
  import opened Arithmetic
  import opened BigintMul
  import opened Bigints
  import opened Decimals
  import opened DigitLoops
  import opened Doubles
  import opened GFmt
  import opened Quorems
  import opened ScaleDouble
  import Limbs

  /** m * 10^e and D * 10^f are the same number. */
  predicate SameDecimal(m: nat, e: int, D: nat, f: int) {
    if e >= f then m * Pow10(e - f) == D else m == D * Pow10(f - e)
  }

  /** The text denotes the number with this sign that is D units of 10^f. */
  predicate Reads(text: string, negative: bool, D: nat, f: int) {
    var n := ReadNumber(text);
    n.Some? && n.value.negative == negative && SameDecimal(n.value.mantissa, n.value.exponent, D, f)
  }

  /** The two texts are numbers, and the same one. */
  predicate SameNumbers(t: string, u: string) {
    var m, n := ReadNumber(t), ReadNumber(u);
    && m.Some? && n.Some? && m.value.negative == n.value.negative
    && SameDecimal(m.value.mantissa, m.value.exponent, n.value.mantissa, n.value.exponent)
  }

  /** An exponent moves the point: as many zeros are appended, or taken off. */
  lemma ExponentsAreZeros(s: string, x: string, zeros: string)
    requires s != "" && x != "" && IsDigits(s) && IsDigits(x)
    requires |zeros| == Dec(x) && forall i :: 0 <= i < |zeros| ==> zeros[i] == '0'
    ensures SameNumbers(s + "e+" + x, s + zeros) && SameNumbers(s + zeros + "e-" + x, s)
  {
    hide ReadNumber, Dec, Pow10;
    DecZeros(zeros);
    DecConcat(s, zeros);
    PlainNumbers(s, x);
    PlainNumbers(s + zeros, x);
    ExponentSigns(s, x);
    ExponentSigns(s + zeros, x);
    assert Pow10(0) == 1 by { Pow10Next(0); }
  }

  /** Equal numbers are m * 10^e and D * 10^f with, after a common shift, m * 10^i == D * 10^j. */
  lemma {:induction false} SameDecimalIff(m: nat, e: int, D: nat, f: int, i: nat, j: nat)
    requires i - j == e - f
    ensures SameDecimal(m, e, D, f) <==> m * Pow10(i) == D * Pow10(j)
  {
    hide Pow10;
    if i > 0 && j > 0 {
      SameDecimalIff(m, e, D, f, i - 1, j - 1);
      Pow10Next(i - 1);
      Pow10Next(j - 1);
      Times10(m, Pow10(i - 1));
      Times10(D, Pow10(j - 1));
    } else {
      Pow10Next(0);
    }
  }

  /**
   A number whose digits are those of b / S, of which k0 more than one are before the point, is printed with at most
   `precision` digits: the text fits 32 characters and denotes exactly the nearest such decimal, ties to even.
   */
  method Print(buf: array<char>, b: Bigint, S: Bigint, k0: int, negative: bool, precision: nat) returns (len: nat)
    requires buf.Length >= 32 && 1 <= precision <= 16 && -999 <= k0 <= 998
    requires b != S && b.x != S.x && b.Normal() && Positive(S) && FourLeadingZeros(S.Value())
    requires S.Value() <= b.Value() < 10 * S.Value()
    modifies b, b.x, buf
    ensures len < 32 && buf[len] == '\0'
    ensures exists D: nat :: RoundedHalfEven(D, precision, old(b.Value()), old(S.Value()))
                             && Reads(buf[..len], negative, D, k0 + 1 - precision)
  {
    hide Dec, Pow10, ReadNumber, RoundedHalfEven, FourLeadingZeros, Reads;
    var s, k := FixedDigits(b, S, precision, k0);
    len := FpconvGFmt(buf, s, k + 1, negative, precision);
    SameNumber(buf[..len], negative, s, k, k0, precision);
  }

  /** Digits and padding, with their exponent, are the rounded decimal with its own. */
  lemma SameNumber(text: string, negative: bool, s: string, k: int, k0: int, precision: nat)
    requires s != "" && IsDigits(s) && |s| <= precision && k0 <= k
    requires var pad := PadZeros(|s|, k + 1, precision);
      ReadNumber(text) == Some(Number(negative, Dec(s) * Pow10(pad), k + 1 - |s| - pad))
    ensures Reads(text, negative, Dec(s) * Pow10(precision - |s| + k - k0), k0 + 1 - precision)
  {
    hide Dec, Pow10, ReadNumber;
    var pad := PadZeros(|s|, k + 1, precision);
    var more := precision - |s| + k - k0;
    Pow10Sum(pad, more - pad);
    MulAssociative(Dec(s), Pow10(pad), Pow10(more - pad));
  }

  lemma Pow10Sum(m: nat, n: nat)
    ensures Pow10(m + n) == Pow10(m) * Pow10(n)
  {
    PowAdd(10, m, n);
  }

  /** Numerator and divisor of m * 2^be in units of 10^k, in blocks of their own. */
  ghost predicate Fraction(b: Bigint, S: Bigint, m: nat, be: int, k: int)
    reads b, b.x, S, S.x
  {
    && b != S && b.x != S.x && Positive(b) && Positive(S)
    && InUnits(b.Value(), S.Value(), m, be, k) && FourLeadingZeros(S.Value())
  }

  /** The same with powers of five only. */
  ghost predicate Fifths(b: Bigint, S: Bigint, m: nat, k: int)
    reads b, b.x, S, S.x
  {
    && b != S && b.x != S.x && Positive(b) && Positive(S)
    && b.Value() == m * Pow(5, Part(-k)) && S.Value() == Pow(5, Part(k))
  }

  /** dtoa.c, lines 4107 to 4123, without margins. */
  method FixedFactors(pool: Pow5Chain, m: Bigint, k: int) returns (b: Bigint, S: Bigint)
    requires pool.Valid() && pool.Apart(m) && Positive(m)
    modifies pool, pool.chain, m, m.x
    ensures pool.Valid() && pool.Apart(b) && (b == m || fresh(b)) && (b.x == m.x || fresh(b.x)) && fresh({S, S.x})
    ensures Fifths(b, S, old(m.Value()), k)
  {
    hide Limbs.Val, Limbs.P, Pow, Pow2;
    b := m;
    assert Pow(5, 0) == 1 by { FiveToNone(); }
    if Part(-k) > 0 {
      Product(m.Value(), Pow(5, Part(-k)));
      b := pool.Pow5Mult(b, Part(-k));
    }
    S := PowerOfFive(pool, Part(k));
  }

  /** dtoa.c, lines 4152 to 4159: four leading zeros for the divisor. */
  method ShiftedPair(b0: Bigint, S0: Bigint, b2: nat, s2: nat, ghost m: nat, ghost be: int, ghost k: int)
    returns (b: Bigint, S: Bigint)
    requires Fifths(b0, S0, m, k) && b2 - s2 == be - k
    ensures (b == b0 || fresh(b)) && (b.x == b0.x || fresh(b.x)) && (S == S0 || fresh({S, S.x}))
    ensures Fraction(b, S, m, be, k)
  {
    hide Limbs.Val, Limbs.P, Pow, Pow2, FourLeadingZeros, InUnits, Part, Bigint.Value;
    var more := Dshift(S0, s2);
    b := Shift(b0, b2 + more);
    S := Shift(S0, s2 + more);
    ScaledAre(m, b2 + more, s2 + more, be, k, 0);
    assert Pow2(0) == 1 by { Two(); }
  }

  /** dtoa.c, lines 3844 to 3862 and 4084 to 4159, without margins. */
  method FixedNumbers(pool: Pow5Chain, m: Bigint, be: int, k: int) returns (b: Bigint, S: Bigint)
    requires pool.Valid() && pool.Apart(m) && Positive(m)
    modifies pool, pool.chain, m, m.x
    ensures pool.Valid() && pool.Apart(b) && (b == m || fresh(b)) && (b.x == m.x || fresh(b.x)) && fresh({S, S.x})
    ensures Fraction(b, S, old(m.Value()), be, k)
  {
    ghost var value := m.Value();
    hide Limbs.Val, Limbs.P, Pow, Pow2, Fraction, Fifths, Part, Bigint.Value, Pow5Chain.Valid;
    var b2, m2, s2 := PowersOfTwo(be, k, 0);
    b, S := FixedFactors(pool, m, k);
    b, S := ShiftedPair(b, S, b2, s2, value, be, k);
  }

  /** dtoa.c, lines 4160 to 4168, without margins. */
  method CheckedDecade(b0: Bigint, S: Bigint, k0: int, check: bool, ghost m: nat, ghost be: int)
    returns (b: Bigint, k: int)
    requires Fraction(b0, S, m, be, k0)
    requires !AtLeast(m, be, k0 + 1) && AtLeast(m, be, if check then k0 - 1 else k0)
    modifies b0, b0.x
    ensures (b == b0 || fresh(b)) && (b.x == b0.x || fresh(b.x)) && Fraction(b, S, m, be, k)
    ensures k0 - 1 <= k <= k0 && S.Value() <= b.Value() < 10 * S.Value()
  {
    b, k := b0, k0;
    DecadeStarts(b.Value(), S.Value(), m, be, k);
    DecadeEnds(b.Value(), S.Value(), m, be, k);
    UnitsBelow(b.Value(), S.Value(), m, be, k);
    DecadeStarts(10 * b.Value(), S.Value(), m, be, k - 1);
    hide Limbs.Val, Limbs.P, FourLeadingZeros, InUnits, AtLeast, Bigint.Value;
    if check {
      var c := Cmp(b, S);
      if c < 0 {
        k := k - 1;
        b := MultAdd(b, 10, 0);
      }
    }
  }

  /** The decimals of doubles have exponents of three digits. */
  lemma DecadesOfDoubles(m: nat, be: int, k: int)
    requires 0 < m < Pow2(53) && -1074 <= be <= 1023
    ensures AtLeast(m, be, k) ==> k <= 900
    ensures !AtLeast(m, be, k + 1) ==> k >= -900
  {
    hide AtLeast, Pow2;
    if k > 900 {
      LargestDouble(m, be, k);
    }
    if k < -900 {
      LeastDouble(m, be, k + 1);
    }
  }

  lemma LargestDouble(m: nat, be: int, k: int)
    requires m < Pow2(53) && be <= 1023 && k > 900
    ensures !AtLeast(m, be, k)
  {
    hide Pow, Pow2, Pow10;
    PowersGrow(Part(be), 1023);
    Pow2Add(53, 1023);
    TensAreLarge(k);
    PowersGrow(1076, 3 * k);
    assert Part(-k) == 0 && Part(k) == k;
    assert Pow10(0) == 1 by { Pow10Next(0); }
    Above(m, Pow2(Part(be)), Pow2(53), Pow2(1023), Pow2(Part(-be)), Pow10(k));
  }

  lemma LeastDouble(m: nat, be: int, k: int)
    requires m > 0 && be >= -1074 && k < -899
    ensures AtLeast(m, be, k)
  {
    hide Pow, Pow2, Pow10;
    PowersGrow(Part(-be), 1074);
    TensAreLarge(-k);
    PowersGrow(1074, 3 * -k);
    assert Part(k) == 0 && Part(-k) == -k;
    assert Pow10(0) == 1 by { Pow10Next(0); }
    Below(m, Pow2(Part(be)), Pow10(-k));
  }

  lemma Above(m: nat, x: nat, a: nat, c: nat, y: nat, p: nat)
    requires m < a && 0 < x <= c && a * c < p && y > 0
    ensures m * x < y * p
  {
    MulMonotone(m, a, x);
    MulMonotone(x, c, a);
    MulMonotone(1, y, p);
  }

  lemma Below(m: nat, x: nat, p: nat)
    requires m > 0 && x > 0
    ensures m * x * p >= p
  {
    Product(m, x);
    MulMonotone(1, m * x, p);
  }

  lemma {:induction false} TensAreLarge(k: nat)
    ensures Pow10(k) >= Pow2(3 * k)
  {
    if k > 0 {
      TensAreLarge(k - 1);
      Pow10Next(k - 1);
      Pow2Add(3, 3 * (k - 1));
      assert Pow2(3) == 8 by { Two(); Pow2Add(1, 1); Pow2Add(2, 1); }
    }
  }

  /** The text denotes the decimal of this many digits nearest to m * 2^be, ties to even, in its decade. */
  ghost predicate ReadsAs(text: string, negative: bool, m: nat, be: int, precision: nat)
    requires precision > 0
  {
    exists D: nat, b: nat, S: nat, k: int ::
      && S <= b < 10 * S && InUnits(b, S, m, be, k) && RoundedHalfEven(D, precision, b, S)
      && Reads(text, negative, D, k + 1 - precision)
  }

  /**
   dtoa in mode 2 and fpconv_g_fmt, from the mantissa and exponent of a double and the estimate k0 of its logarithm,
   which is right or, if `check` says so, may be one too large: the text denotes the nearest decimal.
   */
  method PrintDouble(pool: Pow5Chain, buf: array<char>, m: Bigint, be: int, bbits: nat, denorm: bool, k0: int,
                     check: bool, negative: bool, precision: nat)
    returns (len: nat)
    requires pool.Valid() && pool.Apart(m) && Positive(m) && FromDouble(m.Value(), be, bbits, denorm)
    requires !AtLeast(m.Value(), be, k0 + 1) && AtLeast(m.Value(), be, if check then k0 - 1 else k0)
    requires buf.Length >= 32 && 1 <= precision <= 16
    modifies pool, pool.chain, m, m.x, buf
    ensures pool.Valid() && len < 32 && buf[len] == '\0'
    ensures ReadsAs(buf[..len], negative, old(m.Value()), be, precision)
  {
    ghost var value := m.Value();
    DoubleIsBounded(value, be, bbits, denorm);
    DecadesOfDoubles(value, be, k0);
    DecadesOfDoubles(value, be, if check then k0 - 1 else k0);
    hide Limbs.Val, Limbs.P, Pow, Pow2, FromDouble, AtLeast, Fraction, Bigint.Value, Pow5Chain.Valid, ReadsAs;
    var b, S := FixedNumbers(pool, m, be, k0);
    len := FromFraction(buf, b, S, k0, check, negative, precision, value, be);
  }

  lemma DoubleIsBounded(m: nat, be: int, bbits: nat, denorm: bool)
    requires FromDouble(m, be, bbits, denorm)
    ensures 0 < m < Pow2(53) && -1074 <= be <= 1023
  {
    PowersGrow(if bbits <= 53 then bbits else 53, 53);
  }

  method FromFraction(buf: array<char>, b0: Bigint, S: Bigint, k0: int, check: bool, negative: bool, precision: nat,
                      ghost m: nat, ghost be: int)
    returns (len: nat)
    requires Fraction(b0, S, m, be, k0) && buf.Length >= 32 && 1 <= precision <= 16 && -900 <= k0 <= 901
    requires !AtLeast(m, be, k0 + 1) && AtLeast(m, be, if check then k0 - 1 else k0)
    modifies b0, b0.x, buf
    ensures len < 32 && buf[len] == '\0' && ReadsAs(buf[..len], negative, m, be, precision)
  {
    hide Limbs.Val, Limbs.P, Pow, Pow2, InUnits, AtLeast, FourLeadingZeros, Bigint.Value, RoundedHalfEven, Reads;
    var b, k := CheckedDecade(b0, S, k0, check, m, be);
    ghost var vb, vs := b.Value(), S.Value();
    len := Print(buf, b, S, k, negative, precision);
  }
}
