/**
 From a double to the digit loop (bundle/lua-cjson-2.1.0.5/dtoa.c, lines 3844 to 3862 and 4084 to 4194): numerator,
 divisor and margins as products of powers of two and five, and the shortest digits of any double.
 */
module ScaleDouble {
  import opened Arithmetic
  import opened BigintMul
  import opened Bigints
  import opened Decimals
  import opened DigitLoops
  import opened Doubles
  import Limbs
  import opened Quorems

  /** What d2b gives for a positive double: m * 2^be with an odd m of bbits bits, denormalized or not. */
  ghost predicate FromDouble(m: nat, be: int, bbits: nat, denorm: bool) {
    && bbits > 0 && Pow2(bbits - 1) <= m < Pow2(bbits) && m % 2 == 1
    && if denorm then -1074 <= be && be + bbits <= -1022 else bbits <= 53 && -1021 <= be + bbits <= 1024
  }

  /** dtoa.c, lines 4088 to 4096: how far the last place of the double is below that of m, and one more. */
  function Places(be: int, bbits: nat, denorm: bool): int {
    if denorm then be + 1075 else 54 - bbits
  }

  lemma PlacesArePositive(m: nat, be: int, bbits: nat, denorm: bool)
    requires FromDouble(m, be, bbits, denorm)
    ensures Places(be, bbits, denorm) > 0
  {}

  /** The double in its own last place. */
  ghost function Mantissa(m: nat, be: int, bbits: nat, denorm: bool): nat
    requires FromDouble(m, be, bbits, denorm)
  {
    m * Pow2(Places(be, bbits, denorm) - 1)
  }

  function Exponent(be: int, bbits: nat, denorm: bool): int {
    be - (Places(be, bbits, denorm) - 1)
  }

  lemma IsOne(m: nat, be: int, bbits: nat, denorm: bool)
    requires FromDouble(m, be, bbits, denorm)
    ensures IsDouble(Mantissa(m, be, bbits, denorm), Exponent(be, bbits, denorm))
    ensures AtBoundary(Mantissa(m, be, bbits, denorm), Exponent(be, bbits, denorm)) <==>
            bbits == 1 && !denorm && be > -1022
  {
    var i := Places(be, bbits, denorm) - 1;
    Pow2Add(bbits - 1, i);
    Pow2Add(bbits, i);
    hide Pow2;
    MulMonotone(Pow2(bbits - 1), m, Pow2(i));
    MulMonotone(m, Pow2(bbits), Pow2(i));
    if denorm {
      PowersGrow(bbits + i, 52);
      PowersGrow(52, 53);
    } else {
      OnlyPower(m, bbits);
    }
  }

  lemma PowersGrow(j: nat, k: nat)
    requires j <= k
    ensures Pow2(j) <= Pow2(k) && (j < k ==> Pow2(j) < Pow2(k))
  {
    Pow2Add(j, k - j);
    hide Pow2;
    MulMonotone(1, Pow2(k - j), Pow2(j));
    if j < k {
      Pow2Add(1, k - j - 1);
      assert Pow2(1) == 2 by { Two(); }
      MulMonotone(2, Pow2(k - j), Pow2(j));
    }
  }

  lemma Two()
    ensures Pow2(1) == 2 && Pow2(0) == 1
  {
    assert Pow(2, 1) == 2 * Pow(2, 0);
  }

  /** An odd number is the least of its bits only if it is one. */
  lemma OnlyPower(m: nat, bbits: nat)
    requires bbits > 0 && m % 2 == 1 && Pow2(bbits - 1) <= m
    ensures m == Pow2(bbits - 1) <==> m == 1 && bbits == 1
  {
    Two();
    if bbits > 1 {
      Pow2Add(1, bbits - 2);
      assert Pow2(bbits - 1) % 2 == 0;
    }
  }

  /** n * 2^e is at least 10^k. */
  ghost predicate AtLeast(n: nat, e: int, k: int) {
    n * Pow2(Part(e)) * Pow10(Part(-k)) >= Pow2(Part(-e)) * Pow10(Part(k))
  }

  lemma DecadeStarts(b: nat, S: nat, n: nat, e: int, k: int)
    requires InUnits(b, S, n, e, k) && S > 0
    ensures b >= S <==> AtLeast(n, e, k)
  {
    var x, y := Pow2(Part(-e)) * Pow10(Part(k)), n * Pow2(Part(e)) * Pow10(Part(-k));
    Product(Pow2(Part(-e)), Pow10(Part(k)));
    MulAssociative(b, Pow2(Part(-e)), Pow10(Part(k)));
    assert b * x == y * S;
    hide Pow2, Pow10;
    Ratio(b, x, y, S);
  }

  lemma Product(x: nat, y: nat)
    requires x > 0 && y > 0
    ensures x * y > 0
  {}

  lemma Ratio(b: nat, x: nat, y: nat, S: nat)
    requires b * x == y * S && S > 0 && x > 0
    ensures b >= S <==> y >= x
  {
    MulMonotone(b, S, x);
    MulMonotone(S, b, x);
    MulMonotone(x, y, S);
    MulMonotone(y, x, S);
  }

  /** Ten times the numerator is the number in the next lower units. */
  lemma UnitsBelow(b: nat, S: nat, n: nat, e: int, k: int)
    requires InUnits(b, S, n, e, k)
    ensures InUnits(10 * b, S, n, e, k - 1)
  {
    var x, y := Pow2(Part(-e)), n * Pow2(Part(e));
    if k > 0 {
      Pow10Next(k - 1);
      hide Pow2, Pow10;
      assert b * x * (10 * Pow10(k - 1)) == 10 * b * x * Pow10(k - 1);
    } else {
      Pow10Next(-k);
      assert Part(-(k - 1)) == -k + 1 && Part(-k) == -k && Part(k) == Part(k - 1) == 0;
      hide Pow2, Pow10;
      TenMore(b, x, y, S, Pow10(0), Pow10(-k));
    }
  }

  lemma TenMore(b: nat, x: nat, y: nat, S: nat, u: nat, p: nat)
    requires b * x * u == y * p * S
    ensures 10 * b * x * u == y * (10 * p) * S
  {
    assert 10 * b * x * u == 10 * (b * x * u);
    assert y * (10 * p) == 10 * (y * p);
    MulAssociative(10, y * p, S);
  }

  /** Less than 10^(k + 1) is less than ten units. */
  lemma DecadeEnds(b: nat, S: nat, n: nat, e: int, k: int)
    requires InUnits(b, S, n, e, k) && S > 0 && !AtLeast(n, e, k + 1)
    ensures b < 10 * S
  {
    hide Pow2, Pow10;
    var x, y := Pow2(Part(-e)), n * Pow2(Part(e));
    if k >= 0 {
      Pow10Next(k);
      assert Part(k) == k && Part(k + 1) == k + 1 && Part(-k) == Part(-(k + 1)) == 0;
      MulAssociative(b, x, Pow10(k));
      MulAssociative(x, 10, Pow10(k));
      BelowTen(b, S, x * Pow10(k), y * Pow10(0));
    } else {
      Pow10Next(-k - 1);
      assert Part(k) == Part(k + 1) == 0 && Part(-k) == -k && Part(-(k + 1)) == -k - 1;
      MulAssociative(b, x, Pow10(0));
      MulAssociative(y, 10, Pow10(-k - 1));
      BelowTen(b, S, x * Pow10(0), y * (10 * Pow10(-k - 1)));
    }
  }

  lemma BelowTen(b: nat, S: nat, x: nat, y: nat)
    requires b * x == y * S && S > 0 && y < 10 * x
    ensures b < 10 * S
  {
    MulMonotone(y, 10 * x, S);
    assert 10 * x * S == 10 * S * x;
    MulMonotone(10 * S, b, x);
  }

  lemma {:induction false} Pow10Split(k: nat)
    ensures Pow10(k) == Pow2(k) * Pow(5, k)
  {
    if k > 0 {
      Pow10Split(k - 1);
      Pow10Next(k - 1);
      assert Pow2(k) == 2 * Pow2(k - 1) && Pow(5, k) == 5 * Pow(5, k - 1);
      Fold(Pow2(k - 1), Pow(5, k - 1));
    }
  }

  lemma Fold(x: nat, y: nat)
    ensures 2 * x * (5 * y) == 10 * (x * y)
  {}

  /** Products of powers of two and five whose exponents of two differ by be - k are the double in units of 10^k. */
  lemma ScaledAre(m: nat, b2: nat, s2: nat, be: int, k: int, i: nat)
    requires b2 - s2 == be - k
    ensures InUnits(m * Pow(5, Part(-k)) * Pow2(b2), Pow(5, Part(k)) * Pow2(s2), m * Pow2(i), be - i, k)
  {
    var e := be - i;
    Pow10Split(Part(k));
    Pow10Split(Part(-k));
    ThreePowers(b2, Part(-e), Part(k));
    FourPowers(i, Part(e), Part(-k), s2);
    assert b2 + Part(-e) + Part(k) == i + Part(e) + Part(-k) + s2;
    hide Pow, Pow2, Pow10;
    var A, C := Pow(5, Part(-k)), Pow(5, Part(k));
    Gather(m, A, C, Pow2(b2), Pow2(Part(-e)), Pow2(Part(k)));
    GatherMore(m, A, C, Pow2(i), Pow2(Part(e)), Pow2(Part(-k)), Pow2(s2));
  }

  lemma ThreePowers(a: nat, b: nat, c: nat)
    ensures Pow2(a) * Pow2(b) * Pow2(c) == Pow2(a + b + c)
  {
    Pow2Add(a, b);
    Pow2Add(a + b, c);
  }

  lemma FourPowers(a: nat, b: nat, c: nat, d: nat)
    ensures Pow2(a) * Pow2(b) * Pow2(c) * Pow2(d) == Pow2(a + b + c + d)
  {
    ThreePowers(a, b, c);
    Pow2Add(a + b + c, d);
  }

  lemma Gather(m: nat, A: nat, C: nat, x: nat, y: nat, z: nat)
    ensures m * A * x * y * (z * C) == m * A * C * (x * y * z)
  {}

  lemma GatherMore(m: nat, A: nat, C: nat, w: nat, x: nat, y: nat, z: nat)
    ensures m * w * x * (y * A) * (C * z) == m * A * C * (w * x * y * z)
  {}

  /** Half of the last place is the numerator without the mantissa. */
  lemma HalfPlace(m: nat, A: nat, i: nat, m2: nat)
    requires i > 0
    ensures m * A * Pow2(m2 + i) == 2 * (m * Pow2(i - 1)) * (A * Pow2(m2))
  {
    Pow2Add(m2, i);
    Pow2Add(1, i - 1);
    Two();
    hide Pow2;
    var x, y := Pow2(i - 1), Pow2(m2);
    assert m * A * (y * (2 * x)) == 2 * (m * x) * (A * y);
  }

  /** i2b(1) */
  method One() returns (b: Bigint)
    ensures fresh(b) && fresh(b.x) && Positive(b) && b.Value() == 1
  {
    b := new Bigint.Balloc(1);
    b.x[0] := 1;
    b.wds := 1;
    Limbs.ValOne(b.x[..1]);
  }

  /** lshift, if there is anything to shift by. */
  method Shift(b0: Bigint, k: nat) returns (b: Bigint)
    requires Positive(b0)
    ensures (b == b0 && k == 0) || (fresh(b) && fresh(b.x))
    ensures Positive(b) && b.Value() == b0.Value() * Pow2(k)
  {
    hide Limbs.Val, Limbs.P;
    b := b0;
    Two();
    if k > 0 {
      b := Lshift(b, k);
      Product(b0.Value(), Pow2(k));
    }
  }

  lemma FiveToNone()
    ensures Pow(5, 0) == 1
  {}

  /** dtoa.c, lines 4099, 4110 and 4121 to 4123: a power of five in a block of its own. */
  method PowerOfFive(pool: Pow5Chain, k: nat) returns (p: Bigint)
    requires pool.Valid()
    modifies pool, pool.chain
    ensures pool.Valid() && pool.Grown() && pool.Apart(p) && fresh(p) && fresh(p.x)
    ensures Positive(p) && p.Value() == Pow(5, k)
  {
    hide Limbs.Val, Limbs.P, Pow, Pow2;
    p := One();
    assert Pow(5, 0) == 1 by { FiveToNone(); }
    if k > 0 {
      p := pool.Pow5Mult(p, k);
    }
  }

  /** dtoa.c, lines 4107 to 4120: the powers of five of the margin and of the numerator. */
  method Fives(pool: Pow5Chain, m: Bigint, b5: nat) returns (b: Bigint, mhi: Bigint)
    requires pool.Valid() && pool.Apart(m) && Positive(m)
    modifies pool, pool.chain
    ensures pool.Valid() && pool.Grown() && pool.Apart(b) && pool.Apart(mhi)
    ensures fresh(mhi) && fresh(mhi.x) && (b == m || (fresh(b) && fresh(b.x))) && b != mhi && b.x != mhi.x
    ensures Positive(b) && Positive(mhi) && mhi.Value() == Pow(5, b5) && b.Value() == old(m.Value()) * Pow(5, b5)
  {
    hide Limbs.Val, Limbs.P, Pow, Pow2, Bigint.Value, Pow5Chain.Valid;
    b := m;
    mhi := PowerOfFive(pool, b5);
    assert Pow(5, 0) == 1 by { FiveToNone(); }
    if b5 > 0 {
      b := Mult(mhi, m);
      Product(m.Value(), Pow(5, b5));
    }
  }

  /** Blocks of their own. */
  ghost predicate Distinct(b: Bigint, S: Bigint, mhi: Bigint)
    reads b, S, mhi
  {
    b != S && b.x != S.x && b != mhi && b.x != mhi.x && S != mhi && S.x != mhi.x
  }

  /** Numerator and divisor of a double in units of 10^k, and the power of five of its margins, to be shifted yet. */
  ghost predicate Prepared(b: nat, S: nat, fives: nat, shift: nat, n: nat, e: int, k: int) {
    InUnits(b, S, n, e, k) && b == 2 * n * (fives * Pow2(shift)) && FourLeadingZeros(S)
  }

  /** dtoa.c, lines 3844 to 3862 and 4084 to 4106: the exponents of two, with what they have in common taken off. */
  method PowersOfTwo(be: int, k: int, i: nat) returns (b2: nat, m2: nat, s2: nat)
    ensures b2 == m2 + i && b2 - s2 == be - k
  {
    m2 := Part(be) + Part(-k);
    b2, s2 := m2 + i, Part(-be) + Part(k) + i;
    if m2 > 0 && s2 > 0 {
      var common := if m2 < s2 then m2 else s2;
      b2, m2, s2 := b2 - common, m2 - common, s2 - common;
    }
  }

  /** Numerator, divisor and margin with their powers of five only. */
  ghost predicate Factored(b: Bigint, S: Bigint, mhi: Bigint, m: nat, k: int)
    reads b, b.x, S, S.x, mhi, mhi.x
  {
    && Distinct(b, S, mhi) && Positive(b) && Positive(S) && Positive(mhi)
    && b.Value() == m * Pow(5, Part(-k)) && S.Value() == Pow(5, Part(k)) && mhi.Value() == Pow(5, Part(-k))
  }

  /** dtoa.c, lines 4107 to 4123: the powers of five. */
  method Factors(pool: Pow5Chain, m: Bigint, k: int) returns (b: Bigint, S: Bigint, mhi: Bigint)
    requires pool.Valid() && pool.Apart(m) && Positive(m)
    modifies pool, pool.chain
    ensures pool.Valid() && pool.Grown() && pool.Apart(mhi)
    ensures fresh({S, S.x, mhi, mhi.x})
    ensures Factored(b, S, mhi, old(m.Value()), k)
  {
    hide Limbs.Val, Limbs.P, Pow, Pow2;
    b, mhi := Fives(pool, m, Part(-k));
    S := PowerOfFive(pool, Part(k));
  }

  /** All that is ready but the shifts of the margins. */
  ghost predicate Ready(b: Bigint, S: Bigint, mhi: Bigint, shift: nat, n: nat, e: int, k: int)
    reads b, b.x, S, S.x, mhi, mhi.x
  {
    && Distinct(b, S, mhi) && Positive(b) && Positive(S) && Positive(mhi)
    && Prepared(b.Value(), S.Value(), mhi.Value(), shift, n, e, k)
  }

  lemma Together(m: nat, b0: nat, b: nat, S: nat, b2: nat, s2: nat, be: int, k: int, i: nat, m2: nat)
    requires b0 == m * Pow(5, Part(-k)) && b == b0 * Pow2(b2) && S == Pow(5, Part(k)) * Pow2(s2)
    requires i > 0 && b2 - s2 == be - k && b2 == m2 + i && FourLeadingZeros(S)
    ensures Prepared(b, S, Pow(5, Part(-k)), m2, m * Pow2(i - 1), be - (i - 1), k)
  {
    hide Pow, Pow2, FourLeadingZeros, InUnits;
    ScaledAre(m, b2, s2, be, k, i - 1);
    HalfPlace(m, Pow(5, Part(-k)), i, m2);
  }

  /** dtoa.c, lines 4127 to 4159: one more place for a power of two, and four leading zeros for the divisor. */
  method ShiftBoth(b0: Bigint, S0: Bigint, ghost mhi: Bigint, b20: nat, m20: nat, s20: nat, special: bool,
                   ghost m: nat, ghost be: int, ghost k: int, ghost i: nat)
    returns (b: Bigint, S: Bigint, m2: nat)
    requires Factored(b0, S0, mhi, m, k)
    requires i > 0 && b20 == m20 + i && b20 - s20 == be - k
    ensures fresh(b) && fresh(b.x) && (S == S0 || (fresh(S) && fresh(S.x)))
    ensures Ready(b, S, mhi, m2 + if special then 1 else 0, m * Pow2(i - 1), be - (i - 1), k)
  {
    hide Limbs.Val, Limbs.P, Pow, Pow2, FourLeadingZeros, InUnits, Prepared, Bigint.Value;
    m2 := m20;
    var b2, s2 := b20, s20;
    if special {
      b2, s2 := b2 + 1, s2 + 1;
    }
    var more := Dshift(S0, s2);
    b2, m2, s2 := b2 + more, m2 + more, s2 + more;
    b := Shift(b0, b2);
    S := Shift(S0, s2);
    Together(m, b0.Value(), b.Value(), S.Value(), b2, s2, be, k, i, m2 + if special then 1 else 0);
  }

  /**
   dtoa.c, lines 3844 to 3862 and 4084 to 4159: the numbers, shifted so that the divisor has four leading zeros. The
   margin is left to be shifted by m2, and by one more for a power of two (`special`), whose lower margin is half of
   the upper one.
   */
  method Numbers(pool: Pow5Chain, m: Bigint, be: int, k: int, i: nat, special: bool)
    returns (b: Bigint, S: Bigint, mhi: Bigint, m2: nat)
    requires pool.Valid() && pool.Apart(m) && Positive(m) && i > 0
    modifies pool, pool.chain
    ensures pool.Valid() && pool.Apart(b) && pool.Apart(mhi) && fresh({b, b.x, S, S.x, mhi, mhi.x})
    ensures Ready(b, S, mhi, m2 + if special then 1 else 0, old(m.Value()) * Pow2(i - 1), be - (i - 1), k)
  {
    ghost var value := m.Value();
    hide Limbs.Val, Limbs.P, Pow, Pow2, Ready, Factored, Bigint.Value, Pow5Chain.Valid, Part;
    var b2, s2;
    b2, m2, s2 := PowersOfTwo(be, k, i);
    b, S, mhi := Factors(pool, m, k);
    b, S, m2 := ShiftBoth(b, S, mhi, b2, m2, s2, special, value, be, k, i);
  }

  /** dtoa.c, lines 4163 to 4165: numerator and margin times ten. */
  method TenTimes(b0: Bigint, S: Bigint, mhi0: Bigint) returns (b: Bigint, mhi: Bigint)
    requires Distinct(b0, S, mhi0) && Positive(b0) && Positive(S) && Positive(mhi0)
    modifies b0, b0.x, mhi0, mhi0.x
    ensures (b == b0 || fresh(b)) && (b.x == b0.x || fresh(b.x))
    ensures (mhi == mhi0 || fresh(mhi)) && (mhi.x == mhi0.x || fresh(mhi.x))
    ensures Distinct(b, S, mhi) && Positive(b) && Positive(S) && Positive(mhi)
    ensures b.Value() == 10 * old(b0.Value()) && mhi.Value() == 10 * old(mhi0.Value()) && S.Value() == old(S.Value())
  {
    hide Limbs.Val, Bigint.Valid, Bigint.Normal, Bigint.Value;
    b := MultAdd(b0, 10, 0);
    mhi := MultAdd(mhi0, 10, 0);
  }

  /** dtoa.c, lines 4160 to 4168: if k is one too many, the next lower units are taken. */
  method AtDecade(b0: Bigint, S: Bigint, mhi0: Bigint, k0: int, check: bool,
                  ghost shift: nat, ghost n: nat, ghost e: int)
    returns (b: Bigint, mhi: Bigint, k: int)
    requires Ready(b0, S, mhi0, shift, n, e, k0)
    requires !AtLeast(n, e, k0 + 1) && AtLeast(n, e, if check then k0 - 1 else k0)
    modifies b0, b0.x, mhi0, mhi0.x
    ensures (b == b0 || fresh(b)) && (b.x == b0.x || fresh(b.x))
    ensures (mhi == mhi0 || fresh(mhi)) && (mhi.x == mhi0.x || fresh(mhi.x))
    ensures Ready(b, S, mhi, shift, n, e, k) && S.Value() <= b.Value() < 10 * S.Value()
  {
    b, mhi, k := b0, mhi0, k0;
    Decades(b.Value(), S.Value(), mhi.Value(), shift, n, e, k, check);
    hide Limbs.Val, Limbs.P, Prepared, AtLeast, Bigint.Value;
    if check {
      var c := Cmp(b, S);
      if c < 0 {
        k := k - 1;
        b, mhi := TenTimes(b, S, mhi);
      }
    }
  }

  lemma Decades(b: nat, S: nat, fives: nat, shift: nat, n: nat, e: int, k: int, check: bool)
    requires S > 0 && Prepared(b, S, fives, shift, n, e, k)
    requires !AtLeast(n, e, k + 1) && AtLeast(n, e, if check then k - 1 else k)
    ensures b < 10 * S && (b < S ==> check && Prepared(10 * b, S, 10 * fives, shift, n, e, k - 1) && 10 * b >= S)
  {
    DecadeStarts(b, S, n, e, k);
    DecadeEnds(b, S, n, e, k);
    UnitsBelow(b, S, n, e, k);
    DecadeStarts(10 * b, S, n, e, k - 1);
    TenfoldMargin(b, n, fives, Pow2(shift));
  }

  lemma TenfoldMargin(b: nat, n: nat, fives: nat, p: nat)
    requires b == 2 * n * (fives * p)
    ensures 10 * b == 2 * n * (10 * fives * p)
  {}

  /** dtoa.c, lines 4181 to 4194: the margins, half of the distances to the neighbours. */
  method BothMargins(b: Bigint, S: Bigint, mhi0: Bigint, m2: nat, special: bool, inclusive: bool,
                     ghost n: nat, ghost e: int, ghost k: int)
    returns (mlo: Bigint, mhi: Bigint, ghost v: Target)
    requires Ready(b, S, mhi0, m2 + if special then 1 else 0, n, e, k) && (special <==> AtBoundary(n, e))
    ensures (mlo == mhi0 || fresh(mlo)) && (mlo.x == mhi0.x || fresh(mlo.x))
    ensures (mhi == mhi0 || fresh(mhi)) && (mhi.x == mhi0.x || fresh(mhi.x))
    ensures DigitLoops.Apart(b, S, mlo, mhi) && Positive(b) && Positive(S) && Positive(mlo) && Positive(mhi)
    ensures v == Target(b.Value(), S.Value(), mlo.Value(), mhi.Value(), inclusive) && Scales(v, n, e, k)
    ensures FourLeadingZeros(v.S)
  {
    PreparedSays(b.Value(), S.Value(), mhi0.Value(), m2, special, n, e, k);
    hide Limbs.Val, Limbs.P, Pow, Pow2, FourLeadingZeros, InUnits, Prepared, Bigint.Value, AtBoundary;
    mlo := Shift(mhi0, m2);
    mhi := mlo;
    if special {
      Two();
      mhi := Shift(mlo, 1);
    }
    v := Target(b.Value(), S.Value(), mlo.Value(), mhi.Value(), inclusive);
  }

  lemma PreparedSays(b: nat, S: nat, fives: nat, m2: nat, special: bool, n: nat, e: int, k: int)
    requires Prepared(b, S, fives, m2 + if special then 1 else 0, n, e, k)
    ensures InUnits(b, S, n, e, k) && FourLeadingZeros(S)
    ensures b == 2 * n * (fives * Pow2(m2) * if special then 2 else 1)
  {
    Pow2Add(m2, 1);
    Two();
    hide InUnits, FourLeadingZeros, Pow2;
    if special {
      MulAssociative(fives, Pow2(m2), 2);
    }
  }

  /** s with its exponent is in the interval, no decimal of fewer digits is, and none of as many is nearer. */
  ghost predicate ShortestAndNearest(s: string, carry: int, v: Target) {
    && s != "" && IsDigits(s) && (carry == 0 || (carry == 1 && s == "1"))
    && InInterval(Dec(s) * Pow10(carry), |s|, v) && NoneShorter(|s|, v)
    && Nearest(Dec(s) * Pow10(carry), |s|, v)
  }

  method Digits(b: Bigint, S: Bigint, mlo: Bigint, mhi: Bigint, even: bool, k0: int, ghost n: nat, ghost e: int,
                ghost v0: Target)
    returns (s: string, k: int, ghost v: Target)
    requires DigitLoops.Apart(b, S, mlo, mhi) && Positive(b) && Positive(S) && Positive(mlo) && Positive(mhi)
    requires v0 == Target(b.Value(), S.Value(), mlo.Value(), mhi.Value(), even) && FourLeadingZeros(v0.S)
    requires IsDouble(n, e) && Scales(v0, n, e, k0) && v0.b < 10 * v0.S
    modifies b, b.x, mlo, mlo.x, mhi, mhi.x
    ensures v == v0 && ShortestAndNearest(s, k - k0, v)
  {
    hide Pow, Pow2, Pow10, Dec, IsDouble, FourLeadingZeros, InInterval, NoneShorter, Nearest, InUnits, AtBoundary;
    s, k, v := ShortestDigits(b, S, mlo, mhi, even, k0);
    ShortestIsNearest(s, k - k0, v, n, e, k0);
  }

  /** The same from the number of places of the double below those of m. */
  method FromPlaces(pool: Pow5Chain, m: Bigint, be: int, i: nat, special: bool, even: bool, k0: int, check: bool,
                    ghost n: nat, ghost e: int)
    returns (s: string, k: int, ghost v: Target, ghost decade: int)
    requires pool.Valid() && pool.Apart(m) && Positive(m) && i > 0
    requires n == m.Value() * Pow2(i - 1) && e == be - (i - 1) && IsDouble(n, e) && (special <==> AtBoundary(n, e))
    requires !AtLeast(n, e, k0 + 1) && AtLeast(n, e, if check then k0 - 1 else k0)
    modifies pool, pool.chain
    ensures pool.Valid() && Scales(v, n, e, decade) && v.inclusive == even
    ensures v.S <= v.b < 10 * v.S && ShortestAndNearest(s, k - decade, v)
  {
    hide Limbs.Val, Limbs.P, Pow, Pow2, Ready, Scales, IsDouble, AtBoundary, AtLeast, ShortestAndNearest,
      FourLeadingZeros, Bigint.Value;
    var b, S, mhi, m2 := Numbers(pool, m, be, k0, i, special);
    s, k, v, decade := FromNumbers(b, S, mhi, m2, special, even, k0, check, n, e);
  }

  /** The same from the shifted numbers. */
  method FromNumbers(b0: Bigint, S: Bigint, mhi0: Bigint, m2: nat, special: bool, even: bool, k0: int, check: bool,
                     ghost n: nat, ghost e: int)
    returns (s: string, k: int, ghost v: Target, ghost decade: int)
    requires Ready(b0, S, mhi0, m2 + if special then 1 else 0, n, e, k0) && IsDouble(n, e)
    requires (special <==> AtBoundary(n, e)) && !AtLeast(n, e, k0 + 1) && AtLeast(n, e, if check then k0 - 1 else k0)
    modifies b0, b0.x, mhi0, mhi0.x
    ensures Scales(v, n, e, decade) && v.inclusive == even
    ensures v.S <= v.b < 10 * v.S && ShortestAndNearest(s, k - decade, v)
  {
    hide Limbs.Val, Limbs.P, Pow, Pow2, Ready, Scales, IsDouble, AtBoundary, AtLeast, ShortestAndNearest,
      FourLeadingZeros, Bigint.Value;
    var b, mhi, unit := AtDecade(b0, S, mhi0, k0, check, m2 + if special then 1 else 0, n, e);
    decade := unit;
    var mlo;
    mlo, mhi, v := BothMargins(b, S, mhi, m2, special, even, n, e, decade);
    s, k, v := Digits(b, S, mlo, mhi, even, unit, n, e, v);
  }

  /**
   dtoa in mode 0 from the mantissa and exponent of a positive double and the estimate k0 of its logarithm, which is
   right or, if `check` says so, may be one too large: the digits are those of the shortest decimal that lies between
   the halves of the distances to the neighbours, ends included for an even mantissa, and the nearest of that length.
   */
  method ShortestOfDouble(pool: Pow5Chain, m: Bigint, be: int, bbits: nat, denorm: bool, even: bool, k0: int,
                          check: bool)
    returns (s: string, k: int, ghost v: Target, ghost decade: int)
    requires pool.Valid() && pool.Apart(m) && Positive(m) && FromDouble(m.Value(), be, bbits, denorm)
    requires var n, e := Mantissa(m.Value(), be, bbits, denorm), Exponent(be, bbits, denorm);
      && (even <==> n % 2 == 0) && !AtLeast(n, e, k0 + 1) && AtLeast(n, e, if check then k0 - 1 else k0)
    modifies pool, pool.chain
    ensures pool.Valid()
    ensures var n, e := Mantissa(old(m.Value()), be, bbits, denorm), Exponent(be, bbits, denorm);
      IsDouble(n, e) && Scales(v, n, e, decade) && (v.inclusive <==> n % 2 == 0)
    ensures v.S <= v.b < 10 * v.S && ShortestAndNearest(s, k - decade, v)
  {
    ghost var n, e := Mantissa(m.Value(), be, bbits, denorm), Exponent(be, bbits, denorm);
    IsOne(m.Value(), be, bbits, denorm);
    PlacesArePositive(m.Value(), be, bbits, denorm);
    var i: nat := Places(be, bbits, denorm);
    var special := bbits == 1 && !denorm && be > -1022;
    s, k, v, decade := FromPlaces(pool, m, be, i, special, even, k0, check, n, e);
  }
}
