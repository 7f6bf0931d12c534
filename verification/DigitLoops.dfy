/** The two big-integer digit loops of bundle/lua-cjson-2.1.0.5/dtoa.c (lines 4196-4329). */
module DigitLoops {
  import opened Arithmetic
  import opened Bigints
  import Limbs
  import opened Quorems
  import opened Decimals

  /** roundoff: trailing nines carry into the digit before them, or into the exponent. */
  method RoundOff(s0: string, k0: int) returns (s: string, k: int)
    requires s0 != "" && IsDigits(s0)
    ensures s != "" && IsDigits(s) && |s| <= |s0| && s[|s| - 1] != '0'
    ensures k == k0 || (k == k0 + 1 && s == "1")
    ensures Dec(s) * Pow10(|s0| - |s| + k - k0) == Dec(s0) + 1
  {
    s := s0;
    k := k0;
    Pow10Next(0);
    while s[|s| - 1] == '9'
      invariant 0 < |s| <= |s0| && s == s0[..|s|]
      invariant (Dec(s) + 1) * Pow10(|s0| - |s|) == Dec(s0) + 1
      decreases |s|
    {
      CarryNine(Dec(s), Dec(s[..|s| - 1]), |s0| - |s|);
      assert s[..|s| - 1] == s0[..|s| - 1];
      if |s| == 1 {
        assert Dec(s[..0]) == 0;
        k := k + 1;
        s := "1";
        assert s[..0] == "";
        return;
      }
      s := s[..|s| - 1];
    }
    var last := s[|s| - 1];
    DecAppend(s[..|s| - 1], last);
    DecAppend(s[..|s| - 1], Digit(DigitValue(last) + 1));
    s := s[..|s| - 1] + [Digit(DigitValue(last) + 1)];
  }

  lemma CarryNine(d: nat, e: nat, z: nat)
    requires d == 10 * e + 9
    ensures (d + 1) * Pow10(z) == (e + 1) * Pow10(z + 1)
  {
    Pow10Next(z);
    assert (e + 1) * (10 * Pow10(z)) == 10 * (e + 1) * Pow10(z);
  }

  datatype Outcome = Continue | Keep | Up | NineUp

  /** Distinct blocks; the two margins may be one. */
  ghost predicate Apart(b: Bigint, S: Bigint, mlo: Bigint, mhi: Bigint)
    reads b, S, mlo, mhi
  {
    && b != S && b.x != S.x && b != mlo && b.x != mlo.x && b != mhi && b.x != mhi.x
    && S != mlo && S.x != mlo.x && S != mhi && S.x != mhi.x && (mlo != mhi ==> mlo.x != mhi.x)
  }

  ghost predicate Positive(x: Bigint)
    reads x, x.x
  {
    x.Normal() && x.wds > 0 && x.Value() > 0
  }

  /** dtoa.c, lines 4201 to 4203: the remainder against both margins. */
  method Margins(b: Bigint, S: Bigint, mlo: Bigint, mhi: Bigint) returns (j: int, j1: int)
    requires b.Normal() && Positive(S) && Positive(mlo) && Positive(mhi)
    ensures Compared(j, j1, b.Value(), S.Value(), mlo.Value(), mhi.Value())
  {
    ValuelessIsZero(b);
    j := Cmp(b, mlo);
    var delta := Diff(S, mhi);
    if delta.sign != 0 {
      j1 := 1;
    } else {
      j1 := Cmp(b, delta);
    }
  }

  /** `!b->x[0] && b->wds <= 1` */
  method IsZero(b: Bigint) returns (z: bool)
    requires b.Normal()
    ensures z <==> b.Value() == 0
  {
    z := b.x[0] == 0 && b.wds <= 1;
    ValuelessIsZero(b);
    if b.wds == 1 {
      Limbs.ValOne(b.x[..1]);
    } else if b.wds > 1 {
      Limbs.ValTop(b.x[..b.wds]);
    }
  }

  /** The outcome fits the remainder r: low and high say which neighbours are within the margins. */
  ghost predicate Chosen(o: Outcome, q: nat, r: nat, s: nat, ml: nat, mh: nat, inclusive: bool) {
    var low := r < ml || (inclusive && r == ml);
    var high := s < r + mh || (inclusive && s == r + mh);
    && (inclusive && q == 9 && 0 < r == s - mh ==> o.NineUp?)
    && match o
       case Keep => low && (high ==> 2 * r <= s)
       case Up => high && q < 9 && (low ==> 2 * r >= s)
       case NineUp => high && q == 9 && (low ==> 2 * r >= s || (inclusive && r + mh == s))
       case Continue => !low && !high
  }

  /**
   Ten is the upper end of the interval and counts, but nine is in it too and nearer: the code carries before it
   asks which is nearer.
   */
  ghost predicate Misrounds(v: Target) {
    v.inclusive && v.b + v.mh == 10 * v.S && 0 <= v.b - 9 * v.S <= v.ml && 2 * (v.b - 9 * v.S) < v.S
  }

  /** Whether a nine that was carried is the nearest of its length. */
  lemma NineCarried(v: Target, r: nat)
    requires v.b == 9 * v.S + r && r < v.S && 0 < v.ml <= v.mh
    requires Chosen(NineUp, 9, r, v.S, v.ml, v.mh, v.inclusive)
    ensures Nearest(10, 1, v) <==> !Misrounds(v)
  {
    Pow10Next(0);
    if Misrounds(v) {
      assert InInterval(9, 1, v);
      assert Distance(10 * v.S, v.b * Pow10(0)) > Distance(9 * v.S, v.b * Pow10(0));
    } else {
      RoundedUpInInterval(9, r, 1, v);
      TruncatedInInterval(9, r, 1, v);
      RoundedUpNearest(9, r, 1, v);
    }
  }

  /** Such a number: nine and a little more, with margins of almost one. */
  lemma NineIsNearer()
    ensures var S := 0x800_0000; var v := Target(9 * S + 1, S, S - 1, S - 1, true);
      FourLeadingZeros(S) && v.b < 10 * v.S && Misrounds(v) && InInterval(9, 1, v) && InInterval(10, 1, v)
      && Nearest(9, 1, v) && !Nearest(10, 1, v)
  {
    Pow2Bits();
    assert Limbs.P(0) == 1;
    assert Pow2(27) * Limbs.P(0) <= 0x800_0000 < Pow2(28) * Limbs.P(0);
    var S := 0x800_0000;
    var v := Target(9 * S + 1, S, S - 1, S - 1, true);
    Pow10Next(0);
    NineCarried(v, 1);
    TruncatedInInterval(9, 1, 1, v);
    RoundedUpInInterval(9, 1, 1, v);
    TruncatedNearest(9, 1, 1, v);
  }

  /** The comparisons of a remainder with the margins. */
  ghost predicate Compared(j: int, j1: int, r: nat, s: nat, ml: nat, mh: nat) {
    && (j < 0 <==> r < ml) && (j == 0 <==> r == ml)
    && (j1 > 0 <==> r + mh > s)
    && (j1 == 0 ==> r + mh == s)
    && (r + mh == s && r > 0 ==> j1 == 0)
  }

  /** dtoa.c, lines 4205 to 4268: whether digit q is the last one, and whether it is rounded up. */
  method Decide(b: Bigint, S: Bigint, q: nat, j: int, j1: int, inclusive: bool, ghost ml: nat, ghost mh: nat)
    returns (o: Outcome)
    requires b.Normal() && Positive(S) && 0 < ml <= mh && q <= 9
    requires Compared(j, j1, b.Value(), S.Value(), ml, mh)
    ensures Chosen(o, q, b.Value(), S.Value(), ml, mh, inclusive)
  {
    if j1 == 0 && inclusive {
      if q == 9 {
        return NineUp;
      }
      return if j > 0 then Up else Keep;
    }
    if j < 0 || (j == 0 && inclusive) {
      var z := IsZero(b);
      if z {
        return Keep;
      }
      if j1 > 0 {
        ValuelessIsZero(b);
        var j2 := CompareDouble(b, S);
        if j2 > 0 || (j2 == 0 && q % 2 == 1) {
          return if q == 9 then NineUp else Up;
        }
      }
      return Keep;
    }
    if j1 > 0 {
      return if q == 9 then NineUp else Up;
    }
    return Continue;
  }

  /** The digits so far, the scaled numerator and margins that are left. */
  ghost predicate Scaled(s: string, b: nat, ml: nat, mh: nat, v: Target) {
    && IsDigits(s)
    && v.b * Pow10(|s|) == 10 * Dec(s) * v.S + b && b < 10 * v.S
    && ml == v.ml * Pow10(|s|) && mh == v.mh * Pow10(|s|)
    && NoneShorter(|s| + 1, v)
  }

  lemma DigitTaken(s: string, b: nat, ml: nat, mh: nat, v: Target, q: nat, r: nat)
    requires Scaled(s, b, ml, mh, v) && Divides(b, v.S, q, r)
    ensures q <= 9 && Truncated(10 * Dec(s) + q, r, |s| + 1, v)
    ensures IsDigits(s + [Digit(q)]) && Dec(s + [Digit(q)]) == 10 * Dec(s) + q
  {
    hide NoneShorter, Pow10, Dec;
    TakeDigit(v.b * Pow10(|s|), Dec(s), b, v.S, q, r);
    DecAppend(s, Digit(q));
  }

  lemma TakeDigit(x: nat, n: nat, b: nat, S: nat, q: nat, r: nat)
    requires x == 10 * n * S + b && b < 10 * S && b == q * S + r && r < S
    ensures q <= 9 && r < S && x == (10 * n + q) * S + r
  {
    MulMonotone(10, q, S);
    assert (10 * n + q) * S == 10 * n * S + q * S;
  }

  lemma NextScaled(s: string, v: Target, q: nat, r: nat)
    requires v.S > 0 && v.ml > 0 && v.mh > 0 && q <= 9 && IsDigits(s)
    requires Truncated(10 * Dec(s) + q, r, |s| + 1, v) && NoneShorter(|s| + 1, v)
    requires !InInterval(10 * Dec(s) + q, |s| + 1, v) && !InInterval(10 * Dec(s) + q + 1, |s| + 1, v)
    ensures Scaled(s + [Digit(q)], 10 * r, 10 * (v.ml * Pow10(|s|)), 10 * (v.mh * Pow10(|s|)), v)
  {
    hide InInterval, NoneShorter, Truncated, Dec, Pow10;
    var N, t, n := 10 * Dec(s) + q, Pow10(|s|), s + [Digit(q)];
    NoneHere(N, r, |s| + 1, v);
    DecAppend(s, Digit(q));
    Pow10Next(|s|);
    TruncatedIs(N, r, |s|, v);
    Times10(v.ml, t);
    Times10(v.mh, t);
    Tenfold(v.b, t, N, v.S, r);
    assert |n| == |s| + 1 && Dec(n) == N && Pow10(|n|) == 10 * t;
    assert v.b * Pow10(|n|) == 10 * Dec(n) * v.S + 10 * r;
  }

  lemma TruncatedIs(N: nat, r: nat, n: nat, v: Target)
    requires Truncated(N, r, n + 1, v)
    ensures v.b * Pow10(n) == N * v.S + r && r < v.S
  {
    hide Pow10;
  }

  lemma Tenfold(x: nat, t: nat, n: nat, S: nat, r: nat)
    requires x * t == n * S + r
    ensures x * (10 * t) == 10 * n * S + 10 * r
  {
    Times10(x, t);
    MulAssociative(10, n, S);
  }

  lemma Times10(x: nat, t: nat)
    ensures x * (10 * t) == 10 * (x * t)
  {}

  /** A nine is rounded up only as the first digit: otherwise one digit less would have done. */
  lemma NineOnlyFirst(s: string, v: Target)
    requires IsDigits(s) && NoneShorter(|s| + 1, v)
    requires InInterval(10 * Dec(s) + 9 + 1, |s| + 1, v)
    ensures s == ""
  {
    if s != "" {
      DropZero(Dec(s) + 1, |s| + 1, v);
    }
  }

  /** How the loop ends for each outcome. */
  lemma Finished(s: string, v: Target, q: nat, r: nat, o: Outcome)
    requires IsDigits(s) && v.S > 0 && 0 < v.ml <= v.mh && q <= 9
    requires Truncated(10 * Dec(s) + q, r, |s| + 1, v)
    requires Chosen(o, q, r, v.S, v.ml * Pow10(|s|), v.mh * Pow10(|s|), v.inclusive)
    ensures var N, n := 10 * Dec(s) + q, |s| + 1;
            && (o.Keep? ==> InInterval(N, n, v) && Nearest(N, n, v))
            && (o.Up? ==> InInterval(N + 1, n, v) && Nearest(N + 1, n, v))
            && (o.NineUp? ==> InInterval(N + 1, n, v))
            && (o.Continue? ==> !InInterval(N, n, v) && !InInterval(N + 1, n, v))
  {
    var N, n := 10 * Dec(s) + q, |s| + 1;
    TruncatedInInterval(N, r, n, v);
    RoundedUpInInterval(N, r, n, v);
    if o.Keep? {
      TruncatedNearest(N, r, n, v);
    } else if o.Up? {
      RoundedUpNearest(N, r, n, v);
    }
  }

  /**
   The digits, with a carry into the exponent or without: in the interval, with no shorter decimal in it, and the
   nearest of their length exactly unless nine was the nearer one. If it is, and is not the number itself, the code
   does carry.
   */
  ghost predicate Shortest(s: string, carry: int, v: Target) {
    && s != "" && IsDigits(s) && (carry == 0 || (carry == 1 && s == "1"))
    && InInterval(Dec(s) * Pow10(carry), |s|, v) && NoneShorter(|s|, v)
    && (Nearest(Dec(s) * Pow10(carry), |s|, v) <==> !(carry == 1 && Misrounds(v)))
    && (Misrounds(v) && v.b > 9 * v.S ==> carry == 1)
  }

  /** One digit: the last one, or all numbers are made ready for the next place. */
  method NextDigit(b0: Bigint, S: Bigint, mlo0: Bigint, mhi0: Bigint, inclusive: bool, s0: string, k0: int,
                   ghost v: Target)
    returns (last: bool, s: string, k: int, b: Bigint, mlo: Bigint, mhi: Bigint)
    requires Apart(b0, S, mlo0, mhi0) && b0.Normal() && Positive(S) && Positive(mlo0) && Positive(mhi0)
    requires FourLeadingZeros(S.Value()) && S.Value() == v.S && 0 < v.ml <= v.mh && inclusive == v.inclusive
    requires mlo0.Value() <= mhi0.Value() && Scaled(s0, b0.Value(), mlo0.Value(), mhi0.Value(), v)
    requires s0 != "" ==> !(Misrounds(v) && v.b > 9 * v.S)
    modifies b0, b0.x, mlo0, mlo0.x, mhi0, mhi0.x
    ensures (b == b0 || fresh(b)) && (mlo == mlo0 || fresh(mlo)) && (mhi == mhi0 || fresh(mhi))
    ensures (b.x == b0.x || fresh(b.x)) && (mlo.x == mlo0.x || fresh(mlo.x)) && (mhi.x == mhi0.x || fresh(mhi.x))
    ensures last ==> Shortest(s, k - k0, v)
    ensures !last ==> Apart(b, S, mlo, mhi) && b.Normal() && Positive(S) && Positive(mlo) && Positive(mhi)
    ensures !last ==> S.Value() == v.S && mlo.Value() <= mhi.Value() && k == k0
    ensures !last ==> Scaled(s, b.Value(), mlo.Value(), mhi.Value(), v) && s != ""
    ensures !last ==> !(Misrounds(v) && v.b > 9 * v.S)
    ensures !last ==> old(mlo0.Value()) < mlo.Value() && old(mlo0.Value()) < v.S
  {
    hide Dec, InInterval, NoneShorter, Nearest, FourLeadingZeros, Truncated, Pow10, IsDigits, Ends, Scaled, Digit,
      Misrounds, Shortest, Apart, Bigint.Value;
    s, k, b, mlo, mhi := s0, k0, b0, mlo0, mhi0;
    var q, o := OneTurn(b, S, mlo, mhi, inclusive, s, v);
    last := !o.Continue?;
    if last {
      s, k := LastDigit(s, q, o, k0, b.Value(), mlo.Value(), mhi.Value(), v);
    } else {
      s := s + [Digit(q)];
      b, mlo, mhi := NextPlace(b, S, mlo, mhi);
    }
  }

  /**
   Mode 0 (and 1): the shortest decimal within the margins around b / S. `inclusive` is what
   `mode != 1 && !(word1(&u) & 1)` is: the ends of the interval count for an even mantissa.
   */
  method ShortestDigits(b0: Bigint, S: Bigint, mlo0: Bigint, mhi0: Bigint, inclusive: bool, k0: int)
    returns (s: string, k: int, ghost v: Target)
    requires Apart(b0, S, mlo0, mhi0) && b0.Normal() && Positive(S) && Positive(mlo0) && Positive(mhi0)
    requires FourLeadingZeros(S.Value()) && b0.Value() < 10 * S.Value() && mlo0.Value() <= mhi0.Value()
    modifies b0, b0.x, mlo0, mlo0.x, mhi0, mhi0.x
    ensures v == Target(old(b0.Value()), old(S.Value()), old(mlo0.Value()), old(mhi0.Value()), inclusive)
    ensures Shortest(s, k - k0, v)
  {
    v := Target(b0.Value(), S.Value(), mlo0.Value(), mhi0.Value(), inclusive);
    StartScaled(v);
    hide Dec, InInterval, NoneShorter, Nearest, FourLeadingZeros, Truncated, Pow10, IsDigits, Ends, Scaled, Digit,
      Misrounds, Shortest, Apart, Bigint.Value;
    s, k := "", k0;
    var b, mlo, mhi := b0, mlo0, mhi0;
    var last := false;
    while !last
      invariant !last ==> Apart(b, S, mlo, mhi) && b.Normal() && Positive(S) && Positive(mlo) && Positive(mhi)
      invariant (b == b0 || fresh(b)) && (mlo == mlo0 || fresh(mlo)) && (mhi == mhi0 || fresh(mhi))
      invariant (b.x == b0.x || fresh(b.x)) && (mlo.x == mlo0.x || fresh(mlo.x)) && (mhi.x == mhi0.x || fresh(mhi.x))
      invariant !last ==> S.Value() == v.S && mlo.Value() <= mhi.Value() && k == k0
      invariant !last ==> Scaled(s, b.Value(), mlo.Value(), mhi.Value(), v)
      invariant !last && s != "" ==> !(Misrounds(v) && v.b > 9 * v.S)
      invariant last ==> Shortest(s, k - k0, v)
      decreases if last then 0 else 1, if last then 0 else v.S - mlo.Value()
    {
      last, s, k, b, mlo, mhi := NextDigit(b, S, mlo, mhi, inclusive, s, k0, v);
    }
  }

  /** The last digit, and round_9_up. */
  method LastDigit(s0: string, q: nat, o: Outcome, k0: int, ghost r: nat, ghost ml: nat, ghost mh: nat, ghost v: Target)
      returns (s: string, k: int)
    requires Turned(s0, q, o, r, ml, mh, v) && !o.Continue?
    requires s0 != "" ==> !(Misrounds(v) && v.b > 9 * v.S)
    ensures Shortest(s, k - k0, v)
  {
    hide Dec, InInterval, NoneShorter, Nearest, Pow10, IsDigits, Ends, Digit, Misrounds, Shortest;
    k := k0;
    match o {
      case Keep =>
        s := s0 + [Digit(q)];
        Ended(s, 0, k, k0, v);
      case Up =>
        s := s0 + [Digit(q + 1)];
        Ended(s, 0, k, k0, v);
      case NineUp =>
        OnlyNine(s0);
        s, k := RoundOff("9", k0);
        NineBecomesOne(s, k, k0);
        Ended("1", 1, k, k0, v);
    }
  }

  /** What one turn of the loop establishes for each outcome. */
  ghost predicate Turned(s: string, q: nat, o: Outcome, r: nat, ml: nat, mh: nat, v: Target) {
    && q <= 9 && (o.Up? ==> q < 9) && IsDigits(s)
    && (s == "" && Misrounds(v) && v.b > 9 * v.S ==> o.NineUp?)
    && match o
       case Keep => Ends(s + [Digit(q)], 0, v) && Nearest(Dec(s + [Digit(q)]), |s| + 1, v)
       case Up => Ends(s + [Digit(q + 1)], 0, v) && Nearest(Dec(s + [Digit(q + 1)]), |s| + 1, v)
       case NineUp => s == "" && q == 9 && Ends("1", 1, v) && (Nearest(10, 1, v) <==> !Misrounds(v))
       case Continue => Scaled(s + [Digit(q)], 10 * r, 10 * ml, 10 * mh, v) && ml < v.S
  }

  /** A result: in the interval, and nothing shorter is. */
  ghost predicate Ends(s: string, carry: nat, v: Target) {
    s != "" && IsDigits(s) && InInterval(Dec(s) * Pow10(carry), |s|, v) && NoneShorter(|s|, v)
  }

  lemma OnlyNine(s: string)
    requires s == ""
    ensures s + "9" == "9" && IsDigits("9")
  {}

  lemma NineBecomesOne(s: string, k: int, k0: int)
    requires s != "" && IsDigits(s) && |s| <= 1 && s[0] != '0' && (k == k0 || (k == k0 + 1 && s == "1"))
    requires Dec(s) * Pow10(1 - |s| + k - k0) == Dec("9") + 1
    ensures s == "1" && k == k0 + 1
  {
    Pow10Next(0);
    assert Dec("9") == 9 by { assert "9"[..0] == ""; }
    assert Dec(s) <= 9 by { assert s[..0] == ""; }
  }

  lemma Ended(s: string, carry: nat, k: int, k0: int, v: Target)
    requires Ends(s, carry, v) && k == k0 + carry && carry <= 1
    requires carry == 0 ==> Nearest(Dec(s), |s|, v) && !(Misrounds(v) && v.b > 9 * v.S)
    requires carry == 1 ==> s == "1" && (Nearest(10, 1, v) <==> !Misrounds(v))
    ensures Shortest(s, k - k0, v)
  {
    hide Dec, Pow10, Nearest, InInterval, NoneShorter;
    Pow10Is1();
    DecOne();
  }

  /** dtoa.c, lines 4197 to 4268: one digit, and whether it is the last. */
  method OneTurn(b: Bigint, S: Bigint, mlo: Bigint, mhi: Bigint, inclusive: bool, ghost s: string, ghost v: Target)
    returns (q: nat, o: Outcome)
    requires Apart(b, S, mlo, mhi) && b.Normal() && Positive(S) && Positive(mlo) && Positive(mhi)
    requires FourLeadingZeros(S.Value()) && S.Value() == v.S && 0 < v.ml <= v.mh && inclusive == v.inclusive
    requires Scaled(s, b.Value(), mlo.Value(), mhi.Value(), v)
    modifies b, b.x
    ensures Apart(b, S, mlo, mhi) && b.Normal() && Turned(s, q, o, b.Value(), mlo.Value(), mhi.Value(), v)
    ensures b.Value() < S.Value() && mlo.Value() == old(mlo.Value()) && mhi.Value() == old(mhi.Value())
    ensures S.Value() == old(S.Value()) && Positive(S) && Positive(mlo) && Positive(mhi)
  {
    ScaledBound(s, b.Value(), mlo.Value(), mhi.Value(), v);
    hide Dec, Pow10, InInterval, NoneShorter, Nearest, FourLeadingZeros, Truncated, Turned, Scaled, Divides, Chosen,
      Compared;
    ghost var b1, ml, mh := b.Value(), mlo.Value(), mhi.Value();
    ghost var mls, mhs := mlo.x[..mlo.wds], mhi.x[..mhi.wds];
    q := Quorem(b, S);
    assert mlo.x[..mlo.wds] == mls && mhi.x[..mhi.wds] == mhs;
    DigitTaken(s, b1, ml, mh, v, q, b.Value());
    var j, j1 := Margins(b, S, mlo, mhi);
    o := Decide(b, S, q, j, j1, inclusive, ml, mh);
    TurnIsSound(s, b1, ml, mh, v, q, b.Value(), o);
  }

  lemma ScaledBound(s: string, b: nat, ml: nat, mh: nat, v: Target)
    requires Scaled(s, b, ml, mh, v) && v.ml <= v.mh
    ensures b < 10 * v.S && ml <= mh
  {
    MulMonotone(v.ml, v.mh, Pow10(|s|));
  }

  lemma TurnIsSound(s: string, b: nat, ml: nat, mh: nat, v: Target, q: nat, r: nat, o: Outcome)
    requires Scaled(s, b, ml, mh, v) && 0 < v.ml <= v.mh && Divides(b, v.S, q, r)
    requires Chosen(o, q, r, v.S, ml, mh, v.inclusive)
    ensures Turned(s, q, o, r, ml, mh, v)
  {
    hide Dec, Pow10, InInterval, NoneShorter, Nearest, Truncated;
    DigitTaken(s, b, ml, mh, v, q, r);
    Finished(s, v, q, r, o);
    Pow10Is1();
    FirstTurn(s, b, ml, mh, v, q, r);
    match o
    case Keep =>
    case Up =>
      DecAppend(s, Digit(q + 1));
    case NineUp =>
      NineOnlyFirst(s, v);
      DecOne();
      NineCarried(v, r);
    case Continue =>
      NextScaled(s, v, q, r);
  }

  /** In the first turn nothing is scaled yet. */
  lemma FirstTurn(s: string, b: nat, ml: nat, mh: nat, v: Target, q: nat, r: nat)
    requires Scaled(s, b, ml, mh, v) && Divides(b, v.S, q, r)
    ensures s == "" ==> v.b == b == q * v.S + r && r < v.S && ml == v.ml && mh == v.mh
    ensures s == "" && Misrounds(v) ==> q == 9
  {
    if s == "" {
      Pow10Next(0);
      if Misrounds(v) {
        DividesIsFloor(b, v.S, q, r);
        assert b == 9 * v.S + (v.b - 9 * v.S);
        DivModUnique(b, v.S, 9, v.b - 9 * v.S);
      }
    }
  }

  lemma Pow10Is1()
    ensures Pow10(0) == 1 && forall x: nat :: x * 1 == x
  {
    Pow10Next(0);
  }

  lemma DecOne()
    ensures Dec("") == 0 && Dec("1") == 1 && Pow10(1) == 10 && Dec("9") == 9
  {
    Pow10Next(0);
    DecAppend("", '1');
    DecAppend("", '9');
    assert "" + ['1'] == "1" && "" + ['9'] == "9";
  }

  /** dtoa.c, lines 4275 to 4281: one decimal place further. */
  method NextPlace(b0: Bigint, S: Bigint, mlo0: Bigint, mhi0: Bigint) returns (b: Bigint, mlo: Bigint, mhi: Bigint)
    requires Apart(b0, S, mlo0, mhi0) && b0.Normal() && Positive(S) && Positive(mlo0) && Positive(mhi0)
    modifies b0, b0.x, mlo0, mlo0.x, mhi0, mhi0.x
    ensures Apart(b, S, mlo, mhi) && b.Normal() && Positive(S) && Positive(mlo) && Positive(mhi)
    ensures (b == b0 || fresh(b)) && (mlo == mlo0 || fresh(mlo)) && (mhi == mhi0 || fresh(mhi))
    ensures (b.x == b0.x || fresh(b.x)) && (mlo.x == mlo0.x || fresh(mlo.x)) && (mhi.x == mhi0.x || fresh(mhi.x))
    ensures b.Value() == 10 * old(b0.Value()) && mlo.Value() == 10 * old(mlo0.Value())
    ensures mhi.Value() == 10 * old(mhi0.Value()) && S.Value() == old(S.Value())
  {
    hide Limbs.Val, Bigint.Valid, Bigint.Normal, Bigint.Value;
    b := MultAdd(b0, 10, 0);
    if mlo0 == mhi0 {
      mhi := MultAdd(mhi0, 10, 0);
      mlo := mhi;
    } else {
      mlo := MultAdd(mlo0, 10, 0);
      mhi := MultAdd(mhi0, 10, 0);
    }
  }

  lemma StartScaled(v: Target)
    requires v.b < 10 * v.S
    ensures Scaled("", v.b, v.ml, v.mh, v)
  {
    Pow10Next(0);
  }

  /** Fixed-length generation: what the digits have taken from b / S. */
  ghost predicate Generated(s: string, r: nat, b: nat, S: nat) {
    && IsDigits(s) && r < 10 * S
    && b * Pow10(|s|) == 10 * Dec(s) * S + r
  }

  lemma OneMoreDigit(s: string, r: nat, b: nat, S: nat, q: nat, r1: nat)
    requires Generated(s, r, b, S) && Divides(r, S, q, r1)
    ensures q <= 9 && IsDigits(s + [Digit(q)]) && Dec(s + [Digit(q)]) == 10 * Dec(s) + q
    ensures b * Pow10(|s|) == Dec(s + [Digit(q)]) * S + r1 && r1 < S
    ensures Generated(s + [Digit(q)], 10 * r1, b, S)
  {
    hide Pow10, Dec;
    TakeDigit(b * Pow10(|s|), Dec(s), r, S, q, r1);
    DecAppend(s, Digit(q));
    Pow10Next(|s|);
    Times10(b, Pow10(|s|));
    MulAssociative(10, Dec(s + [Digit(q)]), S);
  }

  /** The loop of dtoa.c, lines 4285 to 4296: at most ilim digits, fewer when the remainder runs out. */
  method Generate(b0: Bigint, S: Bigint, ilim: nat) returns (s: string, b: Bigint, exact: bool)
    requires b0 != S && b0.x != S.x && b0.Normal() && Positive(S) && FourLeadingZeros(S.Value())
    requires b0.Value() < 10 * S.Value() && ilim > 0
    modifies b0, b0.x
    ensures 0 < |s| <= ilim && IsDigits(s) && b.Normal() && (b == b0 || fresh(b)) && (b.x == b0.x || fresh(b.x))
    ensures old(b0.Value()) * Pow10(|s| - 1) == Dec(s) * S.Value() + b.Value() && b.Value() < S.Value()
    ensures S.Value() == old(S.Value()) && Positive(S)
    ensures exact <==> b.Value() == 0
    ensures !exact ==> |s| == ilim
    ensures exact && |s| > 1 ==> s[|s| - 1] != '0'
    ensures old(b0.Value()) >= old(S.Value()) ==> s[0] != '0'
  {
    s, b := "", b0;
    ghost var v, d := b0.Value(), S.Value();
    ghost var ss := S.x[..S.wds];
    StartGenerated(v, d);
    hide Dec, Pow10, FourLeadingZeros, Generated, Divides, DigitsLead;
    var i := 1;
    NoDigitsYet(v, d);
    while true
      invariant |s| == i - 1 && i <= ilim
      invariant b != S && b.x != S.x && b.Normal() && (b == b0 || fresh(b)) && (b.x == b0.x || fresh(b.x))
      invariant S.Normal() && S.wds > 0 && S.x[..S.wds] == ss && S.Value() == d && b.Value() < 10 * d
      invariant DigitsLead(s, b.Value(), v, d) && Generated(s, b.Value(), v, d)
      decreases ilim - i
    {
      ghost var was, r := s, b.Value();
      var q := TakeFixedDigit(b, S, s, v);
      assert S.x[..S.wds] == ss;
      s := s + [Digit(q)];
      assert |s| - 1 == |was| && |was + [Digit(q)]| - 1 == |was|;
      DigitAdded(was, r, v, d, Digit(q), b.Value());
      var z := IsZero(b);
      if z {
        return s, b, true;
      }
      if i >= ilim {
        return s, b, false;
      }
      b := TimesTen(b, S);
      i := i + 1;
    }
  }

  /** Before the first digit nothing is taken off; after it something is left, and it is no leading zero. */
  ghost predicate DigitsLead(s: string, r: nat, v: nat, d: nat) {
    if s == "" then r == v else r > 0 && (v >= d ==> s[0] != '0')
  }

  lemma NoDigitsYet(v: nat, d: nat)
    ensures DigitsLead("", v, v, d)
  {}

  lemma DigitAdded(s: string, r: nat, v: nat, d: nat, c: char, r1: nat)
    requires DigitsLead(s, r, v, d) && (r >= d ==> c != '0') && (r > 0 && r1 == 0 ==> c != '0')
    ensures r1 > 0 ==> DigitsLead(s + [c], 10 * r1, v, d)
    ensures v >= d ==> (s + [c])[0] != '0'
    ensures r1 == 0 && |s + [c]| > 1 ==> (s + [c])[|s|] != '0'
  {}

  /** dtoa.c, line 4295: the remainder moves one place. */
  method TimesTen(b: Bigint, S: Bigint) returns (r: Bigint)
    requires b != S && b.x != S.x && b.Normal() && Positive(S)
    modifies b, b.x
    ensures r != S && r.x != S.x && (r == b || fresh(r)) && (r.x == b.x || fresh(r.x))
    ensures r.Normal() && r.Value() == 10 * old(b.Value())
    ensures Positive(S) && S.Value() == old(S.Value()) && S.wds == old(S.wds) && S.x[..S.wds] == old(S.x[..S.wds])
  {
    hide Limbs.Val, Limbs.P;
    ghost var ss := S.x[..S.wds];
    r := MultAdd(b, 10, 0);
    assert S.x[..S.wds] == ss;
  }

  /** dtoa.c, line 4286: the next digit of the fixed-length loop. */
  method TakeFixedDigit(b: Bigint, S: Bigint, ghost s: string, ghost v: nat) returns (q: nat)
    requires b != S && b.x != S.x && b.Normal() && Positive(S) && FourLeadingZeros(S.Value())
    requires b.Value() < 10 * S.Value() && Generated(s, b.Value(), v, S.Value())
    modifies b, b.x
    ensures b.Normal() && S.Value() == old(S.Value()) && b.Value() < S.Value()
    ensures q <= 9 && IsDigits(s + [Digit(q)])
    ensures v * Pow10(|s|) == Dec(s + [Digit(q)]) * S.Value() + b.Value()
    ensures Generated(s + [Digit(q)], 10 * b.Value(), v, S.Value())
    ensures old(b.Value()) >= S.Value() ==> Digit(q) != '0'
    ensures old(b.Value()) > 0 && b.Value() == 0 ==> Digit(q) != '0'
  {
    hide Dec, Pow10, FourLeadingZeros, Generated, Divides;
    ghost var r, d := b.Value(), S.Value();
    q := Quorem(b, S);
    OneMoreDigit(s, r, v, d, q, b.Value());
    FirstDigit(r, d, q, b.Value());
  }

  lemma StartGenerated(b: nat, S: nat)
    requires b < 10 * S
    ensures Generated("", b, b, S)
  {
    Pow10Next(0);
  }

  /** A nonzero numerator at least S, or one without remainder, gives a nonzero digit. */
  lemma FirstDigit(r: nat, d: nat, q: nat, r1: nat)
    requires Divides(r, d, q, r1) && d > 0 && q <= 9
    ensures r >= d ==> Digit(q) != '0'
    ensures r > 0 && r1 == 0 ==> Digit(q) != '0'
  {
    if q == 0 {
      assert r == r1;
    } else {
      assert Digit(q) as int == '0' as int + q;
    }
  }

  /** Trailing zeros dropped: dtoa.c, line 4327. */
  method TrimZeros(s0: string) returns (s: string)
    requires s0 != "" && IsDigits(s0) && s0[0] != '0'
    ensures s != "" && IsDigits(s) && |s| <= |s0| && s[0] == s0[0] && s[|s| - 1] != '0'
    ensures Dec(s) * Pow10(|s0| - |s|) == Dec(s0)
  {
    s := s0;
    Pow10Next(0);
    while s[|s| - 1] == '0'
      invariant 0 < |s| <= |s0| && s == s0[..|s|]
      invariant Dec(s) * Pow10(|s0| - |s|) == Dec(s0)
      decreases |s|
    {
      assert |s| > 1;
      DropOneZero(Dec(s), Dec(s[..|s| - 1]), |s0| - |s|);
      assert s[..|s| - 1] == s0[..|s| - 1];
      s := s[..|s| - 1];
    }
  }

  lemma DropOneZero(d: nat, e: nat, z: nat)
    requires d == 10 * e
    ensures d * Pow10(z) == e * Pow10(z + 1)
  {
    Pow10Next(z);
    Times10(e, Pow10(z));
    MulAssociative(10, e, Pow10(z));
  }

  /**
   Mode 2 on big integers: at most ilim digits, the decimal nearest to b / S with ties to even.
   The estimate of k is right on entry, that is b / S has one digit before the point.
   */
  method FixedDigits(b0: Bigint, S: Bigint, ilim: nat, k0: int) returns (s: string, k: int)
    requires b0 != S && b0.x != S.x && b0.Normal() && Positive(S) && FourLeadingZeros(S.Value())
    requires S.Value() <= b0.Value() < 10 * S.Value() && ilim > 0
    modifies b0, b0.x
    ensures s != "" && IsDigits(s) && |s| <= ilim && s[|s| - 1] != '0' && s[0] != '0'
    ensures k == k0 || (k == k0 + 1 && s == "1")
    ensures RoundedHalfEven(Dec(s) * Pow10(ilim - |s| + k - k0), ilim, old(b0.Value()), old(S.Value()))
  {
    hide Dec, Pow10, RoundedHalfEven, FourLeadingZeros;
    ghost var v, d := b0.Value(), S.Value();
    var b, exact;
    s, b, exact := Generate(b0, S, ilim);
    k := k0;
    ghost var r, D := b.Value(), Dec(s);
    if exact {
      ExactIsRounded(s, ilim, v, d);
      return;
    }
    ValuelessIsZero(b);
    var odd := DigitValue(s[|s| - 1]) % 2 == 1;
    DecParity(s);
    var j := CompareDouble(b, S);
    if j > 0 || (j == 0 && odd) {
      UpIsRounded(D, r, ilim, v, d);
      ghost var s1 := s;
      s, k := RoundOff(s, k0);
      LeadingDigit(s, k - k0, s1);
    } else {
      DownIsRounded(D, r, ilim, v, d);
      s := TrimZeros(s);
    }
  }

  /** dtoa.c, lines 4306 and 4307: twice the remainder against the divisor. */
  method CompareDouble(b: Bigint, S: Bigint) returns (j: int)
    requires Positive(b) && Positive(S)
    ensures j < 0 <==> 2 * b.Value() < S.Value()
    ensures j == 0 <==> 2 * b.Value() == S.Value()
  {
    var b2 := Lshift(b, 1);
    assert Pow2(1) == 2;
    ValuelessIsZero(b2);
    j := Cmp(b2, S);
  }

  lemma DecParity(s: string)
    requires s != "" && IsDigits(s)
    ensures Dec(s) % 2 == DigitValue(s[|s| - 1]) % 2
  {}

  lemma ExactIsRounded(s: string, ilim: nat, b: nat, S: nat)
    requires 0 < |s| <= ilim && IsDigits(s) && S > 0 && b * Pow10(|s| - 1) == Dec(s) * S
    ensures RoundedHalfEven(Dec(s) * Pow10(ilim - |s|), ilim, b, S)
  {
    PowAdd(10, |s| - 1, ilim - |s|);
    assert |s| - 1 + (ilim - |s|) == ilim - 1;
    MulAssociative(b, Pow10(|s| - 1), Pow10(ilim - |s|));
    Swap(Dec(s), S, Pow10(ilim - |s|));
  }

  lemma Swap(x: nat, y: nat, z: nat)
    ensures x * y * z == x * z * y
  {}

  lemma UpIsRounded(D: nat, r: nat, n: nat, b: nat, S: nat)
    requires n > 0 && b * Pow10(n - 1) == D * S + r && r < S && (2 * r > S || (2 * r == S && D % 2 == 1))
    ensures RoundedHalfEven(D + 1, n, b, S)
  {
    assert (D + 1) * S == D * S + S;
  }

  lemma DownIsRounded(D: nat, r: nat, n: nat, b: nat, S: nat)
    requires n > 0 && b * Pow10(n - 1) == D * S + r && r < S && (2 * r < S || (2 * r == S && D % 2 == 0))
    ensures RoundedHalfEven(D, n, b, S)
  {}

  /** Rounding up keeps a nonzero leading digit. */
  lemma LeadingDigit(s: string, carry: nat, s0: string)
    requires s0 != "" && IsDigits(s0) && s0[0] != '0' && s != "" && IsDigits(s) && |s| <= |s0| && carry <= 1
    requires Dec(s) * Pow10(|s0| - |s| + carry) == Dec(s0) + 1 && (carry == 1 ==> s == "1")
    ensures s[0] != '0'
  {
    if s[0] == '0' && carry == 0 {
      LeadingZero(s);
      LeadingNonzero(s0);
      PowAdd(10, |s| - 1, |s0| - |s|);
      MulMonotone(Dec(s), Pow10(|s| - 1), Pow10(|s0| - |s|));
    }
  }

  lemma {:induction false} LeadingZero(s: string)
    requires s != "" && IsDigits(s) && s[0] == '0'
    ensures Dec(s) < Pow10(|s| - 1)
  {
    Pow10Next(0);
    if |s| > 1 {
      LeadingZero(s[..|s| - 1]);
      Pow10Next(|s| - 2);
    }
  }

  lemma {:induction false} LeadingNonzero(s: string)
    requires s != "" && IsDigits(s) && s[0] != '0'
    ensures Dec(s) >= Pow10(|s| - 1)
  {
    Pow10Next(0);
    if |s| > 1 {
      LeadingNonzero(s[..|s| - 1]);
      Pow10Next(|s| - 2);
    } else {
      assert s[..0] == "";
    }
  }
}
