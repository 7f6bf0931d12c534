/**
 Calendar arithmetic on day numbers (libressl crypto/o_time.c): dates and Julian days are one to one, consecutive
 dates have consecutive days, and OPENSSL_gmtime_adj moves an instant by exactly the offset it is given.
 */
module GregorianTime {
  import opened Arithmetic

  const SECS_PER_DAY: int := 86400

  /** Division as in C: towards zero. */
  function Div(a: int, b: int): int
    requires b > 0
  {
    if a >= 0 then a / b else -(-a / b)
  }

  datatype Date = Date(y: int, m: int, d: int) {
    /** A day of the Gregorian calendar, extended backwards. */
    predicate Valid() {
      1 <= m <= 12 && 1 <= d <= DaysIn(y, m)
    }

    /** From March of the year -4800 on, no intermediate value is negative. */
    predicate Counted() {
      y > -4800 || (y == -4800 && m >= 3)
    }

    /** The day after. */
    function Next(): Date {
      if d < DaysIn(y, m) then Date(y, m, d + 1) else if m < 12 then Date(y, m + 1, 1) else Date(y + 1, 1, 1)
    }
  }

  predicate Leap(y: int) {
    y % 4 == 0 && (y % 100 != 0 || y % 400 == 0)
  }

  function DaysIn(y: int, m: int): int {
    if m == 2 then (if Leap(y) then 29 else 28) else if m == 4 || m == 6 || m == 9 || m == 11 then 30 else 31
  }

  /** date_to_julian. */
  function ToJulian(y: int, m: int, d: int): int {
    Div(1461 * (y + 4800 + Div(m - 14, 12)), 4)
      + Div(367 * (m - 2 - 12 * Div(m - 14, 12)), 12)
      - Div(3 * Div(y + 4900 + Div(m - 14, 12), 100), 4)
      + d - 32075
  }

  function Day(t: Date): int {
    ToJulian(t.y, t.m, t.d)
  }

  /** Years from March on, so that a leap day comes last; months from 1 for March. */
  function MarchYear(y: int, m: int): int {
    if m <= 2 then y + 4799 else y + 4800
  }

  function MarchMonth(m: int): int {
    if m <= 2 then m + 10 else m - 2
  }

  /** Days before the date in its century of March years. */
  function CenturyDay(i: int, k: int, d: int): int {
    1461 * i / 4 + 367 * k / 12 + d - 31
  }

  /** The day number by centuries. */
  lemma ByCenturies(t: Date)
    requires t.Valid() && t.Counted()
    ensures var g, k := MarchYear(t.y, t.m), MarchMonth(t.m);
      g >= 0 && Day(t) + 68569 == (146097 * (g / 100 + 1) + 3) / 4 + CenturyDay(g % 100, k, t.d)
  {
    var g, k := MarchYear(t.y, t.m), MarchMonth(t.m);
    assert Div(t.m - 14, 12) == if t.m <= 2 then -1 else 0;
    var c, i := g / 100, g % 100;
    assert (g + 100) / 100 == c + 1;
    assert Day(t) == 1461 * g / 4 + 367 * k / 12 - 3 * (c + 1) / 4 + t.d - 32075;
    assert 1461 * g / 4 == 36525 * c + 1461 * i / 4 by { assert 1461 * g == 4 * (36525 * c) + 1461 * i; }
    assert (146097 * (c + 1) + 3) / 4 == 36525 * (c + 1) - 3 * (c + 1) / 4;
  }

  /** Four centuries have 146097 days, whatever the date. */
  lemma FourCenturies(t: Date)
    requires t.Valid() && t.Counted()
    ensures Date(t.y + 400, t.m, t.d).Valid() && Day(Date(t.y + 400, t.m, t.d)) == Day(t) + 146097
  {
    hide Day, CenturyDay, Leap;
    SameLeaps(t.y);
    ByCenturies(t);
    ByCenturies(Date(t.y + 400, t.m, t.d));
    var g := MarchYear(t.y, t.m);
    assert (g + 400) / 100 == g / 100 + 4 && (g + 400) % 100 == g % 100;
    assert (146097 * (g / 100 + 5) + 3) / 4 == (146097 * (g / 100 + 1) + 3) / 4 + 146097;
  }

  lemma SameLeaps(y: int)
    ensures Leap(y + 400) == Leap(y)
  {}

  /** Days of a March month, from its first to its last, counted within the March year. */
  predicate MonthHolds(k: int, d: int, q: int) {
    1 <= k <= 12 && q == 367 * k / 12 + d - 31 && 0 <= q <= 365
  }

  /** What a century day says of the year: the leap day comes every fourth year, except in most last ones. */
  predicate YearHolds(i: int, q: int, r: int) {
    0 <= i <= 99 && 0 <= q <= 365 && r == 1461 * i / 4 + q && (q == 365 ==> i % 4 == 3)
  }

  /** Centuries have 36524 days, every fourth one more. */
  predicate CenturyHolds(n: int, r: int, l: int) {
    0 <= r <= 36524 && l == (146097 * n + 3) / 4 + r && (r == 36524 ==> n % 4 == 0)
  }

  lemma CenturyIsUnique(n: int, r: int, l: int)
    requires CenturyHolds(n, r, l)
    ensures 4 * l / 146097 == n
  {}

  lemma CenturyExists(l: int)
    ensures var n := 4 * l / 146097; CenturyHolds(n, l - (146097 * n + 3) / 4, l)
  {
    var n := 4 * l / 146097;
    var rem, e := 4 * l - 146097 * n, (n + 3) % 4;
    assert 0 <= rem < 146097;
    assert (146097 * n + 3) % 4 == e by { assert 146097 * n + 3 == 4 * (36524 * n) + (n + 3); }
    assert 4 * (l - (146097 * n + 3) / 4) == rem - 3 + e;
  }

  lemma YearIsUnique(i: int, q: int, r: int)
    requires YearHolds(i, q, r)
    ensures 4000 * (r + 1) / 1461001 == i
  {}

  lemma YearExists(r: int)
    requires 0 <= r <= 36524
    ensures var i := 4000 * (r + 1) / 1461001; YearHolds(i, r - 1461 * i / 4, r)
    ensures var i := 4000 * (r + 1) / 1461001; r - 1461 * i / 4 == 365 && i == 99 ==> r == 36524
  {}

  lemma MonthIsUnique(k: int, d: int, q: int)
    requires MonthHolds(k, d, q) && 1 <= d <= (if k == 12 then 29 else if k % 5 == 2 || k % 5 == 4 then 30 else 31)
    ensures 80 * (q + 31) / 2447 == k && 2447 * k / 80 == 367 * k / 12
  {
    assert 2447 * k / 80 == 367 * k / 12;
    DivModUnique(80 * (q + 31), 2447, k, 80 * (q + 31) - 2447 * k);
  }

  lemma MonthExists(q: int)
    requires 0 <= q <= 365
    ensures var k := 80 * (q + 31) / 2447; var d := q + 31 - 2447 * k / 80;
      && MonthHolds(k, d, q)
      && 1 <= d <= (if k == 12 then (if q == 365 then 29 else 28) else if k % 5 == 2 || k % 5 == 4 then 30 else 31)
  {
    var k := 80 * (q + 31) / 2447;
    assert k == 1 || k == 2 || k == 3 || k == 4 || k == 5 || k == 6 || k == 7 || k == 8 || k == 9 || k == 10 || k == 11
           || k == 12;
  }

  /** The month and year of March counting, back in the calendar. */
  function Calendar(n: int, i: int, k: int, d: int): Date {
    Date(100 * (n - 49) + i + k / 11, k + 2 - 12 * (k / 11), d)
  }

  lemma CalendarFits(n: int, i: int, k: int, d: int, q: int, r: int, l: int)
    requires n >= 1 && CenturyHolds(n, r, l) && YearHolds(i, q, r) && MonthHolds(k, d, q)
    requires q == 365 && i == 99 ==> r == 36524
    requires 1 <= d <= (if k == 12 then (if q == 365 then 29 else 28) else if k % 5 == 2 || k % 5 == 4 then 30 else 31)
    ensures var t := Calendar(n, i, k, d); t.Valid() && t.Counted() && Day(t) + 68569 == l
  {
    var t := Calendar(n, i, k, d);
    if k == 12 {
      LeapAtTheEnd(n, i, k);
    }
    if q == 365 {
      assert i % 4 == 3 && (i == 99 ==> n % 4 == 0);
    }
    ByCenturies(t);
    var g := MarchYear(t.y, t.m);
    assert g == 100 * (n - 1) + i && g / 100 == n - 1 && g % 100 == i && MarchMonth(t.m) == k;
  }

  /** A March year ends with a leap day if the year it reaches into is a leap year. */
  lemma LeapAtTheEnd(n: int, i: int, k: int)
    requires 0 <= i <= 99 && k == 12
    ensures Leap(100 * (n - 49) + i + k / 11) <==> i % 4 == 3 && (i == 99 ==> n % 4 == 0)
  {
    var y := 100 * (n - 49) + i + 1;
    if i == 99 {
      LastOfCentury(y, n);
    } else {
      InCentury(y, n, i);
    }
  }

  lemma LastOfCentury(y: int, n: int)
    requires y == 100 * (n - 48)
    ensures y % 4 == 0 && y % 100 == 0 && (y % 400 == 0 <==> n % 4 == 0)
  {
    var c, e := (n - 48) / 4, (n - 48) % 4;
    assert e == n % 4 && y == c * 400 + 100 * e;
    DivModUnique(y, 400, c, 100 * e);
    DivModUnique(y, 100, n - 48, 0);
    DivModUnique(y, 4, 25 * (n - 48), 0);
  }

  lemma InCentury(y: int, n: int, i: int)
    requires y == 100 * (n - 49) + i + 1 && 0 <= i < 99
    ensures y % 100 != 0 && (y % 4 == 0 <==> i % 4 == 3)
  {
    DivModUnique(y, 100, n - 49, i + 1);
    DivModUnique(y, 4, 25 * (n - 49) + (i + 1) / 4, (i + 1) % 4);
  }

  /** The parts of a date, as the algorithm finds them again. */
  lemma PartsHold(t: Date)
    requires t.Valid() && t.Counted()
    ensures var g, k := MarchYear(t.y, t.m), MarchMonth(t.m);
      var n, i, q := g / 100 + 1, g % 100, 367 * k / 12 + t.d - 31;
      && CenturyHolds(n, 1461 * i / 4 + q, Day(t) + 68569) && YearHolds(i, q, 1461 * i / 4 + q) && MonthHolds(k, t.d, q)
      && t.d <= (if k == 12 then 29 else if k % 5 == 2 || k % 5 == 4 then 30 else 31) && t == Calendar(n, i, k, t.d)
  {
    hide ToJulian;
    var g, k := MarchYear(t.y, t.m), MarchMonth(t.m);
    ByCenturies(t);
    var n, i, q := g / 100 + 1, g % 100, 367 * k / 12 + t.d - 31;
    assert g == 100 * (n - 1) + i;
    if k == 12 {
      LeapAtTheEnd(n, i, k);
    }
    assert 1461 * i / 4 <= 36159 && (i < 99 ==> 1461 * i / 4 <= 35794);
  }

  /** julian_to_date, as a function of the day number: century, year in the century, month, day. */
  function FromJulian(jd: int): Date {
    FromCentury(jd + 68569, 4 * (jd + 68569) / 146097)
  }

  function FromCentury(l: int, n: int): Date {
    var r := l - (146097 * n + 3) / 4;
    FromYear(n, r, 4000 * (r + 1) / 1461001)
  }

  function FromYear(n: int, r: int, i: int): Date {
    var q := r - 1461 * i / 4;
    FromMonth(n, i, q, 80 * (q + 31) / 2447)
  }

  function FromMonth(n: int, i: int, q: int, k: int): Date {
    Calendar(n, i, k, q + 31 - 2447 * k / 80)
  }

  lemma MonthRight(n: int, i: int, k: int, q: int, r: int, l: int)
    requires n >= 1 && CenturyHolds(n, r, l) && YearHolds(i, q, r) && k == 80 * (q + 31) / 2447
    requires q == 365 && i == 99 ==> r == 36524
    ensures var t := FromMonth(n, i, q, k); t.Valid() && t.Counted() && Day(t) + 68569 == l
  {
    hide ToJulian, Date.Valid, Calendar, CenturyHolds;
    MonthExists(q);
    CalendarFits(n, i, k, q + 31 - 2447 * k / 80, q, r, l);
  }

  lemma YearRight(n: int, r: int, l: int)
    requires n >= 1 && CenturyHolds(n, r, l)
    ensures var t := FromYear(n, r, 4000 * (r + 1) / 1461001); t.Valid() && t.Counted() && Day(t) + 68569 == l
  {
    hide ToJulian, Date.Valid, Date.Counted, FromMonth, YearHolds;
    var i := 4000 * (r + 1) / 1461001;
    YearExists(r);
    MonthRight(n, i, 80 * (r - 1461 * i / 4 + 31) / 2447, r - 1461 * i / 4, r, l);
  }

  lemma DayOfJulian(jd: int)
    requires jd >= 0
    ensures FromJulian(jd).Valid() && FromJulian(jd).Counted() && Day(FromJulian(jd)) == jd
  {
    hide ToJulian, Date.Valid, Date.Counted, FromYear, CenturyHolds;
    var l := jd + 68569;
    CenturyExists(l);
    YearRight(4 * l / 146097, l - (146097 * (4 * l / 146097) + 3) / 4, l);
  }

  /** A date is found again from its day number. */
  lemma JulianOfDay(t: Date)
    requires t.Valid() && t.Counted()
    ensures FromJulian(Day(t)) == t
  {
    hide ToJulian, Date.Valid, Calendar, YearHolds, MonthHolds;
    DayIsPositive(t);
    PartsHold(t);
    var g, k := MarchYear(t.y, t.m), MarchMonth(t.m);
    var n, i, q := g / 100 + 1, g % 100, 367 * k / 12 + t.d - 31;
    CenturyFound(n, 1461 * i / 4 + q, Day(t) + 68569);
    YearFound(n, i, q, 1461 * i / 4 + q);
    MonthFound(n, i, k, t.d, q);
  }

  lemma CenturyFound(n: int, r: int, l: int)
    requires CenturyHolds(n, r, l)
    ensures FromCentury(l, 4 * l / 146097) == FromYear(n, r, 4000 * (r + 1) / 1461001)
  {
    hide FromYear;
    CenturyIsUnique(n, r, l);
    assert CenturyHolds(n, r, l);
    assert l - (146097 * n + 3) / 4 == r;
  }

  lemma YearFound(n: int, i: int, q: int, r: int)
    requires YearHolds(i, q, r)
    ensures FromYear(n, r, 4000 * (r + 1) / 1461001) == FromMonth(n, i, q, 80 * (q + 31) / 2447)
  {
    hide FromMonth;
    YearIsUnique(i, q, r);
  }

  lemma MonthFound(n: int, i: int, k: int, d: int, q: int)
    requires MonthHolds(k, d, q) && 1 <= d <= (if k == 12 then 29 else if k % 5 == 2 || k % 5 == 4 then 30 else 31)
    ensures FromMonth(n, i, q, 80 * (q + 31) / 2447) == Calendar(n, i, k, d)
  {
    MonthIsUnique(k, d, q);
  }

  lemma DayIsPositive(t: Date)
    requires t.Valid()
    ensures t.d >= 1
  {}

  lemma DivIs(a: int, b: int)
    requires a >= 0 && b > 0
    ensures Div(a, b) == a / b >= 0
  {}

  /** julian_to_date: the date of a day number, and the only one. */
  method JulianToDate(jd: int) returns (y: int, m: int, d: int)
    requires jd >= 0
    ensures Date(y, m, d) == FromJulian(jd) && Date(y, m, d).Valid() && Date(y, m, d).Counted()
    ensures ToJulian(y, m, d) == jd
    ensures forall t: Date :: t.Valid() && t.Counted() && Day(t) == jd ==> t == Date(y, m, d)
  {
    hide ToJulian, Date.Valid, Date.Counted, Div, CenturyHolds, YearHolds, MonthHolds;
    DayOfJulian(jd);
    forall t: Date | t.Valid() && t.Counted() && Day(t) == jd ensures t == FromJulian(jd) {
      JulianOfDay(t);
    }
    var L := jd + 68569;
    DivIs(4 * L, 146097);
    var n := Div(4 * L, 146097);
    DivIs(146097 * n + 3, 4);
    CenturyPart(jd + 68569);
    L := L - Div(146097 * n + 3, 4);
    DivIs(4000 * (L + 1), 1461001);
    var i := Div(4000 * (L + 1), 1461001);
    ghost var r := L;
    DivIs(1461 * i, 4);
    YearPart(L);
    L := L - Div(1461 * i, 4) + 31;
    assert FromJulian(jd) == FromMonth(n, i, L - 31, 80 * L / 2447);
    DivIs(80 * L, 2447);
    var j := Div(80 * L, 2447);
    DivIs(2447 * j, 80);
    d := L - Div(2447 * j, 80);
    DivIs(j, 11);
    L := Div(j, 11);
    m := j + 2 - 12 * L;
    y := 100 * (n - 49) + i + L;
  }

  lemma CenturyPart(l: int)
    ensures 0 <= l - (146097 * (4 * l / 146097) + 3) / 4 <= 36524
  {
    CenturyExists(l);
  }

  lemma YearPart(r: int)
    requires 0 <= r <= 36524
    ensures 0 <= r - 1461 * (4000 * (r + 1) / 1461001) / 4 <= 365
  {
    YearExists(r);
  }

  /** March years have 365 days, or 366 when they end with a leap day. */
  lemma NextMarch(g: int)
    requires g >= 0
    ensures var n, i := g / 100 + 1, g % 100; var h := g + 1;
      (146097 * (h / 100 + 1) + 3) / 4 + 1461 * (h % 100) / 4
        == (146097 * n + 3) / 4 + 1461 * i / 4 + if i % 4 == 3 && (i == 99 ==> n % 4 == 0) then 366 else 365
  {
    var n, i := g / 100 + 1, g % 100;
    assert g == 100 * (n - 1) + i;
    if i == 99 {
      assert (g + 1) / 100 == n && (g + 1) % 100 == 0;
      assert (146097 * n + 3) / 4 == 36524 * n + (n + 3) / 4 by { assert 146097 * n + 3 == 4 * (36524 * n) + (n + 3); }
      assert (146097 * (n + 1) + 3) / 4 == 36524 * (n + 1) + (n + 4) / 4;
    } else {
      assert (g + 1) / 100 == n - 1 && (g + 1) % 100 == i + 1;
    }
  }

  /** Consecutive dates have consecutive day numbers. */
  lemma NextDay(t: Date)
    requires t.Valid() && t.Counted()
    ensures t.Next().Valid() && t.Next().Counted() && Day(t.Next()) == Day(t) + 1
  {
    hide ToJulian;
    ByCenturies(t);
    ByCenturies(t.Next());
    if t.d < DaysIn(t.y, t.m) {
    } else if t.m != 2 {
      MonthEnd(t);
    } else {
      var g := MarchYear(t.y, t.m);
      assert g == 100 * (g / 100) + g % 100;
      LeapAtTheEnd(g / 100 + 1, g % 100, 12);
      NextMarch(g);
    }
  }

  /** The first of a month follows the last of the one before, in one March year. */
  lemma MonthEnd(t: Date)
    requires t.Valid() && t.Counted() && t.m != 2 && t.d == DaysIn(t.y, t.m)
    ensures var n := t.Next(); var k := MarchMonth(t.m);
      && MarchYear(n.y, n.m) == MarchYear(t.y, t.m) && MarchMonth(n.m) == k + 1
      && 367 * (k + 1) / 12 + n.d == 367 * k / 12 + t.d + 1
  {}

  lemma {:induction false} NotBeforeTheYear(t: Date)
    requires t.Valid() && t.y > -4800
    ensures Day(t) >= ToJulian(t.y, 1, 1)
    decreases t.m, t.d
  {
    hide ToJulian;
    var before := if t.d > 1 then Date(t.y, t.m, t.d - 1) else Date(t.y, t.m - 1, DaysIn(t.y, t.m - 1));
    if t.d > 1 || t.m > 1 {
      NotBeforeTheYear(before);
      NextDay(before);
    }
  }

  lemma {:induction false} BeforeTheNextYear(t: Date)
    requires t.Valid() && t.y > -4800
    ensures Day(t) < ToJulian(t.y + 1, 1, 1)
    decreases 12 - t.m, DaysIn(t.y, t.m) - t.d
  {
    hide ToJulian;
    NextDay(t);
    if t.Next().y == t.y {
      BeforeTheNextYear(t.Next());
    }
  }

  lemma {:induction false} YearsFollow(a: int, b: int)
    requires -4800 < a <= b
    ensures ToJulian(a, 1, 1) <= ToJulian(b, 1, 1)
    decreases b - a
  {
    hide ToJulian;
    if a < b {
      BeforeTheNextYear(Date(a, 1, 1));
      YearsFollow(a + 1, b);
    }
  }

  /** A date is of the years from `first` up to before `end` exactly if its day number is. */
  lemma YearRange(t: Date, first: int, end: int)
    requires t.Valid() && t.Counted() && -4800 < first <= end
    ensures first <= t.y < end <==> ToJulian(first, 1, 1) <= Day(t) < ToJulian(end, 1, 1)
  {
    hide ToJulian;
    if t.y == -4800 {
      Earliest(t);
      YearsFollow(-4799, first);
    } else {
      NotBeforeTheYear(t);
      BeforeTheNextYear(t);
      if t.y < first { YearsFollow(t.y + 1, first); } else { YearsFollow(first, t.y); }
      if t.y < end { YearsFollow(t.y + 1, end); } else { YearsFollow(end, t.y); }
    }
  }

  lemma {:induction false} Earliest(t: Date)
    requires t.Valid() && t.Counted() && t.y == -4800
    ensures Day(t) < ToJulian(-4799, 1, 1)
    decreases 12 - t.m, DaysIn(t.y, t.m) - t.d
  {
    hide ToJulian;
    NextDay(t);
    if t.Next().y == t.y {
      Earliest(t.Next());
    }
  }

  const FIRST_DAY: int := 2415021     // 1 January 1900
  const END_DAY: int := 5373485       // 1 January 10000

  lemma YearsOfTm()
    ensures ToJulian(1900, 1, 1) == FIRST_DAY && ToJulian(10000, 1, 1) == END_DAY
  {}

  lemma ClockParts(s: int)
    requires 0 <= s < SECS_PER_DAY
    ensures s / 3600 * 3600 + s / 60 % 60 * 60 + s % 60 == s && 0 <= s / 3600 < 24
  {
    assert s / 3600 == s / 60 / 60;
  }

  /** struct tm. */
  class Tm {
    var year: int       // since 1900
    var mon: int        // from 0
    var mday: int
    var hour: int
    var min: int
    var sec: int

    function When(): Date
      reads this
    {
      Date(year + 1900, mon + 1, mday)
    }

    function TimeOfDay(): int
      reads this
    {
      hour * 3600 + min * 60 + sec
    }

    /** Seconds since the beginning of the Julian day numbers. */
    function Instant(): int
      reads this
    {
      Day(When()) * SECS_PER_DAY + TimeOfDay()
    }

    /** A date of the calendar and a time of day, a leap second included. */
    predicate Valid()
      reads this
    {
      When().Valid() && When().Counted() && 0 <= hour < 24 && 0 <= min < 60 && 0 <= sec <= 60
    }

    /** A time without a leap second. */
    predicate Plain()
      reads this
    {
      Valid() && sec < 60
    }

    /**
     OPENSSL_gmtime_adj: the instant moves by exactly off_day days and offset_sec seconds. It fails, and changes
     nothing, exactly if that leaves the years 1900 to 9999.
     */
    method GmtimeAdj(offDay: int, offsetSec: int) returns (ok: bool)
      requires Valid()
      modifies this
      ensures ok ==> Plain() && Instant() == old(Instant()) + offDay * SECS_PER_DAY + offsetSec
      ensures ok <==> FIRST_DAY * SECS_PER_DAY <= old(Instant()) + offDay * SECS_PER_DAY + offsetSec
                      < END_DAY * SECS_PER_DAY
      ensures !ok ==> unchanged(this)
    {
      hide ToJulian, FromJulian, Date.Valid, Date.Counted;
      ghost var target := Instant() + offDay * SECS_PER_DAY + offsetSec;
      var offsetDay := Div(offsetSec, SECS_PER_DAY);
      var offsetHms := offsetSec - offsetDay * SECS_PER_DAY;
      offsetDay := offsetDay + offDay;
      offsetHms := offsetHms + (hour * 3600 + min * 60 + sec);
      if offsetHms >= SECS_PER_DAY {
        offsetDay := offsetDay + 1;
        offsetHms := offsetHms - SECS_PER_DAY;
      } else if offsetHms < 0 {
        offsetDay := offsetDay - 1;
        offsetHms := offsetHms + SECS_PER_DAY;
      }
      var timeJd := ToJulian(year + 1900, mon + 1, mday);
      timeJd := timeJd + offsetDay;
      assert target == timeJd * SECS_PER_DAY + offsetHms && 0 <= offsetHms < SECS_PER_DAY;
      if timeJd < 0 {
        return false;
      }
      var y, m, d := JulianToDate(timeJd);
      YearRange(Date(y, m, d), 1900, 10000);
      YearsOfTm();
      if y < 1900 || y > 9999 {
        return false;
      }
      year, mon, mday := y - 1900, m - 1, d;
      hour, min, sec := offsetHms / 3600, offsetHms / 60 % 60, offsetHms % 60;
      ClockParts(offsetHms);
      return true;
    }
  }

  /** Two adjustments that succeed are one by the sum, and undo each other if the offsets cancel. */
  method AdjustTwice(tm: Tm, d1: int, s1: int, d2: int, s2: int) returns (ok: bool)
    requires tm.Valid()
    modifies tm
    ensures ok ==> tm.Plain() && tm.Instant() == old(tm.Instant()) + (d1 + d2) * SECS_PER_DAY + (s1 + s2)
    ensures ok && d1 + d2 == 0 && s1 + s2 == 0 && old(tm.Plain()) ==>
      tm.When() == old(tm.When()) && tm.TimeOfDay() == old(tm.TimeOfDay())
  {
    ok := tm.GmtimeAdj(d1, s1);
    if ok {
      ok := tm.GmtimeAdj(d2, s2);
      SameInstant(old(tm.When()), old(tm.TimeOfDay()), tm.When(), tm.TimeOfDay());
    }
  }

  lemma SameInstant(a: Date, s: int, b: Date, t: int)
    requires a.Valid() && a.Counted() && b.Valid() && b.Counted()
    requires 0 <= s <= SECS_PER_DAY && 0 <= t < SECS_PER_DAY
    ensures s < SECS_PER_DAY && Day(a) * SECS_PER_DAY + s == Day(b) * SECS_PER_DAY + t ==> a == b && s == t
  {
    hide ToJulian, Date.Valid, Date.Counted;
    if Day(a) == Day(b) {
      JulianOfDay(a);
      JulianOfDay(b);
    }
  }
}
