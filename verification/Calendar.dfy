/** Julian day numbers and the proleptic Gregorian calendar. */
module Calendar {
  import opened Serial

  datatype YearMonthDay = YearMonthDay(year: int, month: int, day: int)

  /** `getJulianDayNumber`. */
  function JulianDay(year: int, month: int, day: int): int {
    var a := Quotient(14 - month, 12);
    var y := year + 4800 - a;
    var m := month + 12 * a - 3;
    day + Quotient(153 * m + 2, 5) + y * 365 + Quotient(y, 4) - Quotient(y, 100) + Quotient(y, 400) - 32045
  }

  /** `getYearMonthDay`. */
  function DateOf(julianDay: int): YearMonthDay {
    var a := julianDay + 32044;
    var b := Quotient(4 * a + 3, 146097);
    var c := a - Quotient(b * 146097, 4);
    var d := Quotient(4 * c + 3, 1461);
    var e := c - Quotient(1461 * d, 4);
    var m := Quotient(5 * e + 2, 153);
    YearMonthDay(b * 100 + d - 4800 + Quotient(m, 10), m + 3 - 12 * Quotient(m, 10),
                 e - Quotient(153 * m + 2, 5) + 1)
  }

  // ---------------------------------------------------------------- the calendar

  predicate Leap(year: int) {
    year % 4 == 0 && (year % 100 != 0 || year % 400 == 0)
  }

  function DaysIn(year: int, month: int): int {
    if month == 2 then (if Leap(year) then 29 else 28)
    else if month == 4 || month == 6 || month == 9 || month == 11 then 30 else 31
  }

  /** The first day the formulas cover is 1 March of the year -4800. */
  predicate ValidDate(x: YearMonthDay) {
    && 1 <= x.month <= 12 && 1 <= x.day <= DaysIn(x.year, x.month)
    && (x.year > -4800 || (x.year == -4800 && x.month >= 3))
  }

  function NextDay(x: YearMonthDay): YearMonthDay {
    if x.day < DaysIn(x.year, x.month) then x.(day := x.day + 1)
    else if x.month < 12 then YearMonthDay(x.year, x.month + 1, 1)
    else YearMonthDay(x.year + 1, 1, 1)
  }

  // ---------------------------------------------------------------- years that begin in March

  /** The year counted from 1 March -4800, the month from March, and the day of that year. */
  function MarchYear(x: YearMonthDay): int {
    if x.month <= 2 then x.year + 4799 else x.year + 4800
  }

  function MarchMonth(x: YearMonthDay): int {
    if x.month <= 2 then x.month + 9 else x.month - 3
  }

  function DaysBefore(m: int): int {
    (153 * m + 2) / 5
  }

  /** The month of a day of the year. */
  function MonthOf(k: int): int { (5 * k + 2) / 153 }

  function DayOfYear(x: YearMonthDay): int {
    DaysBefore(MarchMonth(x)) + x.day - 1
  }

  /** How many days lie before year `y`. */
  function YearStart(y: int): int {
    365 * y + y / 4 - y / 100 + y / 400
  }

  lemma JulianDayIs(x: YearMonthDay)
    requires ValidDate(x)
    ensures MarchYear(x) >= 0
    ensures JulianDay(x.year, x.month, x.day) == YearStart(MarchYear(x)) + DayOfYear(x) - 32044
  {
    var y, m := MarchYear(x), MarchMonth(x);
    MarchIs(x);
    hide Quotient, Leap;
    QuotientIs(153 * m + 2, 5);
    QuotientIs(y, 4);
    QuotientIs(y, 100);
    QuotientIs(y, 400);
  }

  lemma MarchIs(x: YearMonthDay)
    requires ValidDate(x)
    ensures var a := Quotient(14 - x.month, 12);
      x.year + 4800 - a == MarchYear(x) >= 0 && x.month + 12 * a - 3 == MarchMonth(x) >= 0
  {
    hide Leap;
  }

  /** The day of the year ends in February, which has 29 days exactly when the year after is a leap year. */
  lemma DayOfYearBounds(x: YearMonthDay)
    requires ValidDate(x)
    ensures 0 <= DayOfYear(x) <= 365 && (DayOfYear(x) == 365 ==> Leap(MarchYear(x) + 1))
    ensures MonthOf(DayOfYear(x)) == MarchMonth(x)
  {
    MonthTable(MarchMonth(x));
    LeapShift(x.year);
  }

  /** A multiple of 400 years changes nothing. */
  lemma LeapShift(year: int)
    ensures Leap(year + 4800) <==> Leap(year)
  {
    hide Leap;
    Shift4(year);
    Shift100(year);
    Shift400(year);
    LeapIs(year);
    LeapIs(year + 4800);
  }

  lemma LeapIs(year: int)
    ensures Leap(year) <==> year % 4 == 0 && (year % 100 != 0 || year % 400 == 0)
  {}

  lemma Shift4(year: int)
    ensures (year + 4800) % 4 == year % 4
  {
    DivUnique(year + 4800, 4, year / 4 + 1200, year % 4);
  }

  lemma Shift100(year: int)
    ensures (year + 4800) % 100 == year % 100
  {
    DivUnique(year + 4800, 100, year / 100 + 48, year % 100);
  }

  lemma Shift400(year: int)
    ensures (year + 4800) % 400 == year % 400
  {
    DivUnique(year + 4800, 400, year / 400 + 12, year % 400);
  }

  lemma MonthTable(m: int)
    requires 0 <= m <= 11
    ensures DaysBefore(m) == [0, 31, 61, 92, 122, 153, 184, 214, 245, 275, 306, 337][m]
  {}

  /** The century of a day count, the rest of the count, the year in that, and the day of that year. */
  function CenturyOf(n: int): int { (4 * n + 3) / 146097 }

  function RestOf(n: int): int { n - CenturyOf(n) * 146097 / 4 }

  function YearOf(c: int): int { (4 * c + 3) / 1461 }

  function DayOf(c: int): int { c - 1461 * YearOf(c) / 4 }

  function DateFrom(b: int, d: int, k: int): YearMonthDay {
    var m := MonthOf(k);
    YearMonthDay(b * 100 + d - 4800 + m / 10, m + 3 - 12 * (m / 10), k - DaysBefore(m) + 1)
  }

  /** Splitting a day count into its parts gives back the year and the day of the year. */
  lemma YearParts(y: int, k: int)
    requires y >= 0 && 0 <= k <= 365 && (k == 365 ==> Leap(y + 1))
    ensures var n := YearStart(y) + k;
      n >= 0 && RestOf(n) >= 0 && CenturyOf(n) == y / 100 && YearOf(RestOf(n)) == y % 100 && DayOf(RestOf(n)) == k
  {
    var b, d := y / 100, y % 100;
    var n := YearStart(y) + k;
    Centuries(y, b, d);
    var c := 365 * d + d / 4 + k;
    assert n == 36524 * b + b / 4 + c;
    InCentury(b, d, c, k, y);
    CenturyQuarter(b);
    hide YearStart, Leap;
    assert CenturyOf(n) == b by { assert 146097 * b <= 4 * n + 3 < 146097 * (b + 1); }
    assert RestOf(n) == c;
    assert YearOf(c) == d by { assert 1461 * d <= 4 * c + 3 < 1461 * (d + 1); }
    assert DayOf(c) == k by { assert 1461 * d / 4 == 365 * d + d / 4; }
  }

  lemma Centuries(y: int, b: int, d: int)
    requires y >= 0 && b == y / 100 && d == y % 100
    ensures y == 100 * b + d && y / 4 == 25 * b + d / 4 && y / 400 == b / 4 && 0 <= d < 100 && b >= 0
  {}

  lemma CenturyQuarter(b: int)
    requires b >= 0
    ensures b == 4 * (b / 4) + b % 4 && 0 <= b % 4 <= 3
    ensures b * 146097 == 4 * (36524 * b + b / 4) + b % 4
  {}

  lemma InCentury(b: int, d: int, c: int, k: int, y: int)
    requires 0 <= b && 0 <= d < 100 && y == 100 * b + d && 0 <= k <= 365 && (k == 365 ==> Leap(y + 1))
    requires c == 365 * d + d / 4 + k
    ensures 0 <= c <= 36524 && (c == 36524 ==> b % 4 == 3)
    ensures k == 365 ==> d % 4 == 3
  {
    hide Leap;
    if k == 365 {
      LeapIs(y + 1);
      NextFour(b, d);
      if d == 99 { NextHundred(b); }
    }
  }

  lemma NextFour(b: int, d: int)
    requires (100 * b + d + 1) % 4 == 0 && 0 <= d
    ensures d % 4 == 3
  {
    if d % 4 != 3 { DivUnique(100 * b + d + 1, 4, 25 * b + d / 4, d % 4 + 1); }
  }

  lemma NextHundred(b: int)
    ensures (100 * b + 99 + 1) % 100 == 0
    ensures (100 * b + 99 + 1) % 400 == 0 ==> b % 4 == 3
  {
    var q, t := b / 4, b % 4;
    DivUnique(100 * b + 100, 100, b + 1, 0);
    if t != 3 { DivUnique(100 * b + 100, 400, q, 100 * (t + 1)); }
  }

  lemma QuotientIs(a: int, b: int)
    requires a >= 0 && b > 0
    ensures Quotient(a, b) == a / b
  {}

  /** The date read from the parts of a day number. */
  lemma DateOfParts(n: int)
    requires n >= 0 && RestOf(n) >= 0 && DayOf(RestOf(n)) >= 0
    ensures DateOf(n - 32044) == DateFrom(CenturyOf(n), YearOf(RestOf(n)), DayOf(RestOf(n)))
  {
    hide CenturyOf, RestOf, YearOf, DayOf, MonthOf, DaysBefore, Quotient;
    var b, c := CenturyOf(n), RestOf(n);
    var d, k := YearOf(c), DayOf(c);
    var m := MonthOf(k);
    PartsPositive(n);
    assert Quotient(4 * n + 3, 146097) == b by { CenturyIs(n); }
    assert n - Quotient(b * 146097, 4) == c by { CenturyIs(n); }
    assert Quotient(4 * c + 3, 1461) == d && c - Quotient(1461 * d, 4) == k by { YearIs(c); }
    assert Quotient(5 * k + 2, 153) == m by { MonthIs(k); }
    TenIs(m);
  }

  lemma CenturyIs(n: int)
    requires n >= 0
    ensures Quotient(4 * n + 3, 146097) == CenturyOf(n) && n - Quotient(CenturyOf(n) * 146097, 4) == RestOf(n)
  {
    QuotientIs(4 * n + 3, 146097);
    QuotientIs(CenturyOf(n) * 146097, 4);
  }

  lemma YearIs(c: int)
    requires c >= 0
    ensures Quotient(4 * c + 3, 1461) == YearOf(c) && c - Quotient(1461 * YearOf(c), 4) == DayOf(c)
  {
    QuotientIs(4 * c + 3, 1461);
    QuotientIs(1461 * YearOf(c), 4);
  }

  lemma MonthIs(k: int)
    requires k >= 0
    ensures Quotient(5 * k + 2, 153) == MonthOf(k) >= 0
  {
    QuotientIs(5 * k + 2, 153);
  }

  lemma TenIs(m: int)
    requires m >= 0
    ensures Quotient(m, 10) == m / 10 && Quotient(153 * m + 2, 5) == DaysBefore(m)
  {
    QuotientIs(m, 10);
    QuotientIs(153 * m + 2, 5);
  }

  lemma PartsPositive(n: int)
    requires n >= 0 && RestOf(n) >= 0 && DayOf(RestOf(n)) >= 0
    ensures CenturyOf(n) >= 0 && YearOf(RestOf(n)) >= 0 && MonthOf(DayOf(RestOf(n))) >= 0
  {
    hide RestOf, DayOf;
  }

  /** Every date from 1 March -4800 on comes back from its day number. */
  lemma DateRoundTrip(x: YearMonthDay)
    requires ValidDate(x)
    ensures DateOf(JulianDay(x.year, x.month, x.day)) == x
  {
    hide *;
    var y, k := MarchYear(x), DayOfYear(x);
    JulianDayIs(x);
    DayOfYearBounds(x);
    YearParts(y, k);
    DateOfParts(YearStart(y) + k);
    DateFromMarch(x);
  }

  lemma DateFromMarch(x: YearMonthDay)
    requires ValidDate(x) && MonthOf(DayOfYear(x)) == MarchMonth(x) && MarchYear(x) >= 0
    ensures DateFrom(MarchYear(x) / 100, MarchYear(x) % 100, DayOfYear(x)) == x
  {
    hide DaysBefore, MonthOf;
  }

  /** The parts of any day number are a century, a year in it and a day in that. */
  lemma DayParts(n: int)
    requires n >= 0
    ensures var b, d, k := CenturyOf(n), YearOf(RestOf(n)), DayOf(RestOf(n));
      && b >= 0 && RestOf(n) >= 0 && 0 <= d < 100 && 0 <= k <= 365 && (k == 365 ==> Leap(100 * b + d + 1))
      && n == YearStart(100 * b + d) + k && 4 * RestOf(n) + 3 < 146100
  {
    hide *;
    CenturyBounds(n);
    var b, c := CenturyOf(n), RestOf(n);
    YearBounds(c, b);
    var d, k := YearOf(c), DayOf(c);
    LeapCentury(b, d, k);
    YearStartOf(b, d);
  }

  lemma CenturyBounds(n: int)
    requires n >= 0
    ensures var b, c := CenturyOf(n), RestOf(n);
      b >= 0 && 0 <= c <= 36524 && (c == 36524 ==> b % 4 == 3) && n == 36524 * b + b / 4 + c
  {
    var b := CenturyOf(n);
    assert 146097 * b <= 4 * n + 3 < 146097 * (b + 1);
    CenturyQuarter(b);
    assert b * 146097 / 4 == 36524 * b + b / 4;
  }

  lemma YearBounds(c: int, b: int)
    requires 0 <= c <= 36524 && (c == 36524 ==> b % 4 == 3)
    ensures var d, k := YearOf(c), DayOf(c);
      && 0 <= d < 100 && 0 <= k <= 365 && c == 365 * d + d / 4 + k
      && (k == 365 ==> d % 4 == 3 && (d == 99 ==> b % 4 == 3))
  {
    var d := YearOf(c);
    assert 1461 * d <= 4 * c + 3 < 1461 * (d + 1);
    assert 1461 * d / 4 == 365 * d + d / 4;
    assert d == 4 * (d / 4) + d % 4;
  }

  lemma YearStartOf(b: int, d: int)
    requires b >= 0 && 0 <= d < 100
    ensures YearStart(100 * b + d) == 36524 * b + b / 4 + 365 * d + d / 4
  {
    Centuries(100 * b + d, b, d);
  }

  lemma LeapCentury(b: int, d: int, k: int)
    requires b >= 0 && 0 <= d < 100 && (k == 365 ==> d % 4 == 3 && (d == 99 ==> b % 4 == 3))
    ensures k == 365 ==> Leap(100 * b + d + 1)
  {
    if k == 365 {
      var y := 100 * b + d + 1;
      FourTimes(25 * b + d / 4 + 1);
      if d == 99 {
        FourHundredTimes(b / 4 + 1);
      } else {
        HundredTimes(b, d + 1);
      }
    }
  }

  lemma FourTimes(q: int)
    ensures (4 * q) % 4 == 0
  {
    DivUnique(4 * q, 4, q, 0);
  }

  lemma HundredTimes(q: int, r: int)
    requires 0 <= r < 100
    ensures (100 * q + r) % 100 == r
  {
    DivUnique(100 * q + r, 100, q, r);
  }

  lemma FourHundredTimes(q: int)
    ensures (400 * q) % 400 == 0
  {
    DivUnique(400 * q, 400, q, 0);
  }

  /** Every day number from that of 1 March -4800 on is the number of its date, and the date is valid. */
  lemma DayRoundTrip(julianDay: int)
    requires julianDay >= -32044
    ensures var x := DateOf(julianDay); ValidDate(x) && JulianDay(x.year, x.month, x.day) == julianDay
  {
    hide *;
    var n := julianDay + 32044;
    DayParts(n);
    DateOfParts(n);
    var b, d, k := CenturyOf(n), YearOf(RestOf(n)), DayOf(RestOf(n));
    MarchDate(b, d, k);
    JulianDayIs(DateFrom(b, d, k));
  }

  /** Quotients are cut towards zero, so a negative count keeps at least one day over. */
  lemma CutBack(a: int, p: int)
    requires a < 0 && p > 0
    ensures Quotient(4 * a + 3, p) <= 0 && a - Quotient(p * Quotient(4 * a + 3, p), 4) <= -1
  {
    var q := -(4 * a + 3) / p;
    assert p * q <= -(4 * a + 3) by { CutBelow(-(4 * a + 3), p); }
    var x := p * q;
    assert p * Quotient(4 * a + 3, p) == -x;
    assert Quotient(-x, 4) == -(x / 4);
  }

  lemma CutBelow(n: int, p: int)
    requires n >= 0 && p > 0
    ensures n / p >= 0 && 0 <= p * (n / p) <= n
  {
    MultipleGrows(p, n / p);
  }

  /** Before 1 March -4800 the date computed has a day below 1. */
  lemma DayBelowOne(julianDay: int)
    requires julianDay < -32044
    ensures DateOf(julianDay).day <= 0
  {
    hide Quotient;
    var a := julianDay + 32044;
    CutBack(a, 146097);
    var c := a - Quotient(Quotient(4 * a + 3, 146097) * 146097, 4);
    CutBack(c, 1461);
    var e := c - Quotient(1461 * Quotient(4 * c + 3, 1461), 4);
    DayOfCut(e);
  }

  lemma DayOfCut(e: int)
    requires e <= -1
    ensures e - Quotient(153 * Quotient(5 * e + 2, 153) + 2, 5) + 1 <= 0
  {
    var q := -(5 * e + 2) / 153;
    CutBelow(-(5 * e + 2), 153);
    assert Quotient(5 * e + 2, 153) == -q;
    if q > 0 {
      assert Quotient(2 - 153 * q, 5) == -((153 * q - 2) / 5);
    }
  }

  predicate InMonth(x: YearMonthDay) {
    1 <= x.month <= 12 && 1 <= x.day <= DaysIn(x.year, x.month)
  }

  /** The date of a day number has its month and day in range exactly from 1 March -4800 on. */
  lemma DateOfValidExactly(julianDay: int)
    ensures InMonth(DateOf(julianDay)) <==> julianDay >= -32044
  {
    if julianDay >= -32044 { DayRoundTrip(julianDay); } else { DayBelowOne(julianDay); }
    hide DateOf, DaysIn;
  }

  lemma MarchDate(b: int, d: int, k: int)
    requires b >= 0 && 0 <= d < 100 && 0 <= k <= 365 && (k == 365 ==> Leap(100 * b + d + 1))
    ensures var x := DateFrom(b, d, k); ValidDate(x) && MarchYear(x) == 100 * b + d && DayOfYear(x) == k
  {
    hide Leap, DaysBefore, MonthOf, DaysIn;
    var m := MonthOf(k);
    var x := DateFrom(b, d, k);
    MonthBounds(k);
    MonthLength(m, x.year);
    LeapShift(x.year);
  }

  /** The days of a month counted from March; February takes what is left of the year. */
  lemma MonthLength(m: int, year: int)
    requires 0 <= m <= 11
    ensures var month := m + 3 - 12 * (m / 10);
      && m / 10 == (if m >= 10 then 1 else 0) && 1 <= month <= 12
      && (m < 11 ==> DaysIn(year, month) == DaysBefore(m + 1) - DaysBefore(m))
      && (m == 11 ==> DaysIn(year, month) == if Leap(year) then 29 else 28) && (m == 11 ==> DaysBefore(m) == 337)
  {
    hide Leap;
    MonthTable(m);
    if m < 11 { MonthTable(m + 1); }
    hide DaysBefore;
  }

  lemma MonthBounds(k: int)
    requires 0 <= k <= 365
    ensures var m := MonthOf(k); 0 <= m <= 11 && DaysBefore(m) <= k < DaysBefore(m + 1)
  {}

  /** The day after a date has the next number: the formula counts days by the leap-year rule. */
  lemma NextDayNumber(x: YearMonthDay)
    requires ValidDate(x)
    ensures ValidDate(NextDay(x))
    ensures var y := NextDay(x); JulianDay(y.year, y.month, y.day) == JulianDay(x.year, x.month, x.day) + 1
  {
    hide *;
    var y := NextDay(x);
    NextValid(x);
    JulianDayIs(x);
    JulianDayIs(y);
    if MarchYear(y) == MarchYear(x) + 1 { NextYear(MarchYear(x)); }
  }

  /** The next day is the next of its year counted from March, or the first of the next year. */
  lemma NextValid(x: YearMonthDay)
    requires ValidDate(x)
    ensures var y := NextDay(x);
      && ValidDate(y)
      && ((MarchYear(y) == MarchYear(x) && DayOfYear(y) == DayOfYear(x) + 1)
          || (MarchYear(y) == MarchYear(x) + 1 && DayOfYear(y) == 0
              && DayOfYear(x) == if Leap(MarchYear(x) + 1) then 365 else 364))
  {
    var y := NextDay(x);
    MonthTable(MarchMonth(x));
    MonthTable(MarchMonth(y));
    LeapShift(x.year);
    hide DaysBefore, Leap;
  }

  lemma NextYear(y: int)
    requires y >= 0
    ensures YearStart(y + 1) == YearStart(y) + if Leap(y + 1) then 366 else 365
  {
    assert (y + 1) / 4 == y / 4 + if (y + 1) % 4 == 0 then 1 else 0 by { DivNext4(y); }
    assert (y + 1) / 100 == y / 100 + if (y + 1) % 100 == 0 then 1 else 0 by { DivNext100(y); }
    assert (y + 1) / 400 == y / 400 + if (y + 1) % 400 == 0 then 1 else 0 by { DivNext400(y); }
    FourHundred(y + 1);
  }

  lemma DivNext4(y: int)
    ensures (y + 1) / 4 == y / 4 + if (y + 1) % 4 == 0 then 1 else 0
  {
    if y % 4 == 3 { DivUnique(y + 1, 4, y / 4 + 1, 0); } else { DivUnique(y + 1, 4, y / 4, y % 4 + 1); }
  }

  lemma DivNext100(y: int)
    ensures (y + 1) / 100 == y / 100 + if (y + 1) % 100 == 0 then 1 else 0
  {
    if y % 100 == 99 { DivUnique(y + 1, 100, y / 100 + 1, 0); } else { DivUnique(y + 1, 100, y / 100, y % 100 + 1); }
  }

  lemma DivNext400(y: int)
    ensures (y + 1) / 400 == y / 400 + if (y + 1) % 400 == 0 then 1 else 0
  {
    if y % 400 == 399 { DivUnique(y + 1, 400, y / 400 + 1, 0); } else { DivUnique(y + 1, 400, y / 400, y % 400 + 1); }
  }

  lemma FourHundred(y: int)
    ensures y % 400 == 0 ==> y % 100 == 0
    ensures y % 100 == 0 ==> y % 4 == 0
  {
    if y % 400 == 0 { DivUnique(y, 100, 4 * (y / 400), 0); }
    if y % 100 == 0 { DivUnique(y, 4, 25 * (y / 100), 0); }
  }

  // ---------------------------------------------------------------- the machine's integers

  predicate FitsInt(x: int) {
    -0x8000_0000 <= x <= 0x7FFF_FFFF
  }

  /** No sum or product `getYearMonthDay` computes leaves 32 bits. */
  predicate DateOfFits(julianDay: int) {
    var n := julianDay + 32044;
    var b := Quotient(4 * n + 3, 146097);
    var c := n - Quotient(b * 146097, 4);
    && FitsInt(julianDay) && FitsInt(n) && FitsInt(4 * n + 3) && FitsInt(b * 146097)
    && FitsInt(4 * c + 3) && FitsInt(1461 * Quotient(4 * c + 3, 1461))
  }

  /** That is so exactly up to day number 536838867. */
  lemma DateOfInRange(julianDay: int)
    requires -32044 <= julianDay
    ensures DateOfFits(julianDay) <==> julianDay <= 536838867
  {
    var n := julianDay + 32044;
    DayParts(n);
    QuotientIs(4 * n + 3, 146097);
    QuotientIs(CenturyOf(n) * 146097, 4);
    QuotientIs(4 * RestOf(n) + 3, 1461);
    hide Quotient, Leap, YearStart;
  }

  /** No partial sum `getJulianDayNumber` computes, from the left, leaves 32 bits. */
  predicate JulianDayFits(x: YearMonthDay) {
    var a := Quotient(14 - x.month, 12);
    var y, m := x.year + 4800 - a, x.month + 12 * a - 3;
    FitsInt(x.year + 4800) && FitsInt(153 * m + 2) && SumsFit(x.day + Quotient(153 * m + 2, 5), y)
  }

  predicate SumsFit(day: int, y: int) {
    && FitsInt(day) && FitsInt(y * 365) && FitsInt(day + y * 365) && FitsInt(day + y * 365 + Quotient(y, 4))
    && FitsInt(day + y * 365 + Quotient(y, 4) - Quotient(y, 100))
    && FitsInt(day + y * 365 + Quotient(y, 4) - Quotient(y, 100) + Quotient(y, 400))
    && FitsInt(day + y * 365 + Quotient(y, 4) - Quotient(y, 100) + Quotient(y, 400) - 32045)
  }

  /** That is so exactly up to 15 December 5874689. */
  lemma JulianDayInRange(x: YearMonthDay)
    requires ValidDate(x)
    ensures JulianDayFits(x) <==> MarchYear(x) < 5879489 || (MarchYear(x) == 5879489 && DayOfYear(x) <= 289)
  {
    JulianDayIs(x);
    DayOfYearBounds(x);
    MarchFits(x);
    SumsFitExactly(DayOfYear(x) + 1, MarchYear(x));
    hide *;
  }

  lemma MarchFits(x: YearMonthDay)
    requires ValidDate(x) && MarchYear(x) >= 0
    ensures JulianDayFits(x) <==> FitsInt(x.year + 4800) && SumsFit(DayOfYear(x) + 1, MarchYear(x))
    ensures FitsInt(MarchYear(x) * 365) ==> FitsInt(x.year + 4800)
  {
    hide SumsFit, Leap;
    var a := Quotient(14 - x.month, 12);
    assert a == if x.month <= 2 then 1 else 0;
    assert x.month + 12 * a - 3 == MarchMonth(x);
    QuotientIs(153 * MarchMonth(x) + 2, 5);
    hide Quotient;
  }

  lemma SumsFitExactly(day: int, y: int)
    requires 1 <= day <= 366 && y >= 0
    ensures SumsFit(day, y) <==> y < 5879489 || (y == 5879489 && day <= 290)
    ensures SumsFit(day, y) ==> FitsInt(y * 365)
  {
    assert Quotient(y, 4) == y / 4 && Quotient(y, 100) == y / 100 && Quotient(y, 400) == y / 400;
    hide Quotient;
    assert 0 <= y / 400 <= y / 100 <= y / 4;
    assert FitsInt(day + y * 365 + y / 4) <==> y < 5879489 || (y == 5879489 && day <= 290);
  }
}
