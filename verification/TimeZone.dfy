/** Conversion between seconds since 1970 and broken-down times, in UTC and in a zone with a table of
    transitions. */
module TimeZone {
  import opened Serial
  import opened Calendar

  const SECONDS_PER_DAY := 86400
  const JULIAN_1970 := 2440588

  /** The fields of `struct tm` that are filled; the year and month are the real ones, not offset. */
  datatype Tm = Tm(year: int, month: int, day: int, hour: int, minute: int, second: int)

  /** C remainder: with the sign of the dividend. */
  function Remainder(a: int, b: int): int
    requires b > 0
  {
    a - b * Quotient(a, b)
  }

  // ---------------------------------------------------------------- UTC

  /** The day since 1970 and the second of that day: the quotient moves down for negative remainders. */
  function DayOfTime(t: int): int {
    Quotient(t, SECONDS_PER_DAY) - if Remainder(t, SECONDS_PER_DAY) < 0 then 1 else 0
  }

  function SecondOfDay(t: int): int {
    Remainder(t, SECONDS_PER_DAY) + if Remainder(t, SECONDS_PER_DAY) < 0 then SECONDS_PER_DAY else 0
  }

  function ToUtcTime(t: int): Tm {
    var date := DateOf(DayOfTime(t) + JULIAN_1970);
    var s := SecondOfDay(t);
    Tm(date.year, date.month, date.day, s / 60 / 60, s / 60 % 60, s % 60)
  }

  function FromUtcTime(x: Tm): int {
    (JulianDay(x.year, x.month, x.day) - JULIAN_1970) * SECONDS_PER_DAY + (x.hour * 3600 + x.minute * 60 + x.second)
  }

  predicate ValidTm(x: Tm) {
    && ValidDate(YearMonthDay(x.year, x.month, x.day))
    && 0 <= x.hour < 24 && 0 <= x.minute < 60 && 0 <= x.second < 60
  }

  /** Truncating division with its correction is division downwards, also before 1970. */
  lemma FloorDay(t: int)
    ensures t == DayOfTime(t) * SECONDS_PER_DAY + SecondOfDay(t) && 0 <= SecondOfDay(t) < SECONDS_PER_DAY
  {
    if t < 0 {
      assert -t == (-t / SECONDS_PER_DAY) * SECONDS_PER_DAY + -t % SECONDS_PER_DAY;
    }
  }

  lemma DayUnique(t: int, day: int, second: int)
    requires t == day * SECONDS_PER_DAY + second && 0 <= second < SECONDS_PER_DAY
    ensures DayOfTime(t) == day && SecondOfDay(t) == second
  {
    FloorDay(t);
    hide DayOfTime, SecondOfDay;
  }

  lemma Clock(s: int)
    requires 0 <= s < SECONDS_PER_DAY
    ensures var h, m, c := s / 60 / 60, s / 60 % 60, s % 60;
      0 <= h < 24 && 0 <= m < 60 && 0 <= c < 60 && h * 3600 + m * 60 + c == s
  {}

  /** The first second the calendar formulas cover. */
  const FIRST_SECOND := (-32044 - JULIAN_1970) * SECONDS_PER_DAY

  /** Every second from 1 March -4800 on, before 1970 too, comes back, and its fields are in range. */
  lemma UtcSeconds(t: int)
    requires t >= FIRST_SECOND
    ensures ValidTm(ToUtcTime(t)) && FromUtcTime(ToUtcTime(t)) == t
  {
    hide *;
    FloorDay(t);
    FirstDay(t);
    DayRoundTrip(DayOfTime(t) + JULIAN_1970);
    Clock(SecondOfDay(t));
    ToUtcIs(t);
  }

  /** Before that no second has a date with month and day in range. */
  lemma UtcValidExactly(t: int)
    ensures var x := ToUtcTime(t); InMonth(YearMonthDay(x.year, x.month, x.day)) <==> t >= FIRST_SECOND
  {
    FloorDay(t);
    DateOfValidExactly(DayOfTime(t) + JULIAN_1970);
    assert DayOfTime(t) + JULIAN_1970 >= -32044 <==> t >= FIRST_SECOND by { hide DayOfTime, SecondOfDay; }
    var date := DateOf(DayOfTime(t) + JULIAN_1970);
    assert ToUtcTime(t).year == date.year && ToUtcTime(t).month == date.month && ToUtcTime(t).day == date.day by {
      hide DateOf, DayOfTime, SecondOfDay;
    }
    hide *;
  }

  lemma FirstDay(t: int)
    requires t >= FIRST_SECOND && t == DayOfTime(t) * SECONDS_PER_DAY + SecondOfDay(t) &&
        SecondOfDay(t) < SECONDS_PER_DAY
    ensures DayOfTime(t) + JULIAN_1970 >= -32044
  {
    hide DayOfTime, SecondOfDay;
  }

  lemma ToUtcIs(t: int)
    requires t == DayOfTime(t) * SECONDS_PER_DAY + SecondOfDay(t)
    ensures var date, s := DateOf(DayOfTime(t) + JULIAN_1970), SecondOfDay(t);
      && ToUtcTime(t) == Tm(date.year, date.month, date.day, s / 60 / 60, s / 60 % 60, s % 60)
      && (JulianDay(date.year, date.month, date.day) == DayOfTime(t) + JULIAN_1970 ==>
            s / 60 / 60 * 3600 + s / 60 % 60 * 60 + s % 60 == s ==> FromUtcTime(ToUtcTime(t)) == t)
      && (ValidDate(date) && 0 <= s / 60 / 60 < 24 && 0 <= s / 60 % 60 < 60 && 0 <= s % 60 < 60 ==>
          ValidTm(ToUtcTime(t)))
  {
    hide DateOf, JulianDay, ValidDate, DayOfTime, SecondOfDay;
  }

  /** Second 0 is the beginning of 1 January 1970, and the one before it the end of 31 December 1969. */
  lemma Epoch()
    ensures ToUtcTime(0) == Tm(1970, 1, 1, 0, 0, 0) && ToUtcTime(-1) == Tm(1969, 12, 31, 23, 59, 59)
  {
    hide *;
    EpochSeconds();
    UtcFields(Tm(1970, 1, 1, 0, 0, 0));
    UtcFields(Tm(1969, 12, 31, 23, 59, 59));
  }

  lemma EpochSeconds()
    ensures ValidTm(Tm(1970, 1, 1, 0, 0, 0)) && FromUtcTime(Tm(1970, 1, 1, 0, 0, 0)) == 0
    ensures ValidTm(Tm(1969, 12, 31, 23, 59, 59)) && FromUtcTime(Tm(1969, 12, 31, 23, 59, 59)) == -1
  {
    JulianOfEpoch();
    hide JulianDay, ValidTm;
  }

  lemma JulianOfEpoch()
    ensures JulianDay(1970, 1, 1) == JULIAN_1970 && ValidTm(Tm(1970, 1, 1, 0, 0, 0))
    ensures JulianDay(1969, 12, 31) == JULIAN_1970 - 1 && ValidTm(Tm(1969, 12, 31, 23, 59, 59))
  {}

  /** Every valid broken-down time comes back. */
  lemma UtcFields(x: Tm)
    requires ValidTm(x)
    ensures ToUtcTime(FromUtcTime(x)) == x && FromUtcTime(x) >= FIRST_SECOND
  {
    hide *;
    var date := YearMonthDay(x.year, x.month, x.day);
    ValidTmIs(x);
    DateRoundTrip(date);
    NumberStart(date);
    Fields(x.hour, x.minute, x.second);
    var jd, s := JulianDay(x.year, x.month, x.day), x.hour * 3600 + x.minute * 60 + x.second;
    FromUtcIs(x);
    DayUnique(FromUtcTime(x), jd - JULIAN_1970, s);
    ToUtcIs(FromUtcTime(x));
  }

  lemma ValidTmIs(x: Tm)
    requires ValidTm(x)
    ensures ValidDate(YearMonthDay(x.year, x.month, x.day)) && 0 <= x.hour < 24 && 0 <= x.minute < 60 &&
        0 <= x.second < 60
  {
    hide ValidDate;
  }

  lemma FromUtcIs(x: Tm)
    ensures var jd, s := JulianDay(x.year, x.month, x.day), x.hour * 3600 + x.minute * 60 + x.second;
      && FromUtcTime(x) == (jd - JULIAN_1970) * SECONDS_PER_DAY + s
      && (jd >= -32044 && s >= 0 ==> FromUtcTime(x) >= FIRST_SECOND)
  {
    hide JulianDay;
  }

  lemma Fields(h: int, m: int, c: int)
    requires 0 <= h < 24 && 0 <= m < 60 && 0 <= c < 60
    ensures var s := h * 3600 + m * 60 + c;
      0 <= s < SECONDS_PER_DAY && s / 60 == h * 60 + m && s / 60 / 60 == h && s / 60 % 60 == m && s % 60 == c
  {}

  lemma NumberStart(x: YearMonthDay)
    requires ValidDate(x)
    ensures JulianDay(x.year, x.month, x.day) >= -32044
  {
    JulianDayIs(x);
    DayOfYearBounds(x);
    StartPositive(MarchYear(x));
    hide JulianDay, YearStart, DayOfYear, MarchYear;
  }

  lemma StartPositive(y: int)
    requires y >= 0
    ensures YearStart(y) >= 0
  {}

  // ---------------------------------------------------------------- the machine's integers

  /** The casts to `int` and the sums and products in `toUtcTime` keep their values. */
  predicate UtcFits(t: int) {
    && FitsInt(Quotient(t, SECONDS_PER_DAY)) && FitsInt(DayOfTime(t))
    && FitsInt(DayOfTime(t) + JULIAN_1970) && DateOfFits(DayOfTime(t) + JULIAN_1970)
  }

  /** The first second whose date does not fit: the day number is 536838868. */
  const END_SECOND := (536838868 - JULIAN_1970) * SECONDS_PER_DAY

  lemma UtcInRange(t: int)
    requires t >= FIRST_SECOND
    ensures UtcFits(t) <==> t < END_SECOND
  {
    FloorDay(t);
    FirstDay(t);
    DateOfInRange(DayOfTime(t) + JULIAN_1970);
    var day := DayOfTime(t);
    assert day <= 536838867 - JULIAN_1970 <==> t < END_SECOND by { hide DayOfTime, SecondOfDay, DateOfFits; }
    assert Quotient(t, SECONDS_PER_DAY) == day || Quotient(t, SECONDS_PER_DAY) == day + 1;
    hide DayOfTime, SecondOfDay, DateOfFits, Quotient;
  }

  /** The broken-down time of such a second is converted back within 32 bits, too. */
  lemma BackInRange(t: int)
    requires FIRST_SECOND <= t < END_SECOND
    ensures var x := ToUtcTime(t); JulianDayFits(YearMonthDay(x.year, x.month, x.day))
  {
    hide *;
    UtcSeconds(t);
    var x := ToUtcTime(t);
    var date := YearMonthDay(x.year, x.month, x.day);
    ValidTmIs(x);
    FloorDay(t);
    DayBelow(t);
    DayRoundTrip(DayOfTime(t) + JULIAN_1970);
    ToUtcIs(t);
    JulianDayIs(date);
    DayOfYearBounds(date);
    if MarchYear(date) >= 5879489 { YearBelow(MarchYear(date)); }
    JulianDayInRange(date);
  }

  lemma DayBelow(t: int)
    requires FIRST_SECOND <= t < END_SECOND && t == DayOfTime(t) * SECONDS_PER_DAY + SecondOfDay(t)
    requires 0 <= SecondOfDay(t) < SECONDS_PER_DAY
    ensures -32044 <= DayOfTime(t) + JULIAN_1970 <= 536838867
  {
    hide DayOfTime, SecondOfDay;
  }

  lemma YearBelow(y: int)
    requires y >= 5879489
    ensures YearStart(y) > 600000000
  {}

  /** The conversion as it is carried out: the quotient is corrected after the fact. */
  method UtcTime(t: int) returns (x: Tm)
    ensures x == ToUtcTime(t)
  {
    hide DateOf, Quotient;
    var seconds := Remainder(t, SECONDS_PER_DAY);
    var days := Quotient(t, SECONDS_PER_DAY);
    if seconds < 0 {
      seconds := seconds + SECONDS_PER_DAY;
      days := days - 1;
    }
    var minutes := seconds / 60;
    var date := DateOf(days + JULIAN_1970);
    x := Tm(date.year, date.month, date.day, minutes / 60, minutes % 60, seconds % 60);
  }

  // ---------------------------------------------------------------- zones

  /** When a period begins, in UTC and as its own local time, and which local time type holds in it. */
  datatype Transition = Transition(gmt: int, local: int, idx: nat)

  datatype LocalType = LocalType(offset: int, isDst: bool)

  datatype Zone = Zone(transitions: seq<Transition>, types: seq<LocalType>)

  /** A local time as its day, its second of the day, and whether it is summer time. */
  datatype LocalTm = LocalTm(day: int, hour: int, minute: int, second: int, isDst: bool)

  ghost predicate WellFormed(z: Zone) {
    && z.types != [] && (forall i :: 0 <= i < |z.transitions| ==> z.transitions[i].idx < |z.types|)
    && (forall i :: 0 <= i < |z.transitions| ==>
          z.transitions[i].local == z.transitions[i].gmt + z.types[z.transitions[i].idx].offset)
  }

  function Key(x: Transition, byGmt: bool): int {
    if byGmt then x.gmt else x.local
  }

  /** How many transitions lie at or before `key`, searching from the front. */
  function Before(s: seq<Transition>, key: int, byGmt: bool): (k: nat)
    ensures k <= |s|
    ensures forall i :: 0 <= i < k ==> Key(s[i], byGmt) <= key
    ensures k < |s| ==> Key(s[k], byGmt) > key
  {
    if s == [] || Key(s[0], byGmt) > key then 0
    else
      var k := Before(s[1..], key, byGmt);
      assert forall i :: 1 <= i < 1 + k ==> s[i] == s[1..][i - 1];
      1 + k
  }

  /** The local time type that holds at `key`; before the first transition it is the first type. */
  function TypeAt(z: Zone, key: int, byGmt: bool): LocalType
    requires WellFormed(z)
  {
    var k := Before(z.transitions, key, byGmt);
    if k == 0 then z.types[0] else z.types[z.transitions[k - 1].idx]
  }

  /** The broken-down form of a count of seconds, and back. */
  function Fill(t: int, isDst: bool): LocalTm {
    var s := SecondOfDay(t);
    LocalTm(DayOfTime(t), s / 60 / 60, s / 60 % 60, s % 60, isDst)
  }

  function Count(x: LocalTm): int {
    x.day * SECONDS_PER_DAY + x.hour * 3600 + x.minute * 60 + x.second
  }

  lemma CountFill(t: int, isDst: bool)
    ensures Count(Fill(t, isDst)) == t
  {
    FloorDay(t);
    Clock(SecondOfDay(t));
    hide DayOfTime, SecondOfDay;
  }

  function ToLocalTime(z: Zone, t: int): LocalTm
    requires WellFormed(z)
  {
    var l := TypeAt(z, t, true);
    Fill(t + l.offset, l.isDst)
  }

  /** A summer time that its zone reads as the same hour and minute of standard time an hour later is
      taken to be the first pass of the repeated hour. */
  function FromLocalTime(z: Zone, x: LocalTm): int
    requires WellFormed(z)
  {
    var l := TypeAt(z, Count(x), false);
    var again := ToLocalTime(z, Count(x) - l.offset);
    if x.isDst && !again.isDst && again.hour == x.hour && again.minute == x.minute
    then Count(x) - 3600 - l.offset else Count(x) - l.offset
  }

  // ---------------------------------------------------------------- the inverse

  /** Standard time at `standard` first; then summer time `shift` seconds ahead and standard time again,
      in turns, more than `shift` apart. */
  ghost predicate Regular(z: Zone, standard: int, shift: int) {
    && WellFormed(z) && z.types[0] == LocalType(standard, false) && shift > 0
    && (forall i :: 0 <= i < |z.transitions| ==>
          z.types[z.transitions[i].idx] ==
          if i % 2 == 0 then LocalType(standard + shift, true) else LocalType(standard, false))
    && (forall i, j :: 0 <= i < j < |z.transitions| ==> z.transitions[i].gmt + shift < z.transitions[j].gmt)
  }

  /** The type of the period before transition `k`. */
  function PeriodType(k: nat, standard: int, shift: int): LocalType {
    if k % 2 == 1 then LocalType(standard + shift, true) else LocalType(standard, false)
  }

  lemma RegularType(z: Zone, standard: int, shift: int, key: int, byGmt: bool)
    requires Regular(z, standard, shift)
    ensures TypeAt(z, key, byGmt) == PeriodType(Before(z.transitions, key, byGmt), standard, shift)
  {
    hide Before;
    var k := Before(z.transitions, key, byGmt);
    assert (k > 0 && (k - 1) % 2 == 0) <==> k % 2 == 1;
  }

  ghost predicate Ascending(s: seq<Transition>, byGmt: bool) {
    forall i, j :: 0 <= i < j < |s| ==> Key(s[i], byGmt) < Key(s[j], byGmt)
  }

  /** A place between two keys is the only one where the search can end. */
  lemma BeforeUnique(s: seq<Transition>, key: int, byGmt: bool, k: nat)
    requires k <= |s|
    requires forall i :: 0 <= i < k ==> Key(s[i], byGmt) <= key
    requires k < |s| ==> Key(s[k], byGmt) > key
    requires Ascending(s, byGmt)
    ensures Before(s, key, byGmt) == k
  {
    hide Key;
    var n := Before(s, key, byGmt);
    hide Before;
  }

  /** In a regular zone the local times of the transitions ascend as well. */
  lemma RegularAscending(z: Zone, standard: int, shift: int)
    requires Regular(z, standard, shift)
    ensures Ascending(z.transitions, true) && Ascending(z.transitions, false)
  {
    forall i, j | 0 <= i < j < |z.transitions| ensures z.transitions[i].local < z.transitions[j].local {
      LocalAt(z, standard, shift, i);
      LocalAt(z, standard, shift, j);
    }
  }

  /** Whether `t` lies in the last `shift` seconds of the summer time that ends with transition `k`. */
  predicate LastStretch(s: seq<Transition>, k: nat, t: int, shift: int) {
    k % 2 == 1 && k < |s| && s[k].gmt - shift <= t < s[k].gmt
  }

  /** Whether `t` lies in the last `shift` seconds of a summer time, whose local times come a second time. */
  ghost predicate Repeated(z: Zone, t: int, shift: int) {
    exists k :: 0 <= k < |z.transitions| && LastStretch(z.transitions, k, t, shift)
  }

  /** A repeated time lies in the period the search finds for it. */
  lemma RepeatedAt(z: Zone, standard: int, shift: int, t: int)
    requires Regular(z, standard, shift)
    ensures Repeated(z, t, shift) <==> LastStretch(z.transitions, Before(z.transitions, t, true), t, shift)
  {
    var s := z.transitions;
    RegularAscending(z, standard, shift);
    forall k | 0 <= k < |s| && LastStretch(s, k, t, shift) ensures Before(s, t, true) == k {
      forall i | 0 <= i < k ensures Key(s[i], true) <= t { Gap(z, standard, shift, i, k); }
      hide Before, Ascending;
      BeforeUnique(s, t, true, k);
    }
    hide Before, Regular, LastStretch, Ascending;
  }

  /** Where the local time of `t` stands among the local times of the transitions: in the period of `t`,
      or in the next one when `t` lies in the last stretch of summer time. */
  lemma LocalPlace(z: Zone, standard: int, shift: int, t: int)
    requires Regular(z, standard, shift)
    ensures var k := Before(z.transitions, t, true);
      Before(z.transitions, t + PeriodType(k, standard, shift).offset, false) ==
          if LastStretch(z.transitions, k, t, shift) then k + 1 else k
  {
    hide *;
    var s := z.transitions;
    var k := Before(s, t, true);
    var local := t + PeriodType(k, standard, shift).offset;
    var last := LastStretch(s, k, t, shift);
    LastStretchIs(s, k, t, shift);
    var q := if last then k + 1 else k;
    RegularAscending(z, standard, shift);
    if k > 0 { KeyAt(s, k - 1); }
    if k < |s| { KeyAt(s, k); }
    forall i | 0 <= i < q ensures Key(s[i], false) <= local {
      KeyAt(s, i);
      if i < k { LocalBelow(z, standard, shift, t, k, i); } else { LocalEarly(z, standard, shift, t, k); }
    }
    if q < |s| {
      KeyAt(s, q);
      if last { LocalLate(z, standard, shift, t, k); } else { LocalAbove(z, standard, shift, t, k); }
    }
    BeforeUnique(s, local, false, q);
  }

  lemma LastStretchIs(s: seq<Transition>, k: nat, t: int, shift: int)
    ensures LastStretch(s, k, t, shift) <==> k % 2 == 1 && k < |s| && s[k].gmt - shift <= t < s[k].gmt
    ensures LastStretch(s, k, t, shift) ==> (k + 1) % 2 == 0
  {}

  /** `shift` seconds after the last stretch of summer time it is standard time. */
  lemma ShiftLater(z: Zone, standard: int, shift: int, t: int)
    requires Regular(z, standard, shift)
    ensures var k := Before(z.transitions, t, true);
      LastStretch(z.transitions, k, t, shift) ==> Before(z.transitions, t + shift, true) == k + 1
  {
    hide *;
    var s := z.transitions;
    var k := Before(s, t, true);
    LastStretchIs(s, k, t, shift);
    if LastStretch(s, k, t, shift) {
      RegularAscending(z, standard, shift);
      KeyAt(s, k);
      if k + 1 < |s| {
        KeyAt(s, k + 1);
        LocalLate(z, standard, shift, t, k);
      }
      ShiftPositive(z, standard, shift);
      forall i | 0 <= i < k + 1 ensures Key(s[i], true) <= t + shift {
        if i < k { assert Key(s[i], true) <= t; }
      }
      BeforeUnique(s, t + shift, true, k + 1);
    }
  }

  lemma ShiftPositive(z: Zone, standard: int, shift: int)
    requires Regular(z, standard, shift)
    ensures WellFormed(z) && shift > 0
  {
    hide WellFormed;
  }

  /** The transitions up to the period of `t` lie behind its local time. */
  lemma LocalBelow(z: Zone, standard: int, shift: int, t: int, k: nat, i: nat)
    requires Regular(z, standard, shift) && i < k <= |z.transitions| && z.transitions[k - 1].gmt <= t
    ensures z.transitions[i].local <= t + PeriodType(k, standard, shift).offset
  {
    ShiftPositive(z, standard, shift);
    hide Regular;
    LocalAt(z, standard, shift, i);
    if i < k - 1 { Gap(z, standard, shift, i, k - 1); }
  }

  /** In the last stretch of summer time the next transition does so, too. */
  lemma LocalEarly(z: Zone, standard: int, shift: int, t: int, k: nat)
    requires Regular(z, standard, shift) && LastStretch(z.transitions, k, t, shift)
    ensures z.transitions[k].local <= t + PeriodType(k, standard, shift).offset
  {
    hide Regular;
    LocalAt(z, standard, shift, k);
  }

  /** Otherwise it lies ahead. */
  lemma LocalAbove(z: Zone, standard: int, shift: int, t: int, k: nat)
    requires Regular(z, standard, shift) && k < |z.transitions| && t < z.transitions[k].gmt
    requires !LastStretch(z.transitions, k, t, shift)
    ensures z.transitions[k].local > t + PeriodType(k, standard, shift).offset
  {
    ShiftPositive(z, standard, shift);
    hide Regular;
    LocalAt(z, standard, shift, k);
  }

  /** And the one after it lies ahead always. */
  lemma LocalLate(z: Zone, standard: int, shift: int, t: int, k: nat)
    requires Regular(z, standard, shift) && k + 1 < |z.transitions| && k % 2 == 1 && t < z.transitions[k].gmt
    ensures z.transitions[k + 1].local > t + PeriodType(k, standard, shift).offset
    ensures z.transitions[k + 1].gmt > t + shift
  {
    ShiftPositive(z, standard, shift);
    hide Regular;
    LocalAt(z, standard, shift, k + 1);
    Gap(z, standard, shift, k, k + 1);
  }

  lemma KeyAt(s: seq<Transition>, i: nat)
    requires i < |s|
    ensures Key(s[i], true) == s[i].gmt && Key(s[i], false) == s[i].local
  {}

  lemma LocalAt(z: Zone, standard: int, shift: int, i: nat)
    requires Regular(z, standard, shift) && i < |z.transitions|
    ensures z.transitions[i].local == z.transitions[i].gmt + standard + if i % 2 == 0 then shift else 0
  {}

  lemma Gap(z: Zone, standard: int, shift: int, i: nat, j: nat)
    requires Regular(z, standard, shift) && i < j < |z.transitions|
    ensures z.transitions[i].gmt + shift < z.transitions[j].gmt
  {}

  /** Converting to local time and back gives back every second but the repeated ones of their first pass,
      which come back off by the difference of the shift and an hour. */
  lemma LocalAndBack(z: Zone, standard: int, shift: int, t: int)
    requires Regular(z, standard, shift)
    ensures FromLocalTime(z, ToLocalTime(z, t)) == if Repeated(z, t, shift) then t + shift - 3600 else t
  {
    hide *;
    var k := Before(z.transitions, t, true);
    var l := PeriodType(k, standard, shift);
    var local := t + l.offset;
    ShiftPositive(z, standard, shift);
    RegularType(z, standard, shift, t, true);
    RegularType(z, standard, shift, local, false);
    RegularType(z, standard, shift, t + shift, true);
    LocalPlace(z, standard, shift, t);
    ShiftLater(z, standard, shift, t);
    LastStretchIs(z.transitions, k, t, shift);
    RepeatedAt(z, standard, shift, t);
    PeriodIs(k, standard, shift);
    PeriodIs(k + 1, standard, shift);
    ToLocalIs(z, t);
    ToLocalIs(z, t + shift);
    CountFill(local, l.isDst);
    FromLocalIs(z, Fill(local, l.isDst));
    FillSame(local);
  }

  /** A second comes back exactly when summer time is an hour ahead or the second is not a repeated one. */
  lemma InverseExactly(z: Zone, standard: int, shift: int, t: int)
    requires Regular(z, standard, shift)
    ensures FromLocalTime(z, ToLocalTime(z, t)) == t <==> shift == 3600 || !Repeated(z, t, shift)
  {
    ShiftPositive(z, standard, shift);
    LocalAndBack(z, standard, shift, t);
    hide *;
  }

  /** With summer time an hour ahead every second comes back, in both passes of a repeated hour too. */
  lemma LocalInverse(z: Zone, standard: int, t: int)
    requires Regular(z, standard, 3600)
    ensures FromLocalTime(z, ToLocalTime(z, t)) == t
  {
    InverseExactly(z, standard, 3600, t);
    hide *;
  }

  /** A zone whose summer time is half an hour ahead; 1000 seconds before that ends, the conversion there
      and back loses half an hour. */
  lemma HalfHourLost()
    ensures var z := Zone([Transition(0, 1800, 1), Transition(10000000, 10000000, 0)],
                          [LocalType(0, false), LocalType(1800, true)]);
      Regular(z, 0, 1800) && FromLocalTime(z, ToLocalTime(z, 9999000)) == 9997200
  {
    var z := Zone([Transition(0, 1800, 1), Transition(10000000, 10000000, 0)],
                  [LocalType(0, false), LocalType(1800, true)]);
    assert LastStretch(z.transitions, 1, 9999000, 1800);
    hide FromLocalTime, ToLocalTime, LastStretch;
    LocalAndBack(z, 0, 1800, 9999000);
  }

  lemma PeriodIs(k: nat, standard: int, shift: int)
    ensures PeriodType(k, standard, shift) ==
            if k % 2 == 1 then LocalType(standard + shift, true) else LocalType(standard, false)
  {}

  lemma ToLocalIs(z: Zone, t: int)
    requires WellFormed(z)
    ensures var l := TypeAt(z, t, true); ToLocalTime(z, t) == Fill(t + l.offset, l.isDst)
  {
    hide TypeAt, Fill;
  }

  lemma FromLocalIs(z: Zone, x: LocalTm)
    requires WellFormed(z)
    ensures var l := TypeAt(z, Count(x), false);
      var again := ToLocalTime(z, Count(x) - l.offset);
      FromLocalTime(z, x) == (if x.isDst && !again.isDst && again.hour == x.hour && again.minute == x.minute
                              then Count(x) - 3600 - l.offset else Count(x) - l.offset)
  {
    hide TypeAt, ToLocalTime, Count;
  }

  lemma FillSame(t: int)
    ensures Fill(t, true).hour == Fill(t, false).hour && Fill(t, true).minute == Fill(t, false).minute
    ensures Fill(t, true).isDst && !Fill(t, false).isDst
  {
    hide SecondOfDay, DayOfTime;
  }

  // ---------------------------------------------------------------- the search and the conversions in place

  /** The first transition not before `key`, by bisection. */
  method LowerBound(s: seq<Transition>, key: int, byGmt: bool) returns (lo: nat)
    requires Ascending(s, byGmt)
    ensures lo <= |s| && (forall i :: 0 <= i < lo ==> Key(s[i], byGmt) < key)
    ensures lo < |s| ==> Key(s[lo], byGmt) >= key
  {
    hide Key;
    lo := 0;
    var hi := |s|;
    while lo < hi
      invariant 0 <= lo <= hi <= |s|
      invariant forall i :: 0 <= i < lo ==> Key(s[i], byGmt) < key
      invariant hi < |s| ==> Key(s[hi], byGmt) >= key
    {
      var mid := (lo + hi) / 2;
      if Key(s[mid], byGmt) < key { lo := mid + 1; } else { hi := mid; }
    }
  }

  /** The local time type that holds at `key`. */
  method FindLocaltime(z: Zone, key: int, byGmt: bool) returns (l: LocalType)
    requires WellFormed(z) && Ascending(z.transitions, byGmt)
    ensures l == TypeAt(z, key, byGmt)
  {
    hide Key, Before;
    var s := z.transitions;
    if s == [] || key < Key(s[0], byGmt) {
      BeforeUnique(s, key, byGmt, 0);
      return z.types[0];
    }
    var i := LowerBound(s, key, byGmt);
    if i < |s| {
      if Key(s[i], byGmt) != key {
        BeforeUnique(s, key, byGmt, i);
        i := i - 1;
      } else {
        assert i + 1 < |s| ==> Key(s[i], byGmt) < Key(s[i + 1], byGmt);
        BeforeUnique(s, key, byGmt, i + 1);
      }
      l := z.types[s[i].idx];
    } else {
      BeforeUnique(s, key, byGmt, |s|);
      l := z.types[s[|s| - 1].idx];
    }
  }

  method LocalTime(z: Zone, t: int) returns (x: LocalTm)
    requires WellFormed(z) && Ascending(z.transitions, true)
    ensures x == ToLocalTime(z, t)
  {
    var l := FindLocaltime(z, t, true);
    x := Fill(t + l.offset, l.isDst);
  }

  method Seconds(z: Zone, x: LocalTm) returns (t: int)
    requires WellFormed(z) && Ascending(z.transitions, true) && Ascending(z.transitions, false)
    ensures t == FromLocalTime(z, x)
  {
    hide TypeAt, Fill;
    t := Count(x);
    var l := FindLocaltime(z, t, false);
    if x.isDst {
      var again := LocalTime(z, t - l.offset);
      if !again.isDst && again.hour == x.hour && again.minute == x.minute {
        t := t - 3600;
      }
    }
    t := t - l.offset;
  }
}
