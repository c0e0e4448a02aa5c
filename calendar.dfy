/** Gregorian calendar arithmetic of ECMAScript's Date objects, following the
    abstract operations of ECMA-262 (ES2022) section 21.4.1: DaysInYear and
    DayFromYear (21.4.1.3), the month table of MonthFromTime (21.4.1.4),
    DateFromTime (21.4.1.5), MakeDay (21.4.1.12) and MakeDate.

    A date-time is held as its local calendar fields; its time value is the
    number of milliseconds since 1970-01-01T00:00 local time, so that in a
    time zone with a fixed offset comparing time values and comparing the
    fields agree (TimeOrderIsLexicographic). */
module Calendar {

  /** msPerDay of ECMA-262 section 21.4.1.2. */
  const MsPerDay: int := 86400000

  /** Local calendar fields: a year (proleptic Gregorian, may be zero or
      negative), a month 0 = January .. 11 = December as in getMonth(), a day
      of the month 1 .. 31 as in getDate(), and the milliseconds elapsed since
      local midnight. */
  datatype Fields = Fields(year: int, month: int, day: int, msOfDay: int)

  /** DaysInYear(y) of ECMA-262 section 21.4.1.3. */
  function DaysInYear(y: int): (n: int)
    ensures n == 365 || n == 366
    ensures n == 366 <==> y % 4 == 0 && (y % 100 != 0 || y % 400 == 0)
  {
    if y % 4 != 0 then 365
    else if y % 100 != 0 then 366
    else if y % 400 != 0 then 365
    else 366
  }

  predicate InLeapYear(y: int) {
    DaysInYear(y) == 366
  }

  /** Number of days of month m (0 = January) in year y. */
  function DaysInMonth(y: int, m: int): (n: int)
    requires 0 <= m < 12
    ensures 28 <= n <= 31
    ensures m == 1 ==> (n == 29 <==> InLeapYear(y))
  {
    if m == 1 then (if InLeapYear(y) then 29 else 28)
    else if m == 3 || m == 5 || m == 8 || m == 10 then 30
    else 31
  }

  /** Day within the year on which month m begins, the table of MonthFromTime
      (ECMA-262 section 21.4.1.4); MonthStart(y, 12) closes the year. */
  function MonthStart(y: int, m: int): int
    requires 0 <= m <= 12
  {
    var leap := if InLeapYear(y) then 1 else 0;
    if m == 0 then 0
    else if m == 1 then 31
    else if m == 2 then 59 + leap
    else if m == 3 then 90 + leap
    else if m == 4 then 120 + leap
    else if m == 5 then 151 + leap
    else if m == 6 then 181 + leap
    else if m == 7 then 212 + leap
    else if m == 8 then 243 + leap
    else if m == 9 then 273 + leap
    else if m == 10 then 304 + leap
    else if m == 11 then 334 + leap
    else 365 + leap
  }

  /** A real calendar date with a time of day inside the day. */
  predicate WellFormed(f: Fields) {
    0 <= f.month < 12 &&
    1 <= f.day <= DaysInMonth(f.year, f.month) &&
    0 <= f.msOfDay < MsPerDay
  }

  type LocalDateTime = f: Fields | WellFormed(f) witness Fields(1970, 0, 1, 0)

  /** DayFromYear(y) of ECMA-262 section 21.4.1.3: the day number of
      January 1 of year y. Dafny's `/` by a positive divisor is the floor. */
  function DayFromYear(y: int): int {
    365 * (y - 1970) + (y - 1969) / 4 - (y - 1901) / 100 + (y - 1601) / 400
  }

  /** The day number of a date, as MakeDay (ECMA-262 section 21.4.1.12)
      computes it from year, month and date. */
  function Day(f: LocalDateTime): int {
    DayFromYear(f.year) + MonthStart(f.year, f.month) + f.day - 1
  }

  /** The time value of a date-time, as MakeDate(Day, TimeWithinDay). */
  function TimeValue(f: LocalDateTime): int {
    Day(f) * MsPerDay + f.msOfDay
  }

  /** The calendar day after f at the same time of day: what
      `setDate(getDate() + 1)` leaves in a Date (ECMA-262 section 21.4.4.20),
      with the overflowing date rolled into the next month or year. */
  function NextDay(f: LocalDateTime): (g: LocalDateTime)
    ensures g.msOfDay == f.msOfDay
  {
    if f.day < DaysInMonth(f.year, f.month) then
      Fields(f.year, f.month, f.day + 1, f.msOfDay)
    else if f.month < 11 then
      Fields(f.year, f.month + 1, 1, f.msOfDay)
    else
      Fields(f.year + 1, 0, 1, f.msOfDay)
  }

  /** Lexicographic order of the fields: year, then month, day, time of day. */
  predicate FieldsLessEq(a: Fields, b: Fields) {
    a.year < b.year ||
    (a.year == b.year &&
     (a.month < b.month ||
      (a.month == b.month &&
       (a.day < b.day ||
        (a.day == b.day && a.msOfDay <= b.msOfDay)))))
  }

  // ---------------------------------------------------------------------
  // Lemmas

  // Facts about floor division by the constants of DayFromYear, one per
  // lemma, which keeps each of them cheap for the solver.

  lemma FloorStep4(a: int)
    ensures (a + 1) / 4 == a / 4 + (if (a + 1) % 4 == 0 then 1 else 0)
  {
  }

  lemma FloorStep100(a: int)
    ensures (a + 1) / 100 == a / 100 + (if (a + 1) % 100 == 0 then 1 else 0)
  {
  }

  lemma FloorStep400(a: int)
    ensures (a + 1) / 400 == a / 400 + (if (a + 1) % 400 == 0 then 1 else 0)
  {
  }

  lemma Shift4(y: int)
    ensures (y - 1968) % 4 == y % 4
  {
  }

  lemma Shift100(y: int)
    ensures (y - 1900) % 100 == y % 100
  {
  }

  lemma Shift400(y: int)
    ensures (y - 1600) % 400 == y % 400
  {
  }

  lemma Multiple400Is100(y: int)
    requires y % 400 == 0
    ensures y % 100 == 0
  {
  }

  lemma Multiple100Is4(y: int)
    requires y % 100 == 0
    ensures y % 4 == 0
  {
  }

  /** The month lengths agree with the MonthFromTime table: each month
      begins where the previous one ends, and the twelve make up the year. */
  lemma MonthLengthsMatchTable(y: int, m: int)
    requires 0 <= m < 12
    ensures MonthStart(y, m + 1) == MonthStart(y, m) + DaysInMonth(y, m)
    ensures MonthStart(y, 12) == DaysInYear(y)
  {
  }

  /** Consecutive values of DayFromYear differ by the length of the year. */
  lemma DayFromYearStep(y: int)
    ensures DayFromYear(y + 1) == DayFromYear(y) + DaysInYear(y)
  {
    FloorStep4(y - 1969);
    FloorStep100(y - 1901);
    FloorStep400(y - 1601);
    Shift4(y);
    Shift100(y);
    Shift400(y);
    var c4 := if y % 4 == 0 then 1 else 0;
    var c100 := if y % 100 == 0 then 1 else 0;
    var c400 := if y % 400 == 0 then 1 else 0;
    assert (y - 1968) / 4 == (y - 1969) / 4 + c4;
    assert (y - 1900) / 100 == (y - 1901) / 100 + c100;
    assert (y - 1600) / 400 == (y - 1601) / 400 + c400;
    assert DayFromYear(y + 1) == DayFromYear(y) + 365 + c4 - c100 + c400;
    if y % 400 == 0 {
      Multiple400Is100(y);
    }
    if y % 100 == 0 {
      Multiple100Is4(y);
    }
    assert DaysInYear(y) == 365 + c4 - c100 + c400;
  }

  lemma {:induction false} DayFromYearMonotone(y1: int, y2: int)
    requires y1 <= y2
    ensures DayFromYear(y1) <= DayFromYear(y2)
    ensures y1 < y2 ==> DayFromYear(y1) + DaysInYear(y1) <= DayFromYear(y2)
    decreases y2 - y1
  {
    if y1 < y2 {
      DayFromYearStep(y1);
      DayFromYearMonotone(y1 + 1, y2);
    }
  }

  /** A date lies inside its year: at least DayFromYear of its year, and
      before DayFromYear of the next. */
  lemma DayWithinYear(f: LocalDateTime)
    ensures DayFromYear(f.year) <= Day(f) < DayFromYear(f.year) + DaysInYear(f.year)
    ensures Day(f) < DayFromYear(f.year) + MonthStart(f.year, f.month + 1)
  {
  }

  /** setDate(getDate() + 1) moves the day number, and thus the time value,
      forward by exactly one day: the calendar increment agrees with adding
      msPerDay to the time value. */
  lemma NextDayIsOneDayLater(f: LocalDateTime)
    ensures Day(NextDay(f)) == Day(f) + 1
    ensures TimeValue(NextDay(f)) == TimeValue(f) + MsPerDay
  {
    if f.day == DaysInMonth(f.year, f.month) && f.month == 11 {
      DayFromYearStep(f.year);
    }
  }

  /** Strictly earlier fields give a strictly smaller time value. */
  lemma EarlierFieldsEarlierTime(a: LocalDateTime, b: LocalDateTime)
    requires FieldsLessEq(a, b) && a != b
    ensures TimeValue(a) < TimeValue(b)
  {
    if a.year < b.year {
      DayWithinYear(a);
      DayWithinYear(b);
      DayFromYearMonotone(a.year, b.year);
      assert Day(a) < Day(b);
    } else if a.month < b.month {
      DayWithinYear(a);
      assert MonthStart(a.year, a.month + 1) <= MonthStart(b.year, b.month);
      assert Day(a) < Day(b);
    } else if a.day < b.day {
      assert Day(a) < Day(b);
    } else {
      assert Day(a) == Day(b);
    }
  }

  /** Comparing time values, as `<=` on two Dates does, is the same as
      comparing the calendar fields lexicographically. */
  lemma TimeOrderIsLexicographic(a: LocalDateTime, b: LocalDateTime)
    ensures TimeValue(a) <= TimeValue(b) <==> FieldsLessEq(a, b)
  {
    if FieldsLessEq(a, b) {
      if a != b {
        EarlierFieldsEarlierTime(a, b);
      }
    } else {
      assert FieldsLessEq(b, a) && a != b;
      EarlierFieldsEarlierTime(b, a);
    }
  }

  /** Two date-times with the same time value are the same date-time. */
  lemma TimeValueInjective(a: LocalDateTime, b: LocalDateTime)
    requires TimeValue(a) == TimeValue(b)
    ensures a == b
  {
    TimeOrderIsLexicographic(a, b);
    TimeOrderIsLexicographic(b, a);
  }
}
