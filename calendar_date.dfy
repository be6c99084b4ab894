/** Proleptic Gregorian calendar dates at day granularity: the calendar
    arithmetic the recurrence engine takes from date-fns (addDays, addWeeks,
    addMonths, getDay, getDaysInMonth, setDate, startOfMonth, endOfMonth,
    startOfWeek with Sunday first). Time of day is not modelled. */
module CalendarDate {

  datatype YMD = YMD(year: int, month: int, day: int)

  predicate IsLeapYear(y: int) {
    y % 4 == 0 && (y % 100 != 0 || y % 400 == 0)
  }

  function DaysInMonth(y: int, m: int): (n: int)
    ensures 28 <= n <= 31
    ensures m == 2 ==> (n == 29 <==> IsLeapYear(y))
  {
    if m == 2 then (if IsLeapYear(y) then 29 else 28)
    else if m == 4 || m == 6 || m == 9 || m == 11 then 30
    else 31
  }

  predicate ValidDate(d: YMD) {
    1 <= d.month <= 12 && 1 <= d.day <= DaysInMonth(d.year, d.month)
  }

  /** A calendar date: a valid year-month-day triple. */
  type Date = d: YMD | ValidDate(d) witness YMD(2000, 1, 1)

  function DaysInYear(y: int): int {
    if IsLeapYear(y) then 366 else 365
  }

  /** Days from 0000-01-01 to the first day of year y (negative before year 0),
      counted a year at a time. */
  function DaysBeforeYear(y: int): int
    decreases if y < 0 then -y else y
  {
    if y == 0 then 0
    else if y > 0 then DaysBeforeYear(y - 1) + DaysInYear(y - 1)
    else DaysBeforeYear(y + 1) - DaysInYear(y)
  }

  /** Days from the first of the year to the first of month m. */
  function DaysBeforeMonth(y: int, m: int): int {
    var leap := if IsLeapYear(y) then 1 else 0;
    if m <= 1 then 0
    else if m == 2 then 31
    else if m == 3 then 59 + leap
    else if m == 4 then 90 + leap
    else if m == 5 then 120 + leap
    else if m == 6 then 151 + leap
    else if m == 7 then 181 + leap
    else if m == 8 then 212 + leap
    else if m == 9 then 243 + leap
    else if m == 10 then 273 + leap
    else if m == 11 then 304 + leap
    else 334 + leap
  }

  /** Number of days since 0000-01-01 (which has number 0). */
  function DayNumber(d: Date): int {
    DaysBeforeYear(d.year) + DaysBeforeMonth(d.year, d.month) + d.day - 1
  }

  // ----- Comparison at day granularity (isBefore / isAfter / isSameDay) -----

  predicate Before(a: Date, b: Date) { DayNumber(a) < DayNumber(b) }
  predicate After(a: Date, b: Date) { DayNumber(a) > DayNumber(b) }
  predicate SameDay(a: Date, b: Date) { DayNumber(a) == DayNumber(b) }

  // ----- Stepping one day -----

  function NextDay(d: Date): (r: Date)
    ensures DayNumber(r) == DayNumber(d) + 1
  {
    DayStepFacts(d.year, d.month);
    if d.day < DaysInMonth(d.year, d.month) then YMD(d.year, d.month, d.day + 1)
    else if d.month < 12 then YMD(d.year, d.month + 1, 1)
    else YMD(d.year + 1, 1, 1)
  }

  function PrevDay(d: Date): (r: Date)
    ensures DayNumber(r) == DayNumber(d) - 1
  {
    if d.day > 1 then YMD(d.year, d.month, d.day - 1)
    else if d.month > 1 then
      DayStepFacts(d.year, d.month - 1);
      YMD(d.year, d.month - 1, DaysInMonth(d.year, d.month - 1))
    else
      DayStepFacts(d.year - 1, 12);
      YMD(d.year - 1, 12, 31)
  }

  /** addDays: n days later (earlier when n is negative). */
  function AddDays(d: Date, n: int): (r: Date)
    ensures DayNumber(r) == DayNumber(d) + n
    decreases if n < 0 then -n else n
  {
    if n == 0 then d
    else if n > 0 then AddDays(NextDay(d), n - 1)
    else AddDays(PrevDay(d), n + 1)
  }

  /** addWeeks: 7 * n days later. */
  function AddWeeks(d: Date, n: int): (r: Date)
    ensures DayNumber(r) == DayNumber(d) + 7 * n
  {
    AddDays(d, 7 * n)
  }

  /** Months counted from January of year 0. */
  function MonthIndex(d: Date): int {
    d.year * 12 + (d.month - 1)
  }

  /** addMonths: the same day-of-month n months later, clamped to the last
      day of the target month. */
  function AddMonths(d: Date, n: int): (r: Date)
    ensures MonthIndex(r) == MonthIndex(d) + n
    ensures r.day == if d.day <= DaysInMonth(r.year, r.month) then d.day
                     else DaysInMonth(r.year, r.month)
  {
    var target := MonthIndex(d) + n;
    var y, m := target / 12, target % 12 + 1;
    YMD(y, m, if d.day <= DaysInMonth(y, m) then d.day else DaysInMonth(y, m))
  }

  /** getDay: 0 = Sunday, ..., 6 = Saturday. 0000-01-01 was a Saturday. */
  function Weekday(d: Date): (w: int)
    ensures 0 <= w < 7
  {
    (DayNumber(d) + 6) % 7
  }

  /** getDaysInMonth */
  function GetDaysInMonth(d: Date): (n: int)
    ensures d.day <= n && (n == 28 || n == 29 || n == 30 || n == 31)
  {
    DaysInMonth(d.year, d.month)
  }

  function StartOfMonth(d: Date): (r: Date)
    ensures r.year == d.year && r.month == d.month && r.day == 1
    ensures DayNumber(r) == DayNumber(d) - (d.day - 1)
  {
    YMD(d.year, d.month, 1)
  }

  function EndOfMonth(d: Date): (r: Date)
    ensures r.year == d.year && r.month == d.month && r.day == DaysInMonth(d.year, d.month)
    ensures DayNumber(r) == DayNumber(d) + (DaysInMonth(d.year, d.month) - d.day)
  {
    YMD(d.year, d.month, DaysInMonth(d.year, d.month))
  }

  /** startOfWeek with weekStartsOn 0: the Sunday on or before d. */
  function StartOfWeek(d: Date): (r: Date)
    ensures Weekday(r) == 0
    ensures DayNumber(d) - 6 <= DayNumber(r) <= DayNumber(d)
  {
    WeekdayAddDays(d, -Weekday(d));
    AddDays(d, -Weekday(d))
  }

  /** setDate as JavaScript does it: day-of-month `day` of d's month, rolling
      over into neighbouring months when `day` is out of range. */
  function SetDate(d: Date, day: int): (r: Date)
    ensures DayNumber(r) == DayNumber(StartOfMonth(d)) + day - 1
  {
    AddDays(StartOfMonth(d), day - 1)
  }

  // ----- Lemmas -----

  lemma YearLength(y: int)
    ensures DaysBeforeYear(y + 1) == DaysBeforeYear(y) + DaysInYear(y)
  {
  }

  /** 365 days a year plus the leap days before year y: every 4th year,
      except every 100th, except every 400th. */
  function ClosedFormDays(y: int): int {
    365 * y + (y + 3) / 4 - (y + 99) / 100 + (y + 399) / 400
  }

  /** DaysBeforeYear agrees with its closed form. */
  lemma {:induction false} DaysBeforeYearClosedForm(y: int)
    ensures DaysBeforeYear(y) == ClosedFormDays(y)
    decreases if y < 0 then -y else y
  {
    if y > 0 {
      DaysBeforeYearClosedForm(y - 1);
      ClosedFormStep(y - 1);
    } else if y < 0 {
      DaysBeforeYearClosedForm(y + 1);
      ClosedFormStep(y);
    }
  }

  /** The closed form grows by the length of year y from y to y + 1. */
  lemma {:induction false} ClosedFormStep(y: int)
    ensures ClosedFormDays(y + 1) == ClosedFormDays(y) + DaysInYear(y)
  {
    FloorStep4(y);
    FloorStep100(y);
    FloorStep400(y);
    LeapDivisors(y);
  }

  /** How the leap-day counts of the closed form change from y to y + 1. */
  lemma FloorStep4(y: int)
    ensures (y + 4) / 4 == (y + 3) / 4 + (if y % 4 == 0 then 1 else 0)
  {
    var q, r := y / 4, y % 4;
    assert y == 4 * q + r;
    assert (y + 4) / 4 == q + 1;
    if r == 0 { assert (y + 3) / 4 == q; } else { assert (y + 3) / 4 == q + 1; }
  }

  lemma FloorStep100(y: int)
    ensures (y + 100) / 100 == (y + 99) / 100 + (if y % 100 == 0 then 1 else 0)
  {
    var q, r := y / 100, y % 100;
    assert y == 100 * q + r;
    assert (y + 100) / 100 == q + 1;
    if r == 0 { assert (y + 99) / 100 == q; } else { assert (y + 99) / 100 == q + 1; }
  }

  lemma FloorStep400(y: int)
    ensures (y + 400) / 400 == (y + 399) / 400 + (if y % 400 == 0 then 1 else 0)
  {
    var q, r := y / 400, y % 400;
    assert y == 400 * q + r;
    assert (y + 400) / 400 == q + 1;
    if r == 0 { assert (y + 399) / 400 == q; } else { assert (y + 399) / 400 == q + 1; }
  }

  /** Multiples of 400 are multiples of 100, which are multiples of 4. */
  lemma LeapDivisors(y: int)
    ensures y % 400 == 0 ==> y % 100 == 0
    ensures y % 100 == 0 ==> y % 4 == 0
  {
    var q4, q100, q400 := y / 4, y / 100, y / 400;
    var r4, r100, r400 := y % 4, y % 100, y % 400;
    assert y == 4 * q4 + r4 && 0 <= r4 < 4;
    assert y == 100 * q100 + r100 && 0 <= r100 < 100;
    assert y == 400 * q400 + r400 && 0 <= r400 < 400;
    if r400 == 0 {
      assert r100 == 100 * (4 * q400 - q100);
    }
    if r100 == 0 {
      assert r4 == 4 * (25 * q100 - q4);
    }
  }

  /** Remainders modulo 7 are compatible with addition. */
  lemma ModSevenAdd(a: int, n: int)
    ensures (a + n) % 7 == (a % 7 + n) % 7
  {
  }

  /** The calendar facts NextDay and PrevDay rely on. */
  lemma DayStepFacts(y: int, m: int)
    requires 1 <= m <= 12
    ensures m < 12 ==> DaysBeforeMonth(y, m + 1) == DaysBeforeMonth(y, m) + DaysInMonth(y, m)
    ensures m == 12 ==> DaysBeforeYear(y + 1) == DaysBeforeYear(y) + DaysBeforeMonth(y, 12) + 31
  {
    YearLength(y);
  }

  /** A date's number lies within its year. */
  lemma DayNumberInYear(d: Date)
    ensures DaysBeforeYear(d.year) <= DayNumber(d) < DaysBeforeYear(d.year + 1)
  {
    YearLength(d.year);
  }

  lemma {:induction false} DaysBeforeYearMonotone(a: int, b: int)
    requires a <= b
    ensures DaysBeforeYear(a) <= DaysBeforeYear(b)
    decreases b - a
  {
    if a < b {
      YearLength(a);
      DaysBeforeYearMonotone(a + 1, b);
    }
  }

  /** Distinct dates have distinct day numbers. */
  lemma DayNumberInjective(a: Date, b: Date)
    requires DayNumber(a) == DayNumber(b)
    ensures a == b
  {
    DayNumberInYear(a);
    DayNumberInYear(b);
    if a.year < b.year {
      DaysBeforeYearMonotone(a.year + 1, b.year);
      assert false;
    } else if b.year < a.year {
      DaysBeforeYearMonotone(b.year + 1, a.year);
      assert false;
    }
  }

  lemma SameDayIsEqual(a: Date, b: Date)
    ensures SameDay(a, b) <==> a == b
  {
    if SameDay(a, b) { DayNumberInjective(a, b); }
  }

  /** Day comparison is the lexicographic order on (year, month, day). */
  lemma BeforeIsLexicographic(a: Date, b: Date)
    ensures Before(a, b) <==> (a.year < b.year || (a.year == b.year && (a.month < b.month || (a.month == b.month && a.day < b.day))))
  {
    DayNumberInYear(a);
    DayNumberInYear(b);
    if a.year < b.year {
      DaysBeforeYearMonotone(a.year + 1, b.year);
    } else if b.year < a.year {
      DaysBeforeYearMonotone(b.year + 1, a.year);
    }
  }

  lemma AddDaysAdd(d: Date, m: int, n: int)
    ensures AddDays(AddDays(d, m), n) == AddDays(d, m + n)
  {
    DayNumberInjective(AddDays(AddDays(d, m), n), AddDays(d, m + n));
  }

  lemma WeekdayAddDays(d: Date, n: int)
    ensures Weekday(AddDays(d, n)) == (Weekday(d) + n) % 7
  {
    ModSevenAdd(DayNumber(d) + 6, n);
  }

  /** addMonths clamps: Jan 31 of a leap year plus one month is Feb 29. */
  lemma AddMonthsClampsLeapFebruary()
    ensures AddMonths(YMD(2024, 1, 31), 1) == YMD(2024, 2, 29)
    ensures AddMonths(YMD(2023, 1, 31), 1) == YMD(2023, 2, 28)
  {
  }

  /** A positive number of months moves strictly forward in time. */
  lemma MonthIndexOrder(a: Date, b: Date)
    requires MonthIndex(a) < MonthIndex(b)
    ensures Before(a, b)
  {
    BeforeIsLexicographic(a, b);
  }

  lemma SetDateInMonth(d: Date, day: int)
    requires 1 <= day <= DaysInMonth(d.year, d.month)
    ensures SetDate(d, day) == YMD(d.year, d.month, day)
  {
    var e: Date := YMD(d.year, d.month, day);
    DayNumberInjective(SetDate(d, day), e);
  }

  /** Weekdays of a few known dates anchor the day numbering. */
  lemma KnownWeekdays(d: Date)
    ensures d == YMD(2024, 1, 1) ==> Weekday(d) == 1   // a Monday
    ensures d == YMD(1970, 1, 1) ==> Weekday(d) == 4   // a Thursday
    ensures d == YMD(1, 1, 1) ==> Weekday(d) == 1      // a Monday
  {
    DaysBeforeYearClosedForm(d.year);
  }
}
