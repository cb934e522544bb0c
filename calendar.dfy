/**
 * Naive Gregorian calendar dates as JavaScript's `Date` and date-fns use them
 * here: local midnight of a (year, month 0-11, day) with no time zone, the
 * proleptic Gregorian calendar, weekday 0 = Sunday as `getDay` returns it,
 * and day arithmetic (`addDays`, `subDays`, `setDate`) that rolls over month
 * and year ends.
 */
module Calendar {

  datatype CivilDate = CivilDate(year: int, month: int, day: int)

  predicate IsLeapYear(y: int) {
    y % 4 == 0 && (y % 100 != 0 || y % 400 == 0)
  }

  function DaysInMonth(y: int, m: int): (n: int)
    requires 0 <= m < 12
    ensures 28 <= n <= 31
    ensures n == 28 <==> m == 1 && !IsLeapYear(y)
  {
    if m == 1 then (if IsLeapYear(y) then 29 else 28)
    else if m == 3 || m == 5 || m == 8 || m == 10 then 30
    else 31
  }

  predicate IsValid(d: CivilDate) {
    0 <= d.month < 12 && 1 <= d.day <= DaysInMonth(d.year, d.month)
  }

  /** A calendar date that exists. */
  type Date = d: CivilDate | IsValid(d) witness CivilDate(1970, 0, 1)

  /** Days from January 1 to the first of month `m`. */
  function DaysBeforeMonth(y: int, m: int): int
    requires 0 <= m < 12
  {
    (if m == 0 then 0 else if m == 1 then 31 else if m == 2 then 59 else if m == 3 then 90
     else if m == 4 then 120 else if m == 5 then 151 else if m == 6 then 181 else if m == 7 then 212
     else if m == 8 then 243 else if m == 9 then 273 else if m == 10 then 304 else 334)
    + (if m >= 2 && IsLeapYear(y) then 1 else 0)
  }

  /** Leap years in the years before `y` (counted from year 0, extended to
      negative years with floor division). */
  function LeapYearsBefore(y: int): int {
    (y - 1) / 4 - (y - 1) / 100 + (y - 1) / 400
  }

  /** A count of days that grows by one from each date to the next; the
      epoch is irrelevant, only differences and the weekday are used. */
  function DayNumber(d: Date): int {
    365 * d.year + LeapYearsBefore(d.year) + DaysBeforeMonth(d.year, d.month) + d.day - 1
  }

  /** `getDay`: 0 = Sunday, 1 = Monday, ..., 6 = Saturday. */
  function Weekday(d: Date): (w: int)
    ensures 0 <= w < 7
  {
    DayNumber(d) % 7
  }

  /** date-fns `isWeekend`, and the `isWeekend` helper of the event parser. */
  predicate IsWeekend(d: Date) {
    Weekday(d) == 0 || Weekday(d) == 6
  }

  /** The following day (`setDate(getDate() + 1)`, `addDays(d, 1)`). */
  function NextDay(d: Date): Date {
    if d.day < DaysInMonth(d.year, d.month) then CivilDate(d.year, d.month, d.day + 1)
    else if d.month < 11 then CivilDate(d.year, d.month + 1, 1)
    else CivilDate(d.year + 1, 0, 1)
  }

  /** The preceding day (`setDate(getDate() - 1)`, `subDays(d, 1)`). */
  function PrevDay(d: Date): Date {
    if d.day > 1 then CivilDate(d.year, d.month, d.day - 1)
    else if d.month > 0 then CivilDate(d.year, d.month - 1, DaysInMonth(d.year, d.month - 1))
    else CivilDate(d.year - 1, 11, 31)
  }

  /** `addDays(d, n)` for any integer `n` (negative `n` is `subDays`). */
  function AddDays(d: Date, n: int): Date
    decreases if n < 0 then -n else n
  {
    if n == 0 then d
    else if n > 0 then AddDays(NextDay(d), n - 1)
    else AddDays(PrevDay(d), n + 1)
  }

  /** The day ECMAScript's MakeDay names: month and day outside their
      ranges roll over into the neighbouring months and years (see
      `MakeDayRollsOver`); a day that exists in the month is taken as is. */
  function MakeDay(year: int, month: int, day: int): Date {
    if 0 <= month < 12 && 1 <= day <= DaysInMonth(year, month) then CivilDate(year, month, day)
    else AddDays(CivilDate(year + month / 12, month % 12, 1), day - 1)
  }

  /** ECMAScript's MakeFullYear: the `Date` constructor reads a year from 0
      to 99 as 1900 to 1999. */
  function FullYear(year: int): int {
    if 0 <= year <= 99 then 1900 + year else year
  }

  /** `new Date(year, month, day)`: the year is read as `FullYear` reads it,
      and month and day roll over as in `MakeDay`. */
  function MakeDate(year: int, month: int, day: int): Date {
    MakeDay(FullYear(year), month, day)
  }

  /** `d.setDate(day)`: the same month and year, day `day`, rolled over as
      in `MakeDay`; `setDate` keeps the year as it is. */
  function SetDate(d: Date, day: int): Date {
    MakeDay(d.year, d.month, day)
  }

  // ---------------------------------------------------------- lemmas

  lemma DivStep4(y: int)
    ensures y / 4 - (y - 1) / 4 == if y % 4 == 0 then 1 else 0
  {
  }

  lemma DivStep100(y: int)
    ensures y / 100 - (y - 1) / 100 == if y % 100 == 0 then 1 else 0
  {
  }

  lemma DivStep400(y: int)
    ensures y / 400 - (y - 1) / 400 == if y % 400 == 0 then 1 else 0
  {
  }

  lemma Div400Div100(y: int)
    requires y % 400 == 0
    ensures y % 100 == 0
  {
    var q := y / 400;
    assert y == 100 * (4 * q);
  }

  lemma Div100Div4(y: int)
    requires y % 100 == 0
    ensures y % 4 == 0
  {
    var q := y / 100;
    assert y == 4 * (25 * q);
  }

  lemma LeapYearsStep(y: int)
    ensures LeapYearsBefore(y + 1) == LeapYearsBefore(y) + if IsLeapYear(y) then 1 else 0
  {
    DivStep4(y);
    DivStep100(y);
    DivStep400(y);
    if y % 400 == 0 {
      Div400Div100(y);
      Div100Div4(y);
    } else if y % 100 == 0 {
      Div100Div4(y);
    }
  }

  /** Consecutive dates have consecutive day numbers. */
  lemma NextDayNumber(d: Date)
    ensures DayNumber(NextDay(d)) == DayNumber(d) + 1
  {
    if d.day == DaysInMonth(d.year, d.month) && d.month == 11 {
      LeapYearsStep(d.year);
    }
  }

  lemma PrevDayNumber(d: Date)
    ensures DayNumber(PrevDay(d)) == DayNumber(d) - 1
  {
    if d.day == 1 && d.month == 0 {
      LeapYearsStep(d.year - 1);
    }
  }

  lemma NextPrevDay(d: Date)
    ensures NextDay(PrevDay(d)) == d && PrevDay(NextDay(d)) == d
  {
  }

  /** `addDays` moves the day number by exactly `n`. */
  lemma {:induction false} AddDaysNumber(d: Date, n: int)
    ensures DayNumber(AddDays(d, n)) == DayNumber(d) + n
    decreases if n < 0 then -n else n
  {
    if n > 0 {
      NextDayNumber(d);
      AddDaysNumber(NextDay(d), n - 1);
    } else if n < 0 {
      PrevDayNumber(d);
      AddDaysNumber(PrevDay(d), n + 1);
    }
  }

  /** Every date is a fixed distance from every other: day numbers identify dates. */
  lemma {:induction false} DayNumberInjective(a: Date, b: Date)
    requires DayNumber(a) == DayNumber(b)
    ensures a == b
  {
    if a.year < b.year {
      DayNumberYearBounds(a);
      DayNumberYearBounds(b);
      YearStartMonotone(a.year + 1, b.year);
    } else if b.year < a.year {
      DayNumberYearBounds(a);
      DayNumberYearBounds(b);
      YearStartMonotone(b.year + 1, a.year);
    } else if a.month != b.month {
      MonthStartMonotone(a);
      MonthStartMonotone(b);
    }
  }

  /** Day number of January 1 of year `y`. */
  function YearStart(y: int): int {
    365 * y + LeapYearsBefore(y)
  }

  lemma {:induction false} YearStartMonotone(x: int, y: int)
    requires x <= y
    ensures YearStart(x) <= YearStart(y)
    decreases y - x
  {
    if x < y {
      LeapYearsStep(x);
      YearStartMonotone(x + 1, y);
    }
  }

  lemma DayNumberYearBounds(d: Date)
    ensures YearStart(d.year) <= DayNumber(d) < YearStart(d.year + 1)
  {
    LeapYearsStep(d.year);
  }

  lemma MonthStartMonotone(d: Date)
    ensures d.month < 11 ==> DayNumber(d) < YearStart(d.year) + DaysBeforeMonth(d.year, d.month + 1)
    ensures DayNumber(d) >= YearStart(d.year) + DaysBeforeMonth(d.year, d.month)
    ensures forall m :: 0 < m <= d.month ==>
      YearStart(d.year) + DaysBeforeMonth(d.year, m) <= DayNumber(d)
    ensures forall m :: d.month < m < 12 ==>
      DayNumber(d) < YearStart(d.year) + DaysBeforeMonth(d.year, m)
  {
  }

  /** Adding days one at a time: `addDays(d, n + 1)` is the day after `addDays(d, n)`. */
  lemma AddDaysSucc(d: Date, n: nat)
    ensures AddDays(d, n + 1) == NextDay(AddDays(d, n))
  {
    AddDaysNumber(d, n + 1);
    AddDaysNumber(d, n);
    NextDayNumber(AddDays(d, n));
    DayNumberInjective(AddDays(d, n + 1), NextDay(AddDays(d, n)));
  }

  /** `addDays` composes. */
  lemma AddDaysAdd(d: Date, m: int, n: int)
    ensures AddDays(AddDays(d, m), n) == AddDays(d, m + n)
  {
    AddDaysNumber(d, m);
    AddDaysNumber(AddDays(d, m), n);
    AddDaysNumber(d, m + n);
    DayNumberInjective(AddDays(AddDays(d, m), n), AddDays(d, m + n));
  }

  /** Inside one month, adding days only changes the day field. */
  lemma AddDaysWithinMonth(d: Date, n: int)
    requires 1 <= d.day + n <= DaysInMonth(d.year, d.month)
    ensures AddDays(d, n) == CivilDate(d.year, d.month, d.day + n)
  {
    var e: Date := CivilDate(d.year, d.month, d.day + n);
    AddDaysNumber(d, n);
    DayNumberInjective(AddDays(d, n), e);
  }

  /** `new Date(year, month, day)` is `day - 1` days after the first of the
      month `month % 12` of year `year + month / 12`, whatever the day. */
  lemma MakeDayRollsOver(year: int, month: int, day: int)
    ensures MakeDay(year, month, day) == AddDays(CivilDate(year + month / 12, month % 12, 1), day - 1)
  {
    if 0 <= month < 12 && 1 <= day <= DaysInMonth(year, month) {
      AddDaysWithinMonth(CivilDate(year, month, 1), day - 1);
    }
  }

  /** `new Date(year, month, day)` is `day - 1` days after the 1st of the
      normalised month of the full year. */
  lemma MakeDateRollsOver(year: int, month: int, day: int)
    ensures MakeDate(year, month, day) ==
      AddDays(CivilDate(FullYear(year) + month / 12, month % 12, 1), day - 1)
  {
    MakeDayRollsOver(FullYear(year), month, day);
  }

  /** Years 0 to 99 stand for 1900 to 1999; every other year stands for itself. */
  lemma MakeDateTwoDigitYears(year: int, month: int, day: int)
    ensures 0 <= year <= 99 ==> MakeDate(year, month, day) == MakeDate(1900 + year, month, day)
    ensures !(0 <= year <= 99) ==> MakeDate(year, month, day) == MakeDay(year, month, day)
  {
  }

  /** `new Date(year, month, day)` with month 0-11 and a day that exists is
      that date of the full year. */
  lemma MakeDateInRange(year: int, month: int, day: int)
    requires 0 <= month < 12 && 1 <= day <= DaysInMonth(FullYear(year), month)
    ensures MakeDate(year, month, day) == CivilDate(FullYear(year), month, day)
  {
    AddDaysWithinMonth(CivilDate(FullYear(year), month, 1), day - 1);
  }

  /** `d.setDate(d.getDate() + k)` is `addDays(d, k)`. */
  lemma SetDateShift(d: Date, k: int)
    ensures SetDate(d, d.day + k) == AddDays(d, k)
  {
    var first: Date := CivilDate(d.year, d.month, 1);
    MakeDayRollsOver(d.year, d.month, d.day + k);
    assert d.month / 12 == 0 && d.month % 12 == d.month;
    assert SetDate(d, d.day + k) == AddDays(first, d.day - 1 + k);
    AddDaysWithinMonth(first, d.day - 1);
    assert AddDays(first, d.day - 1) == d;
    AddDaysAdd(first, d.day - 1, k);
  }

  /** `d.setDate(d.getDate() + 1)` is the next day. */
  lemma SetDateNext(d: Date)
    ensures SetDate(d, d.day + 1) == NextDay(d)
  {
    SetDateShift(d, 1);
    assert AddDays(d, 1) == AddDays(NextDay(d), 0);
  }

  /** The weekday advances by one, modulo 7, with each day added. */
  lemma ModAdd7(a: int, n: int)
    ensures (a + n) % 7 == (a % 7 + n) % 7
  {
    var q := a / 7;
    assert a == 7 * q + a % 7;
    assert a + n == 7 * q + (a % 7 + n);
  }

  lemma WeekdayAddDays(d: Date, n: int)
    ensures Weekday(AddDays(d, n)) == (Weekday(d) + n) % 7
  {
    AddDaysNumber(d, n);
    ModAdd7(DayNumber(d), n);
  }

  lemma WeekdayNextDay(d: Date)
    ensures Weekday(NextDay(d)) == (Weekday(d) + 1) % 7
  {
    NextDayNumber(d);
    ModAdd7(DayNumber(d), 1);
  }

  /** The weekday count sits on the real calendar: January 1 of 1970 was a
      Thursday, of 2000 a Saturday, of 2026 a Thursday, and February 29 of
      2024 a Thursday. */
  lemma KnownWeekdays()
    ensures Weekday(CivilDate(1970, 0, 1)) == 4
    ensures Weekday(CivilDate(2000, 0, 1)) == 6
    ensures Weekday(CivilDate(2026, 0, 1)) == 4
    ensures Weekday(CivilDate(2024, 1, 29)) == 4
  {
  }

  /** How many days from `d` to the next non-weekend day (0 when `d` is one). */
  function WeekendRun(d: Date): (n: nat)
    ensures n <= 2
    ensures n == 0 <==> !IsWeekend(d)
  {
    if Weekday(d) == 6 then 2 else if Weekday(d) == 0 then 1 else 0
  }

  /** A weekend day is followed by a day one step closer to the week. */
  lemma WeekendRunStep(d: Date)
    requires IsWeekend(d)
    ensures WeekendRun(NextDay(d)) == WeekendRun(d) - 1
  {
    WeekdayNextDay(d);
  }

  /** The first non-weekend day on or after `d`. */
  function FirstWeekdayFrom(d: Date): Date {
    AddDays(d, WeekendRun(d))
  }

  lemma FirstWeekdayFromFacts(d: Date)
    ensures !IsWeekend(FirstWeekdayFrom(d))
    ensures DayNumber(FirstWeekdayFrom(d)) == DayNumber(d) + WeekendRun(d)
    ensures forall k :: 0 <= k < WeekendRun(d) ==> IsWeekend(AddDays(d, k))
  {
    WeekdayAddDays(d, WeekendRun(d));
    AddDaysNumber(d, WeekendRun(d));
    WeekdayAddDays(d, 1);
  }

  /** Stepping off a weekend day keeps the target and shortens the run. */
  lemma FirstWeekdayFromStep(d: Date)
    requires IsWeekend(d)
    ensures FirstWeekdayFrom(NextDay(d)) == FirstWeekdayFrom(d)
    ensures WeekendRun(NextDay(d)) < WeekendRun(d)
  {
    WeekendRunStep(d);
    assert AddDays(d, WeekendRun(d)) == AddDays(NextDay(d), WeekendRun(d) - 1);
  }
}
