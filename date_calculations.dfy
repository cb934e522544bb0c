/**
 * lib/dateCalculations.ts: working days with a holiday list, the Friday
 * before a weekend, and the date a structured `EventRule` gives in a month.
 * Holidays are compared as the source compares them, by their
 * `yyyy-MM-dd` text.
 */
module DateCalculations {
  import opened Wrappers
  import opened Calendar
  import opened CalendarTypes
  import opened DateFormat

  /** Some holiday prints as the same `yyyy-MM-dd` text as `date`. */
  predicate IsHoliday(date: Date, holidays: seq<Date>) {
    exists k :: 0 <= k < |holidays| && IsoDate(holidays[k]) == IsoDate(date)
  }

  /** `isWorkingDay`: not a Saturday or Sunday and not a holiday. */
  predicate IsWorkingDay(date: Date, holidays: seq<Date>) {
    !IsWeekend(date) && !IsHoliday(date, holidays)
  }

  /** With dates from year 1 on, the textual comparison is membership. */
  lemma IsHolidayIsMembership(date: Date, holidays: seq<Date>)
    requires date.year >= 1
    requires forall k :: 0 <= k < |holidays| ==> holidays[k].year >= 1
    ensures IsHoliday(date, holidays) <==> date in holidays
  {
    forall k | 0 <= k < |holidays| ensures IsoDate(holidays[k]) == IsoDate(date) <==> holidays[k] == date {
      IsoDateInjective(holidays[k], date);
    }
  }

  /** Without holidays the working days are the weekdays. */
  lemma NoHolidaysWorkingDay(date: Date)
    ensures IsWorkingDay(date, []) <==> !IsWeekend(date)
  {
  }

  // ------------------------------------------------- the forward search

  function Abs(y: int): nat {
    if y < 0 then -y else y
  }

  /** A bound above every holiday year, in both directions. */
  function YearBound(holidays: seq<Date>): (b: nat)
    ensures forall k :: 0 <= k < |holidays| ==> Abs(holidays[k].year) < b
  {
    if holidays == [] then 0
    else
      var rest := YearBound(holidays[1..]);
      var own := Abs(holidays[0].year) + 1;
      assert forall k :: 1 <= k < |holidays| ==> holidays[k] == holidays[1..][k - 1];
      if own > rest then own else rest
  }

  /** No year after the bound prints like a holiday's year. */
  lemma NoHolidayBeyond(date: Date, holidays: seq<Date>)
    requires date.year > YearBound(holidays)
    ensures !IsHoliday(date, holidays)
  {
    forall k | 0 <= k < |holidays| ensures IsoDate(holidays[k]) != IsoDate(date) {
      NotHolidayAt(date, holidays, k);
    }
  }

  lemma NotHolidayAt(date: Date, holidays: seq<Date>, k: int)
    requires date.year > YearBound(holidays) && 0 <= k < |holidays|
    ensures IsoDate(holidays[k]) != IsoDate(date)
  {
    var h := holidays[k];
    assert Abs(h.year) < YearBound(holidays);
    assert EraYear(h.year) < EraYear(date.year);
    EraYearsApart(h, date);
  }

  lemma EraYearsApart(a: Date, b: Date)
    requires EraYear(a.year) != EraYear(b.year)
    ensures IsoDate(a) != IsoDate(b)
  {
    if IsoDate(a) == IsoDate(b) {
      IsoDateParts(a, b);
      Year4Injective(a, b);
    }
  }

  /** The search either still has holidays ahead (1) or only weekends (0). */
  function SearchPhase(date: Date, holidays: seq<Date>): nat {
    if date.year > YearBound(holidays) then 0 else 1
  }

  /** Days left before the last holiday year ends, or before the weekend ends. */
  function SearchDistance(date: Date, holidays: seq<Date>): nat {
    if date.year > YearBound(holidays) then WeekendRun(date)
    else
      var gap := YearStart(YearBound(holidays) + 1) - DayNumber(date);
      if gap < 0 then 0 else gap
  }

  /** Stepping past a day brings the search closer to its end, as long as
      the days past the holiday years are weekend days. */
  lemma SearchStepPastWeekend(date: Date, holidays: seq<Date>)
    requires date.year > YearBound(holidays) ==> IsWeekend(date)
    ensures var next := NextDay(date);
      SearchPhase(next, holidays) < SearchPhase(date, holidays)
      || (SearchPhase(next, holidays) == SearchPhase(date, holidays)
          && SearchDistance(next, holidays) < SearchDistance(date, holidays))
  {
    var next := NextDay(date);
    var b := YearBound(holidays);
    if date.year > b {
      WeekendRunStep(date);
    } else if next.year <= b {
      NextDayNumber(date);
      DayNumberYearBounds(next);
      YearStartMonotone(next.year + 1, b + 1);
    }
  }

  /** Stepping past a day that is not a working day brings the search closer to its end. */
  lemma SearchStep(date: Date, holidays: seq<Date>)
    requires !IsWorkingDay(date, holidays)
    ensures var next := NextDay(date);
      SearchPhase(next, holidays) < SearchPhase(date, holidays)
      || (SearchPhase(next, holidays) == SearchPhase(date, holidays)
          && SearchDistance(next, holidays) < SearchDistance(date, holidays))
  {
    if date.year > YearBound(holidays) {
      NoHolidayBeyond(date, holidays);
    }
    SearchStepPastWeekend(date, holidays);
  }

  /** What `getNextWorkingDay` returns: `date` itself when it is a working
      day, otherwise the search continues from the next day. */
  function NextWorkingDay(date: Date, holidays: seq<Date>): Date
    decreases SearchPhase(date, holidays), SearchDistance(date, holidays)
  {
    if IsWorkingDay(date, holidays) then date
    else
      SearchStep(date, holidays);
      NextWorkingDay(NextDay(date), holidays)
  }

  /** The result is the first working day on or after `date`: a working
      day, reached by adding days, with no working day before it. */
  lemma {:induction false} NextWorkingDayFacts(date: Date, holidays: seq<Date>)
    ensures var r := NextWorkingDay(date, holidays);
      IsWorkingDay(r, holidays) && DayNumber(r) >= DayNumber(date)
      && r == AddDays(date, DayNumber(r) - DayNumber(date))
      && (forall k :: 0 <= k < DayNumber(r) - DayNumber(date) ==> !IsWorkingDay(AddDays(date, k), holidays))
    ensures IsWorkingDay(date, holidays) ==> NextWorkingDay(date, holidays) == date
    decreases SearchPhase(date, holidays), SearchDistance(date, holidays)
  {
    if !IsWorkingDay(date, holidays) {
      var next := NextDay(date);
      var r := NextWorkingDay(date, holidays);
      SearchStep(date, holidays);
      NextWorkingDayFacts(next, holidays);
      NextDayNumber(date);
      var n := DayNumber(r) - DayNumber(date);
      assert AddDays(date, n) == AddDays(next, n - 1);
      SearchPrefix(date, holidays, n);
    }
  }

  /** Days skipped from the next day on, with `date` itself skipped too. */
  lemma SearchPrefix(date: Date, holidays: seq<Date>, n: int)
    requires !IsWorkingDay(date, holidays)
    requires forall k :: 0 <= k < n - 1 ==> !IsWorkingDay(AddDays(NextDay(date), k), holidays)
    ensures forall k :: 0 <= k < n ==> !IsWorkingDay(AddDays(date, k), holidays)
  {
    forall k | 0 <= k < n ensures !IsWorkingDay(AddDays(date, k), holidays) {
      if k > 0 {
        assert AddDays(date, k) == AddDays(NextDay(date), k - 1);
      }
    }
  }

  /** With no holidays the search stops at the first weekday on or after `date`. */
  lemma {:induction false} NextWorkingDayWithoutHolidays(date: Date)
    ensures NextWorkingDay(date, []) == FirstWeekdayFrom(date)
    decreases WeekendRun(date)
  {
    if IsWeekend(date) {
      FirstWeekdayFromStep(date);
      NextWorkingDayWithoutHolidays(NextDay(date));
    }
  }

  /** Holidays can only delay the search. */
  lemma HolidaysOnlyDelay(date: Date, holidays: seq<Date>)
    ensures DayNumber(FirstWeekdayFrom(date)) <= DayNumber(NextWorkingDay(date, holidays))
  {
    NextWorkingDayFacts(date, holidays);
    FirstWeekdayFromFacts(date);
  }

  /** `getNextWorkingDay`: step a day at a time while on a day that is not a working day. */
  method GetNextWorkingDay(date: Date, holidays: seq<Date>) returns (current: Date)
    ensures current == NextWorkingDay(date, holidays)
    ensures IsWorkingDay(current, holidays) && DayNumber(current) >= DayNumber(date)
    ensures forall k :: 0 <= k < DayNumber(current) - DayNumber(date) ==> !IsWorkingDay(AddDays(date, k), holidays)
  {
    current := date;
    while !IsWorkingDay(current, holidays)
      invariant NextWorkingDay(current, holidays) == NextWorkingDay(date, holidays)
      decreases SearchPhase(current, holidays), SearchDistance(current, holidays)
    {
      SearchStep(current, holidays);
      current := AddDays(current, 1);
    }
    NextWorkingDayFacts(date, holidays);
  }

  // ---------------------------------------------------- weekend shifts

  /** `getPreviousFriday`: Sunday goes back two days, Saturday one, any other day stays. */
  function GetPreviousFriday(date: Date): Date {
    if Weekday(date) == 0 then AddDays(date, -2)
    else if Weekday(date) == 6 then AddDays(date, -1)
    else date
  }

  /** The result is the last weekday on or before `date`: a weekend day
      goes to the Friday before it, a weekday stays. */
  lemma GetPreviousFridayFacts(date: Date)
    ensures var r := GetPreviousFriday(date);
      !IsWeekend(r) && DayNumber(date) - 2 <= DayNumber(r) <= DayNumber(date)
      && (forall k :: DayNumber(r) - DayNumber(date) < k <= 0 ==> IsWeekend(AddDays(date, k)))
    ensures IsWeekend(date) ==> Weekday(GetPreviousFriday(date)) == 5
    ensures !IsWeekend(date) ==> GetPreviousFriday(date) == date
  {
    var r := GetPreviousFriday(date);
    if Weekday(date) == 0 {
      AddDaysNumber(date, -2);
      WeekdayAddDays(date, -2);
      WeekdayAddDays(date, -1);
      assert (0 - 2) % 7 == 5 && (0 - 1) % 7 == 6;
    } else if Weekday(date) == 6 {
      AddDaysNumber(date, -1);
      WeekdayAddDays(date, -1);
    }
  }

  /** A second shift changes nothing. */
  lemma GetPreviousFridayIdempotent(date: Date)
    ensures GetPreviousFriday(GetPreviousFriday(date)) == GetPreviousFriday(date)
  {
    GetPreviousFridayFacts(date);
    GetPreviousFridayFacts(GetPreviousFriday(date));
  }

  /** date-fns `nextMonday`: the days to the next Monday, a full week when
      `date` is itself a Monday. */
  function NextMonday(date: Date): Date {
    var delta := 1 - Weekday(date);
    AddDays(date, if delta <= 0 then delta + 7 else delta)
  }

  /** The result is the first Monday strictly after `date`. */
  lemma NextMondayFacts(date: Date)
    ensures var r := NextMonday(date);
      Weekday(r) == 1 && DayNumber(date) < DayNumber(r) <= DayNumber(date) + 7
      && (forall k :: 0 < k < DayNumber(r) - DayNumber(date) ==> Weekday(AddDays(date, k)) != 1)
    ensures Weekday(date) == 6 ==> DayNumber(NextMonday(date)) == DayNumber(date) + 2
    ensures Weekday(date) == 0 ==> DayNumber(NextMonday(date)) == DayNumber(date) + 1
  {
    var w := Weekday(date);
    var n := if 1 - w <= 0 then 8 - w else 1 - w;
    AddDaysNumber(date, n);
    WeekdayAddDays(date, n);
    Mod7Small(w + n);
    forall k | 0 < k < n ensures Weekday(AddDays(date, k)) != 1 {
      WeekdayAddDays(date, k);
      Mod7Small(w + k);
    }
  }

  lemma Mod7Small(x: int)
    requires 0 <= x < 14
    ensures x % 7 == if x < 7 then x else x - 7
  {
  }

  /** `startOfMonth`. */
  function StartOfMonth(date: Date): (r: Date)
    ensures r.year == date.year && r.month == date.month && r.day == 1
  {
    CivilDate(date.year, date.month, 1)
  }

  // ------------------------------------------------- calculateEventDate

  /** `calculateEventDate`. A specific-day rule without `dayOfMonth` has no
      date: `new Date(year, month, undefined)` is an invalid date, which
      `previous-friday` and `no-shift` return as is and on which
      `next-working-day` throws, since `isWorkingDay` formats it. `None`
      stands for both outcomes. */
  function CalculateEventDate(year: int, month: int, rule: EventRule, holidays: seq<Date>): Option<Date> {
    match rule.kind
    case FirstWorkingDayRule =>
      Some(NextWorkingDay(StartOfMonth(MakeDate(year, month, 1)), holidays))
    case SpecificDayRule =>
      if rule.dayOfMonth.None? then None
      else
        var base := MakeDate(year, month, rule.dayOfMonth.value);
        (match rule.weekendBehavior
         case ShiftNextWorkingDay =>
           Some(if IsWeekend(base) then NextMonday(base) else NextWorkingDay(base, holidays))
         case ShiftPreviousFriday =>
           Some(if IsWeekend(base) then GetPreviousFriday(base) else base)
         case NoShift =>
           Some(base))
    case _ =>
      Some(MakeDate(year, month, 1))
  }

  /** A first-working-day rule gives the first working day of the month,
      counted from its 1st; without holidays that is the 1st, 2nd or 3rd. */
  lemma FirstWorkingDayRuleDate(year: int, month: int, rule: EventRule, holidays: seq<Date>)
    requires 0 <= month < 12 && rule.kind == FirstWorkingDayRule
    ensures var first := CivilDate(FullYear(year), month, 1);
      CalculateEventDate(year, month, rule, holidays) == Some(NextWorkingDay(first, holidays))
    ensures var r := CalculateEventDate(year, month, rule, []).value;
      r.year == FullYear(year) && r.month == month && 1 <= r.day <= 3 && !IsWeekend(r)
  {
    var first := CivilDate(FullYear(year), month, 1);
    MakeDateInRange(year, month, 1);
    NextWorkingDayWithoutHolidays(first);
    FirstWeekdayFromFacts(first);
    AddDaysWithinMonth(first, WeekendRun(first));
  }

  /** A specific-day rule starts from that day of the month (rolled over
      as `new Date` rolls it); a weekend day moves to the next Monday or
      the previous Friday, whatever the holidays, and other days either
      stay or, under next-working-day, move past holidays. */
  lemma SpecificDayRuleDate(year: int, month: int, rule: EventRule, holidays: seq<Date>)
    requires rule.kind == SpecificDayRule && rule.dayOfMonth.Some?
    ensures var base := MakeDate(year, month, rule.dayOfMonth.value);
      var r := CalculateEventDate(year, month, rule, holidays);
      r.Some?
      && (rule.weekendBehavior == NoShift ==> r.value == base)
      && (rule.weekendBehavior == ShiftPreviousFriday ==> r.value == GetPreviousFriday(base))
      && (rule.weekendBehavior == ShiftNextWorkingDay && IsWeekend(base) ==> r.value == NextMonday(base))
      && (rule.weekendBehavior == ShiftNextWorkingDay && !IsWeekend(base) ==> r.value == NextWorkingDay(base, holidays))
  {
    GetPreviousFridayFacts(MakeDate(year, month, rule.dayOfMonth.value));
  }

  /** A specific-day rule without a day of the month gives no date. */
  lemma MissingDayGivesNoDate(year: int, month: int, rule: EventRule, holidays: seq<Date>)
    ensures CalculateEventDate(year, month, rule, holidays).None? <==>
      rule.kind == SpecificDayRule && rule.dayOfMonth.None?
  {
  }

  /** Nth-day and custom rules fall through to the 1st of the month. */
  lemma OtherRulesGiveTheFirst(year: int, month: int, rule: EventRule, holidays: seq<Date>)
    requires 0 <= month < 12
    requires rule.kind == NthDayRule || rule.kind == CustomRule
    ensures CalculateEventDate(year, month, rule, holidays) == Some(CivilDate(FullYear(year), month, 1))
  {
    MakeDateInRange(year, month, 1);
  }

  /** Every rule that shifts lands on a weekday, whatever the holidays. */
  lemma ShiftedDatesAreWeekdays(year: int, month: int, rule: EventRule, holidays: seq<Date>)
    requires rule.kind == FirstWorkingDayRule
      || (rule.kind == SpecificDayRule && rule.weekendBehavior != NoShift)
    requires CalculateEventDate(year, month, rule, holidays).Some?
    ensures !IsWeekend(CalculateEventDate(year, month, rule, holidays).value)
  {
    if rule.kind == FirstWorkingDayRule {
      NextWorkingDayFacts(StartOfMonth(MakeDate(year, month, 1)), holidays);
    } else {
      var base := MakeDate(year, month, rule.dayOfMonth.value);
      SpecificDayRuleDate(year, month, rule, holidays);
      GetPreviousFridayFacts(base);
      NextMondayFacts(base);
      NextWorkingDayFacts(base, holidays);
    }
  }

  /** Without holidays, next-working-day leaves a weekday alone. */
  lemma NextWorkingDayKeepsWeekdays(year: int, month: int, rule: EventRule)
    requires rule.kind == SpecificDayRule && rule.dayOfMonth.Some?
    requires rule.weekendBehavior == ShiftNextWorkingDay
    requires !IsWeekend(MakeDate(year, month, rule.dayOfMonth.value))
    ensures CalculateEventDate(year, month, rule, []) == Some(MakeDate(year, month, rule.dayOfMonth.value))
  {
    NextWorkingDayFacts(MakeDate(year, month, rule.dayOfMonth.value), []);
  }

  /** Holidays matter only to first-working-day rules and to weekdays under
      next-working-day; every other date is the same with or without them. */
  lemma HolidaysIgnored(year: int, month: int, rule: EventRule, holidays: seq<Date>)
    requires rule.kind != FirstWorkingDayRule
    requires rule.kind == SpecificDayRule && rule.dayOfMonth.Some? && rule.weekendBehavior == ShiftNextWorkingDay
      ==> IsWeekend(MakeDate(year, month, rule.dayOfMonth.value))
    ensures CalculateEventDate(year, month, rule, holidays) == CalculateEventDate(year, month, rule, [])
  {
  }
}
