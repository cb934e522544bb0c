/**
 * The date-fns `format` patterns the calendar prints dates with, on the
 * en-US locale: `yyyy` (the era year, zero-padded to four digits), `MM` and
 * `dd` (zero-padded month 1-12 and day), `MMMM` (the month's name) and
 * `EEEE` (the weekday's name). `yyyyMMdd` is the iCalendar DATE value and
 * `yyyy-MM-dd` the CSV date and the holiday comparison key.
 */
module DateFormat {
  import opened Wrappers
  import opened Text
  import opened Calendar

  /** The year date-fns prints: years before 1 count back from 1 BC, so
      year 0 prints as 1 and year -1 as 2. */
  function EraYear(y: int): (r: nat)
    ensures r >= 1
  {
    if y >= 1 then y else 1 - y
  }

  /** `yyyy`. */
  function Year4(d: Date): string {
    PadZeros(NatToString(EraYear(d.year)), 4)
  }

  /** `MM`: the month counted from 1. */
  function Month2(d: Date): string {
    PadZeros(NatToString(d.month + 1), 2)
  }

  /** `dd`. */
  function Day2(d: Date): string {
    PadZeros(NatToString(d.day), 2)
  }

  /** `format(d, "yyyyMMdd")`. */
  function CompactDate(d: Date): string {
    Year4(d) + Month2(d) + Day2(d)
  }

  /** `format(d, "yyyy-MM-dd")`. */
  function IsoDate(d: Date): string {
    Year4(d) + "-" + Month2(d) + "-" + Day2(d)
  }

  /** `format(d, "MMMM")` for month `m` (0-11). */
  function MonthName(m: int): string
    requires 0 <= m < 12
  {
    ["January", "February", "March", "April", "May", "June", "July",
     "August", "September", "October", "November", "December"][m]
  }

  /** `format(d, "EEEE")` for weekday `w` (0 = Sunday). */
  function WeekdayName(w: int): string
    requires 0 <= w < 7
  {
    ["Sunday", "Monday", "Tuesday", "Wednesday", "Thursday", "Friday", "Saturday"][w]
  }

  // ------------------------------------------------------------ reading back

  predicate AllDigits(s: string) {
    forall k :: 0 <= k < |s| ==> IsDigit(s[k])
  }

  /** The date a `yyyyMMdd` text names, if it names one. */
  function ReadCompactDate(s: string): Option<Date> {
    if |s| == 8 && AllDigits(s[..4]) && AllDigits(s[4..6]) && AllDigits(s[6..]) then
      var y := DigitsValue(s[..4]);
      var m := DigitsValue(s[4..6]) - 1;
      var day := DigitsValue(s[6..]);
      if 0 <= m < 12 && 1 <= day <= DaysInMonth(y, m) then Some(CivilDate(y, m, day)) else None
    else None
  }

  /** The date a `yyyy-MM-dd` text names, if it names one. */
  function ReadIsoDate(s: string): Option<Date> {
    if |s| == 10 && s[4] == '-' && s[7] == '-' then ReadCompactDate(s[..4] + s[5..7] + s[8..])
    else None
  }

  /** The printed year reads back as the era year; from year 1 to 9999 it
      takes exactly four digits. */
  lemma YearReadsBack(d: Date)
    ensures AllDigits(Year4(d)) && DigitsValue(Year4(d)) == EraYear(d.year)
    ensures 1 <= d.year <= 9999 ==> |Year4(d)| == 4
  {
    var n := EraYear(d.year);
    PaddedValue(n, 4);
    if 1 <= d.year <= 9999 {
      PaddedNumeral(n, 4);
    }
  }

  /** The printed month reads back as the month counted from 1, in two digits. */
  lemma MonthReadsBack(d: Date)
    ensures AllDigits(Month2(d)) && |Month2(d)| == 2 && DigitsValue(Month2(d)) == d.month + 1
  {
    var n := d.month + 1;
    assert n < 100;
    PaddedNumeral(n, 2);
    assert Month2(d) == PadZeros(NatToString(n), 2);
  }

  /** The printed day reads back as the day, in two digits. */
  lemma DayReadsBack(d: Date)
    ensures AllDigits(Day2(d)) && |Day2(d)| == 2 && DigitsValue(Day2(d)) == d.day
  {
    PaddedNumeral(d.day, 2);
  }

  lemma CompactSlices(y: string, m: string, dd: string)
    requires |y| == 4 && |m| == 2 && |dd| == 2
    ensures var s := y + m + dd; |s| == 8 && s[..4] == y && s[4..6] == m && s[6..] == dd
  {
    var s := y + m + dd;
    assert s[..4] == y;
    assert s[4..6] == m;
    assert s[6..] == dd;
  }

  /** Reading eight digits splits them as four, two and two. */
  lemma ReadCompactDigits(y: string, m: string, dd: string)
    requires |y| == 4 && |m| == 2 && |dd| == 2
    requires AllDigits(y) && AllDigits(m) && AllDigits(dd)
    ensures var mo := DigitsValue(m) - 1;
      ReadCompactDate(y + m + dd) ==
        if 0 <= mo < 12 && 1 <= DigitsValue(dd) <= DaysInMonth(DigitsValue(y), mo)
        then Some(CivilDate(DigitsValue(y), mo, DigitsValue(dd))) else None
  {
    CompactSlices(y, m, dd);
  }

  /** `yyyyMMdd` round-trips for the years it prints with four digits. */
  lemma CompactDateRoundTrip(d: Date)
    requires 1 <= d.year <= 9999
    ensures |CompactDate(d)| == 8
    ensures ReadCompactDate(CompactDate(d)) == Some(d)
  {
    YearReadsBack(d);
    MonthReadsBack(d);
    DayReadsBack(d);
    ReadCompactDigits(Year4(d), Month2(d), Day2(d));
  }

  /** A `yyyy-MM-dd` text is a `yyyyMMdd` text with two dashes put in. */
  lemma DashedDigits(y: string, m: string, dd: string)
    requires |y| == 4 && |m| == 2 && |dd| == 2
    ensures ReadIsoDate(y + "-" + m + "-" + dd) == ReadCompactDate(y + m + dd)
  {
    var s := y + "-" + m + "-" + dd;
    assert s[..4] == y && s[4] == '-' && s[5..7] == m && s[7] == '-' && s[8..] == dd;
  }

  /** `yyyy-MM-dd` round-trips for the years it prints with four digits. */
  lemma IsoDateRoundTrip(d: Date)
    requires 1 <= d.year <= 9999
    ensures |IsoDate(d)| == 10
    ensures ReadIsoDate(IsoDate(d)) == Some(d)
  {
    YearReadsBack(d);
    MonthReadsBack(d);
    DayReadsBack(d);
    DashedDigits(Year4(d), Month2(d), Day2(d));
    CompactDateRoundTrip(d);
  }

  /** Two dashed texts with two-character middle and last parts are equal
      only part by part. */
  lemma DashedParts(y: string, m: string, dd: string, y': string, m': string, dd': string)
    requires |m| == 2 && |dd| == 2 && |m'| == 2 && |dd'| == 2
    requires y + "-" + m + "-" + dd == y' + "-" + m' + "-" + dd'
    ensures y == y' && m == m' && dd == dd'
  {
    var s := y + "-" + m + "-" + dd;
    var s' := y' + "-" + m' + "-" + dd';
    var n := |s|;
    assert |y| == n - 6 == |y'|;
    assert y == s[..n - 6] == s'[..n - 6] == y';
    assert m == s[n - 5..n - 3] == s'[n - 5..n - 3] == m';
    assert dd == s[n - 2..] == s'[n - 2..] == dd';
  }

  lemma Year4Injective(a: Date, b: Date)
    requires Year4(a) == Year4(b)
    ensures EraYear(a.year) == EraYear(b.year)
  {
    YearReadsBack(a);
    YearReadsBack(b);
  }

  lemma Month2Injective(a: Date, b: Date)
    requires Month2(a) == Month2(b)
    ensures a.month == b.month
  {
    MonthReadsBack(a);
    MonthReadsBack(b);
  }

  lemma Day2Injective(a: Date, b: Date)
    requires Day2(a) == Day2(b)
    ensures a.day == b.day
  {
    DayReadsBack(a);
    DayReadsBack(b);
  }

  /** Equal `yyyy-MM-dd` texts have equal parts. */
  lemma IsoDateParts(a: Date, b: Date)
    requires IsoDate(a) == IsoDate(b)
    ensures Year4(a) == Year4(b) && Month2(a) == Month2(b) && Day2(a) == Day2(b)
  {
    MonthReadsBack(a);
    DayReadsBack(a);
    MonthReadsBack(b);
    DayReadsBack(b);
    DashedParts(Year4(a), Month2(a), Day2(a), Year4(b), Month2(b), Day2(b));
  }

  lemma IsoDateDeterminesFields(a: Date, b: Date)
    requires IsoDate(a) == IsoDate(b)
    ensures EraYear(a.year) == EraYear(b.year) && a.month == b.month && a.day == b.day
  {
    IsoDateParts(a, b);
    Year4Injective(a, b);
    Month2Injective(a, b);
    Day2Injective(a, b);
  }

  lemma FieldsDetermineIsoDate(a: Date, b: Date)
    requires EraYear(a.year) == EraYear(b.year) && a.month == b.month && a.day == b.day
    ensures IsoDate(a) == IsoDate(b)
  {
    assert Year4(a) == Year4(b) && Month2(a) == Month2(b) && Day2(a) == Day2(b);
  }

  /** Two dates print the same `yyyy-MM-dd` text exactly when their months,
      days and printed years agree. */
  lemma IsoDateFields(a: Date, b: Date)
    ensures IsoDate(a) == IsoDate(b) <==>
      EraYear(a.year) == EraYear(b.year) && a.month == b.month && a.day == b.day
  {
    if IsoDate(a) == IsoDate(b) {
      IsoDateDeterminesFields(a, b);
    } else if EraYear(a.year) == EraYear(b.year) && a.month == b.month && a.day == b.day {
      FieldsDetermineIsoDate(a, b);
    }
  }

  /** From year 1 on, comparing `yyyy-MM-dd` texts is comparing dates. */
  lemma IsoDateInjective(a: Date, b: Date)
    requires a.year >= 1 && b.year >= 1
    ensures IsoDate(a) == IsoDate(b) <==> a == b
  {
    IsoDateFields(a, b);
  }

  /** Before year 1 the printed year repeats: 1 BC (year 0) prints as year 1. */
  lemma IsoDateEraClash(a: Date, b: Date)
    requires a.year == 0 && b.year == 1 && a.month == b.month && a.day == b.day
    ensures a != b && IsoDate(a) == IsoDate(b)
  {
    IsoDateFields(a, b);
  }

  /** The names are twelve and seven different words. */
  lemma NamesDistinct(m: int, n: int)
    ensures 0 <= m < 12 && 0 <= n < 12 && m != n ==> MonthName(m) != MonthName(n)
    ensures 0 <= m < 7 && 0 <= n < 7 && m != n ==> WeekdayName(m) != WeekdayName(n)
  {
  }
}
