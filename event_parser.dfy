/**
 * lib/eventParser.ts: the free-text path the app uses. Input lines
 * "Name - rule text" are parsed into records; each record's rule is matched,
 * for every month of the year, against eight case-insensitive substring
 * tests tried in a fixed order (the first that matches decides); the matched
 * branch gives at most one date in that month; the events are collected
 * months-outer, lines-inner and then sorted by date.
 */
module EventParser {
  import opened Wrappers
  import opened Text
  import opened Calendar
  import opened CalendarTypes
  import opened EventOrder

  /** `ParsedEvent`. */
  datatype ParsedEvent = ParsedEvent(name: string, rule: string, description: string)

  // ------------------------------------------------------- parseEventsText

  /** One line: the text before the first " - " is the name, the rest (the
      further pieces joined back with " - ") the rule and the description. */
  function ParseLine(line: string): (p: ParsedEvent)
    ensures p.rule == p.description
  {
    var parts := Split(line, " - ");
    var description := Join(parts[1..], " - ");
    ParsedEvent(Trim(parts[0]), Trim(description), Trim(description))
  }

  /** `filter((line) => line.trim())`. */
  function NonBlankLines(lines: seq<string>): seq<string> {
    if lines == [] then []
    else (if Trim(lines[0]) != "" then [lines[0]] else []) + NonBlankLines(lines[1..])
  }

  /** `map(parseLine)`. */
  function ParseLines(lines: seq<string>): (r: seq<ParsedEvent>)
    ensures |r| == |lines|
  {
    if lines == [] then [] else [ParseLine(lines[0])] + ParseLines(lines[1..])
  }

  /** `parseEventsText`. */
  function ParseEventsText(text: string): seq<ParsedEvent> {
    ParseLines(NonBlankLines(Split(text, "\n")))
  }

  /** The name is the trimmed text before the first " - ", the rule the
      trimmed text after it. */
  lemma ParseLineAtSeparator(line: string, i: nat)
    requires IndexOfFrom(line, " - ", 0) == Some(i)
    ensures ParseLine(line).name == Trim(line[..i]) && ParseLine(line).rule == Trim(line[i + 3..])
  {
    var rest := line[i + 3..];
    var parts := Split(line, " - ");
    assert parts == [line[..i]] + Split(rest, " - ");
    assert parts[1..] == Split(rest, " - ");
    JoinSplit(rest, " - ");
  }

  /** With no separator the whole trimmed line is the name and the rule is empty. */
  lemma ParseLineWithoutSeparator(line: string)
    requires IndexOfFrom(line, " - ", 0).None?
    ensures ParseLine(line) == ParsedEvent(Trim(line), "", "")
  {
    var parts := Split(line, " - ");
    assert parts == [line];
    assert Join(parts[1..], " - ") == "";
    assert Trim("") == "";
  }

  lemma {:induction false} NonBlankLinesConcat(a: seq<string>, b: seq<string>)
    ensures NonBlankLines(a + b) == NonBlankLines(a) + NonBlankLines(b)
  {
    if a == [] {
      assert a + b == b;
    } else {
      var head := if Trim(a[0]) != "" then [a[0]] else [];
      assert (a + b)[0] == a[0] && (a + b)[1..] == a[1..] + b;
      assert NonBlankLines(a + b) == head + NonBlankLines(a[1..] + b);
      NonBlankLinesConcat(a[1..], b);
      assert head + (NonBlankLines(a[1..]) + NonBlankLines(b)) == (head + NonBlankLines(a[1..])) + NonBlankLines(b);
    }
  }

  /** Only lines that are not blank are kept, and nothing else. */
  lemma {:induction false} NonBlankLinesKept(lines: seq<string>)
    ensures forall x :: x in NonBlankLines(lines) ==> x in lines && Trim(x) != ""
    ensures forall x :: x in lines && Trim(x) != "" ==> x in NonBlankLines(lines)
  {
    if lines != [] {
      NonBlankLinesKept(lines[1..]);
      assert lines == [lines[0]] + lines[1..];
    }
  }

  lemma {:induction false} ParseLinesConcat(a: seq<string>, b: seq<string>)
    ensures ParseLines(a + b) == ParseLines(a) + ParseLines(b)
  {
    if a == [] {
      assert a + b == b;
    } else {
      var c := a + b;
      assert c[0] == a[0] && c[1..] == a[1..] + b;
      ParseLinesConcat(a[1..], b);
      assert ParseLines(c) == [ParseLine(a[0])] + ParseLines(a[1..] + b);
    }
  }

  /** One line of input gives one record, or none when it is blank. */
  lemma ParseSingleLine(line: string)
    requires '\n' !in line
    ensures ParseEventsText(line) == if Trim(line) == "" then [] else [ParseLine(line)]
  {
    NotContainsWithoutFirstChar(line, "\n");
    assert Split(line, "\n") == [line];
    assert NonBlankLines([line]) == (if Trim(line) != "" then [line] else []) + NonBlankLines([]);
  }

  /** Parsing works line by line: the records of two blocks of lines joined by
      a newline are the records of the first followed by those of the second. */
  lemma ParseConcat(a: string, b: string)
    ensures ParseEventsText(a + "\n" + b) == ParseEventsText(a) + ParseEventsText(b)
  {
    SplitConcat(a, b, '\n');
    assert a + "\n" + b == a + ['\n'] + b;
    NonBlankLinesConcat(Split(a, "\n"), Split(b, "\n"));
    ParseLinesConcat(NonBlankLines(Split(a, "\n")), NonBlankLines(Split(b, "\n")));
  }

  lemma TrimChars(s: string)
    ensures forall c :: c in Trim(s) ==> c in s
  {
    TrimIsSlice(s);
  }

  /** A record's name and rule are cut from its line. */
  lemma ParseLineChars(line: string)
    ensures forall c :: c in ParseLine(line).name ==> c in line
    ensures forall c :: c in ParseLine(line).rule ==> c in line
  {
    var r := IndexOfFrom(line, " - ", 0);
    if r.Some? {
      ParseLineAtSeparator(line, r.value);
      TrimChars(line[..r.value]);
      TrimChars(line[r.value + 3..]);
    } else {
      ParseLineWithoutSeparator(line);
      TrimChars(line);
    }
  }

  lemma {:induction false} ParseLinesChars(lines: seq<string>, c: char)
    requires forall x :: x in lines ==> c !in x
    ensures forall p :: p in ParseLines(lines) ==> c !in p.name && c !in p.rule
  {
    if lines != [] {
      ParseLineChars(lines[0]);
      ParseLinesChars(lines[1..], c);
    }
  }

  /** Records carry no newline: names and rules are cut from single lines. */
  lemma ParsedFieldsSingleLine(text: string)
    ensures forall p :: p in ParseEventsText(text) ==> '\n' !in p.name && '\n' !in p.rule
  {
    var lines := Split(text, "\n");
    SplitPiecesLackSeparator(text, "\n");
    var kept := NonBlankLines(lines);
    NonBlankLinesKept(lines);
    forall x | x in kept ensures '\n' !in x {
      var j :| 0 <= j < |lines| && lines[j] == x;
      CharNotContained(x, '\n');
    }
    ParseLinesChars(kept, '\n');
  }

  // ------------------------------------------------------ weekend helpers

  /** `setDate(getDate() + k)` moves the day number by `k` and the weekday by `k` modulo 7. */
  lemma ShiftFacts(d: Date, k: int)
    ensures DayNumber(SetDate(d, d.day + k)) == DayNumber(d) + k
    ensures Weekday(SetDate(d, d.day + k)) == (Weekday(d) + k) % 7
  {
    SetDateShift(d, k);
    WeekdayAddDays(d, k);
    AddDaysNumber(d, k);
  }

  /** `getPreviousFriday`: two days back from a Sunday, one day back from any other day. */
  function GetPreviousFriday(date: Date): Date {
    SetDate(date, date.day - (if Weekday(date) == 0 then 2 else 1))
  }

  /** So a weekend day goes to the Friday just before it, and any other day
      to the day before. */
  lemma GetPreviousFridayFacts(date: Date)
    ensures IsWeekend(date) ==>
      (Weekday(GetPreviousFriday(date)) == 5
       && DayNumber(date) - 2 <= DayNumber(GetPreviousFriday(date)) < DayNumber(date))
    ensures !IsWeekend(date) ==> DayNumber(GetPreviousFriday(date)) == DayNumber(date) - 1
  {
    var back := if Weekday(date) == 0 then 2 else 1;
    var r := GetPreviousFriday(date);
    assert r == SetDate(date, date.day + -back);
    ShiftFacts(date, -back);
    assert Weekday(r) == (Weekday(date) - back) % 7;
    if Weekday(date) == 0 {
      assert (0 - 2) % 7 == 5;
    } else if Weekday(date) == 6 {
      assert (6 - 1) % 7 == 5;
    }
  }

  /** `getNextMonday`: one day on from a Sunday, two days on from any other day. */
  function GetNextMonday(date: Date): Date {
    SetDate(date, date.day + (if Weekday(date) == 0 then 1 else 2))
  }

  /** So a weekend day goes to the Monday just after it, and any other day
      two days on. */
  lemma GetNextMondayFacts(date: Date)
    ensures IsWeekend(date) ==>
      (Weekday(GetNextMonday(date)) == 1
       && DayNumber(date) < DayNumber(GetNextMonday(date)) <= DayNumber(date) + 2)
    ensures !IsWeekend(date) ==> DayNumber(GetNextMonday(date)) == DayNumber(date) + 2
  {
    var ahead := if Weekday(date) == 0 then 1 else 2;
    var r := GetNextMonday(date);
    assert r == SetDate(date, date.day + ahead);
    ShiftFacts(date, ahead);
    assert Weekday(r) == (Weekday(date) + ahead) % 7;
    if Weekday(date) == 0 {
      assert (0 + 1) % 7 == 1;
    } else if Weekday(date) == 6 {
      assert (6 + 2) % 7 == 1;
    }
  }

  /** What `getNextWorkingDay` computes: the first non-weekend day strictly after `date`. */
  function NextWeekdayAfter(date: Date): Date {
    FirstWeekdayFrom(NextDay(date))
  }

  lemma NextWeekdayAfterFacts(date: Date)
    ensures !IsWeekend(NextWeekdayAfter(date))
    ensures DayNumber(date) < DayNumber(NextWeekdayAfter(date)) <= DayNumber(date) + 3
    ensures forall k :: 0 < k < DayNumber(NextWeekdayAfter(date)) - DayNumber(date) ==>
      IsWeekend(AddDays(date, k))
  {
    var next := NextDay(date);
    NextDayNumber(date);
    FirstWeekdayFromFacts(next);
    forall k | 0 < k < DayNumber(NextWeekdayAfter(date)) - DayNumber(date)
      ensures IsWeekend(AddDays(date, k))
    {
      assert AddDays(date, k) == AddDays(next, k - 1);
    }
  }

  /** `getNextWorkingDay`: step one day, then keep stepping while on a weekend. */
  method GetNextWorkingDay(date: Date) returns (next: Date)
    ensures next == NextWeekdayAfter(date)
    ensures !IsWeekend(next)
    ensures DayNumber(date) < DayNumber(next) <= DayNumber(date) + 3
    ensures forall k :: 0 < k < DayNumber(next) - DayNumber(date) ==> IsWeekend(AddDays(date, k))
  {
    SetDateNext(date);
    next := SetDate(date, date.day + 1);
    while IsWeekend(next)
      invariant FirstWeekdayFrom(next) == NextWeekdayAfter(date)
      decreases WeekendRun(next)
    {
      FirstWeekdayFromStep(next);
      SetDateNext(next);
      next := SetDate(next, next.day + 1);
    }
    NextWeekdayAfterFacts(date);
  }

  /** What `getFirstWorkingDay` computes: the first non-weekend day on or
      after the first of the month. */
  function FirstWorkingDay(year: int, month: int): Date {
    FirstWeekdayFrom(MakeDate(year, month, 1))
  }

  /** The first working day of a month is its 1st, 2nd or 3rd, not a weekend
      day, and every day of the month before it is a weekend day. */
  lemma FirstWorkingDayFacts(year: int, month: int)
    requires 0 <= month < 12
    ensures var r := FirstWorkingDay(year, month);
      r.year == FullYear(year) && r.month == month && 1 <= r.day <= 3 && !IsWeekend(r)
      && forall day :: 1 <= day < r.day ==> IsWeekend(CivilDate(FullYear(year), month, day))
  {
    var first := MakeDate(year, month, 1);
    MakeDateInRange(year, month, 1);
    FirstWeekdayFromFacts(first);
    AddDaysWithinMonth(first, WeekendRun(first));
    forall day | 1 <= day < FirstWorkingDay(year, month).day
      ensures IsWeekend(CivilDate(FullYear(year), month, day))
    {
      AddDaysWithinMonth(first, day - 1);
    }
  }

  /** `getFirstWorkingDay`: from the first of the month, step forward while
      on a weekend. */
  method GetFirstWorkingDay(year: int, month: int) returns (date: Date)
    ensures date == FirstWorkingDay(year, month)
    ensures !IsWeekend(date)
  {
    date := MakeDate(year, month, 1);
    while IsWeekend(date)
      invariant FirstWeekdayFrom(date) == FirstWorkingDay(year, month)
      decreases WeekendRun(date)
    {
      FirstWeekdayFromStep(date);
      SetDateNext(date);
      date := SetDate(date, date.day + 1);
    }
  }

  // ---------------------------------------------------- calculateEventDate

  /** The eight tests of `calculateEventDate`, in the order they are tried. */
  datatype RuleBranch =
    | FirstWorkingDayBranch
    | FirstOfMonthBranch
    | SecondOfMonthBranch
    | NinthBranch
    | TwelfthBranch
    | ThirteenthBranch
    | FifteenthBranch
    | NineteenthBranch

  function Precedence(b: RuleBranch): nat {
    match b
    case FirstWorkingDayBranch => 1
    case FirstOfMonthBranch => 2
    case SecondOfMonthBranch => 3
    case NinthBranch => 4
    case TwelfthBranch => 5
    case ThirteenthBranch => 6
    case FifteenthBranch => 7
    case NineteenthBranch => 8
  }

  /** The substring test of each branch on the lower-cased rule. */
  predicate Matches(b: RuleBranch, lower: string) {
    match b
    case FirstWorkingDayBranch => Contains(lower, "first working day")
    case FirstOfMonthBranch => Contains(lower, "first of") || Contains(lower, "1st of")
    case SecondOfMonthBranch => Contains(lower, "2nd of")
    case NinthBranch => Contains(lower, "9th") && Contains(lower, "previous friday")
    case TwelfthBranch => Contains(lower, "12th") && Contains(lower, "next monday")
    case ThirteenthBranch => Contains(lower, "13th") && Contains(lower, "next working day")
    case FifteenthBranch => Contains(lower, "15th")
    case NineteenthBranch => Contains(lower, "19th")
  }

  /** The if-chain: the first branch, in precedence order, whose test holds. */
  function FirstMatch(lower: string): (r: Option<RuleBranch>)
  {
    if Matches(FirstWorkingDayBranch, lower) then Some(FirstWorkingDayBranch)
    else if Matches(FirstOfMonthBranch, lower) then Some(FirstOfMonthBranch)
    else if Matches(SecondOfMonthBranch, lower) then Some(SecondOfMonthBranch)
    else if Matches(NinthBranch, lower) then Some(NinthBranch)
    else if Matches(TwelfthBranch, lower) then Some(TwelfthBranch)
    else if Matches(ThirteenthBranch, lower) then Some(ThirteenthBranch)
    else if Matches(FifteenthBranch, lower) then Some(FifteenthBranch)
    else if Matches(NineteenthBranch, lower) then Some(NineteenthBranch)
    else None
  }

  /** First match wins: `None` exactly when no test holds; otherwise the
      chosen branch's test holds and no test tried before it does. */
  lemma FirstMatchSpec(lower: string)
    ensures FirstMatch(lower).None? <==> forall b :: !Matches(b, lower)
    ensures FirstMatch(lower).Some? ==> Matches(FirstMatch(lower).value, lower)
    ensures FirstMatch(lower).Some? ==>
      forall b :: Precedence(b) < Precedence(FirstMatch(lower).value) ==> !Matches(b, lower)
  {
  }

  /** The date each branch returns. */
  function BranchDate(b: RuleBranch, year: int, month: int): Date {
    match b
    case FirstWorkingDayBranch => FirstWorkingDay(year, month)
    case FirstOfMonthBranch => MakeDate(year, month, 1)
    case SecondOfMonthBranch => MakeDate(year, month, 2)
    case NinthBranch =>
      var date := MakeDate(year, month, 9);
      if IsWeekend(date) then GetPreviousFriday(date) else date
    case TwelfthBranch =>
      var date := MakeDate(year, month, 12);
      if IsWeekend(date) then GetNextMonday(date) else date
    case ThirteenthBranch =>
      var date := MakeDate(year, month, 13);
      if IsWeekend(date) then NextWeekdayAfter(date) else date
    case FifteenthBranch => MakeDate(year, month, 15)
    case NineteenthBranch => MakeDate(year, month, 19)
  }

  /** `calculateEventDate(rule, year, month)`; `None` is `null`. */
  function CalculateEventDate(rule: string, year: int, month: int): Option<Date> {
    match FirstMatch(ToLower(rule))
    case None => None
    case Some(b) => Some(BranchDate(b, year, month))
  }

  /** The 9th, moved back to the Friday before when it falls on a weekend. */
  lemma NinthBranchFacts(year: int, month: int)
    requires 0 <= month < 12
    ensures var r := BranchDate(NinthBranch, year, month);
      r.year == FullYear(year) && r.month == month
      && if IsWeekend(CivilDate(FullYear(year), month, 9)) then 7 <= r.day <= 8 && Weekday(r) == 5 else r.day == 9
  {
    MakeDateInRange(year, month, 9);
    var date: Date := CivilDate(FullYear(year), month, 9);
    if IsWeekend(date) {
      GetPreviousFridayFacts(date);
      AddDaysWithinMonth(date, if Weekday(date) == 0 then -2 else -1);
    }
  }

  /** The 12th, moved on to the Monday after when it falls on a weekend. */
  lemma TwelfthBranchFacts(year: int, month: int)
    requires 0 <= month < 12
    ensures var r := BranchDate(TwelfthBranch, year, month);
      r.year == FullYear(year) && r.month == month
      && if IsWeekend(CivilDate(FullYear(year), month, 12)) then 13 <= r.day <= 14 && Weekday(r) == 1 else r.day == 12
  {
    MakeDateInRange(year, month, 12);
    var date: Date := CivilDate(FullYear(year), month, 12);
    if IsWeekend(date) {
      GetNextMondayFacts(date);
      AddDaysWithinMonth(date, if Weekday(date) == 0 then 1 else 2);
    }
  }

  /** The 13th, moved on to the next working day when it falls on a weekend. */
  lemma ThirteenthBranchFacts(year: int, month: int)
    requires 0 <= month < 12
    ensures var r := BranchDate(ThirteenthBranch, year, month);
      r.year == FullYear(year) && r.month == month
      && if IsWeekend(CivilDate(FullYear(year), month, 13)) then 14 <= r.day <= 15 && Weekday(r) == 1 else r.day == 13
  {
    MakeDateInRange(year, month, 13);
    var date: Date := CivilDate(FullYear(year), month, 13);
    if IsWeekend(date) {
      WeekendNextWeekday(date);
    }
  }

  /** From a weekend day with two more days left in its month, the next
      weekday is the Monday one or two days on. */
  lemma WeekendNextWeekday(date: Date)
    requires IsWeekend(date) && date.day + 2 <= DaysInMonth(date.year, date.month)
    ensures var r := NextWeekdayAfter(date);
      r == CivilDate(date.year, date.month, date.day + if Weekday(date) == 0 then 1 else 2)
      && Weekday(r) == 1
  {
    var next := NextWeekdayAfter(date);
    var n := if Weekday(date) == 0 then 1 else 2;
    NextDayNumber(date);
    FirstWeekdayFromFacts(NextDay(date));
    WeekdayNextDay(date);
    assert DayNumber(next) == DayNumber(date) + n;
    AddDaysWithinMonth(date, n);
    AddDaysNumber(date, n);
    DayNumberInjective(AddDays(date, n), next);
    WeekdayAddDays(date, n);
  }

  /** The day each branch lands on, inside the requested month. */
  lemma BranchDateFacts(b: RuleBranch, year: int, month: int)
    requires 0 <= month < 12
    ensures var r := BranchDate(b, year, month);
      r.year == FullYear(year) && r.month == month && 1 <= r.day <= 19
    ensures var r := BranchDate(b, year, month);
      match b
      case FirstWorkingDayBranch => r == FirstWorkingDay(year, month)
      case FirstOfMonthBranch => r.day == 1
      case SecondOfMonthBranch => r.day == 2
      case NinthBranch =>
        if IsWeekend(CivilDate(FullYear(year), month, 9)) then 7 <= r.day <= 8 && Weekday(r) == 5 else r.day == 9
      case TwelfthBranch =>
        if IsWeekend(CivilDate(FullYear(year), month, 12)) then 13 <= r.day <= 14 && Weekday(r) == 1 else r.day == 12
      case ThirteenthBranch =>
        if IsWeekend(CivilDate(FullYear(year), month, 13)) then 14 <= r.day <= 15 && Weekday(r) == 1 else r.day == 13
      case FifteenthBranch => r.day == 15
      case NineteenthBranch => r.day == 19
  {
    match b
    case FirstWorkingDayBranch => FirstWorkingDayFacts(year, month);
    case FirstOfMonthBranch => MakeDateInRange(year, month, 1);
    case SecondOfMonthBranch => MakeDateInRange(year, month, 2);
    case NinthBranch => NinthBranchFacts(year, month);
    case TwelfthBranch => TwelfthBranchFacts(year, month);
    case ThirteenthBranch => ThirteenthBranchFacts(year, month);
    case FifteenthBranch => MakeDateInRange(year, month, 15);
    case NineteenthBranch => MakeDateInRange(year, month, 19);
  }

  /** Every date `calculateEventDate` returns lies in the requested month,
      on day 1 to 19. */
  lemma CalculateEventDateInMonth(rule: string, year: int, month: int)
    requires 0 <= month < 12
    ensures var r := CalculateEventDate(rule, year, month);
      r.Some? ==> r.value.year == FullYear(year) && r.value.month == month && 1 <= r.value.day <= 19
  {
    var m := FirstMatch(ToLower(rule));
    if m.Some? {
      BranchDateFacts(m.value, year, month);
    }
  }

  /** The three weekend-shifting branches and the first-working-day branch
      never return a weekend day. */
  lemma ShiftingBranchesAvoidWeekends(rule: string, year: int, month: int)
    requires 0 <= month < 12
    requires FirstMatch(ToLower(rule)) in
      {Some(FirstWorkingDayBranch), Some(NinthBranch), Some(TwelfthBranch), Some(ThirteenthBranch)}
    ensures CalculateEventDate(rule, year, month).Some?
    ensures !IsWeekend(CalculateEventDate(rule, year, month).value)
  {
    var b := FirstMatch(ToLower(rule)).value;
    BranchDateFacts(b, year, month);
    if b == FirstWorkingDayBranch {
      FirstWorkingDayFacts(year, month);
    }
  }

  /** An empty rule (a line without " - ") matches nothing. */
  lemma EmptyRuleHasNoDate(year: int, month: int)
    ensures CalculateEventDate("", year, month) == None
  {
    assert ToLower("") == "";
    NotContainsAll("");
  }

  /** A lower-cased rule with none of the characters 'i', '1', '2', '9' passes
      none of the eight tests. */
  lemma NoMatchWithoutKeyChars(lower: string)
    requires 'i' !in lower && '1' !in lower && '2' !in lower && '9' !in lower
    ensures FirstMatch(lower) == None
  {
    NotContainsCharAbsent(lower, "first working day", 1);
    NotContainsCharAbsent(lower, "first of", 1);
    NotContainsCharAbsent(lower, "1st of", 0);
    NotContainsCharAbsent(lower, "2nd of", 0);
    NotContainsCharAbsent(lower, "9th", 0);
    NotContainsCharAbsent(lower, "12th", 0);
    NotContainsCharAbsent(lower, "13th", 0);
    NotContainsCharAbsent(lower, "15th", 0);
    NotContainsCharAbsent(lower, "19th", 0);
  }

  /** "19th" contains "9th": a rule naming the 19th and "previous friday" is
      taken by the 9th-of-month branch (or an earlier one), never by the
      19th-of-month branch. */
  lemma NineteenthShadowedByNinth(lower: string)
    requires Contains(lower, "19th") && Contains(lower, "previous friday")
    ensures FirstMatch(lower).Some?
    ensures Precedence(FirstMatch(lower).value) <= Precedence(NinthBranch)
  {
    ContainsIff(lower, "19th");
    var i := IndexOfFrom(lower, "19th", 0).value;
    assert lower[i + 1..i + 4] == lower[i..i + 4][1..];
    ContainsAt(lower, "9th", i + 1);
    FirstMatchSpec(lower);
    assert Matches(NinthBranch, lower);
  }

  /** Lower-casing a rule with one capital at position 8 and only lower-case
      letters, digits and spaces elsewhere, as "31st of December" and
      "15th of June" are. */
  lemma LowerDefaultRule(rule: string)
    requires |rule| > 8 && 'A' <= rule[8] <= 'Z'
    requires forall k :: 0 <= k < |rule| && k != 8 ==> 'a' <= rule[k] <= 'z' || '0' <= rule[k] <= '9' || rule[k] == ' '
    ensures ToLower(rule) == rule[..8] + [(rule[8] as int + 32) as char] + rule[9..]
  {
    var a, b := rule[..8], rule[9..];
    assert rule == a + [rule[8]] + b;
    forall k | 0 <= k < |a| ensures !ChangesCase(a[k]) {
      assert a[k] == rule[k];
    }
    forall k | 0 <= k < |b| ensures !ChangesCase(b[k]) {
      assert b[k] == rule[k + 9];
    }
    ToLowerOneCapital(a, rule[8], b);
  }

  /** A rule none of whose characters lowers to 'i', '1', '2' or '9' passes
      no test and gives nothing, whatever its case. */
  lemma RuleWithoutKeyCharsGivesNothing(rule: string, year: int, month: int)
    requires forall k :: 0 <= k < |rule| ==>
      'i' !in LowerChar(rule[k]) && '1' !in LowerChar(rule[k]) && '2' !in LowerChar(rule[k]) && '9' !in LowerChar(rule[k])
    ensures CalculateEventDate(rule, year, month) == None
  {
    ToLowerAvoids(rule, 'i');
    ToLowerAvoids(rule, '1');
    ToLowerAvoids(rule, '2');
    ToLowerAvoids(rule, '9');
    NoMatchWithoutKeyChars(ToLower(rule));
  }

  /** "Q1 Financial Review - 30th of March" and its June and September
      siblings in the default input give no date in any month. */
  lemma QuarterReviewRulesGiveNothing(rule: string, year: int, month: int)
    requires rule == "30th of March" || rule == "30th of June" || rule == "30th of September"
    ensures CalculateEventDate(rule, year, month) == None
  {
    RuleWithoutKeyCharsGivesNothing(rule, year, month);
  }

  /** A lower-cased rule with none of the characters 'f', '1', '2', '9' passes
      none of the eight tests. */
  lemma NoMatchWithoutFOrDigits(lower: string)
    requires 'f' !in lower && '1' !in lower && '2' !in lower && '9' !in lower
    ensures FirstMatch(lower) == None
  {
    NotContainsCharAbsent(lower, "first working day", 0);
    NotContainsCharAbsent(lower, "first of", 0);
    NotContainsCharAbsent(lower, "1st of", 0);
    NotContainsCharAbsent(lower, "2nd of", 0);
    NotContainsCharAbsent(lower, "9th", 0);
    NotContainsCharAbsent(lower, "12th", 0);
    NotContainsCharAbsent(lower, "13th", 0);
    NotContainsCharAbsent(lower, "15th", 0);
    NotContainsCharAbsent(lower, "19th", 0);
  }

  /** A rule of lower-case words without an 'f' gives nothing in any month. */
  lemma LowerWordsWithoutFGiveNothing(rule: string, year: int, month: int)
    requires forall k :: 0 <= k < |rule| ==> ('a' <= rule[k] <= 'z' && rule[k] != 'f') || rule[k] == ' '
    ensures CalculateEventDate(rule, year, month) == None
  {
    ToLowerFixed(rule);
    FreeOfIff(rule, 'f');
    FreeOfIff(rule, '1');
    FreeOfIff(rule, '2');
    FreeOfIff(rule, '9');
    NoMatchWithoutFOrDigits(rule);
  }

  /** Rule texts outside the eight patterns, such as "quarterly", "every day
      except weekends" or "something unintelligible", give no event in any
      month. */
  lemma UnrecognisedRulesGiveNothing(rule: string, year: int, month: int)
    requires rule == "quarterly" || rule == "every day except weekends" || rule == "something unintelligible"
    ensures CalculateEventDate(rule, year, month) == None
  {
    LowerWordsWithoutFGiveNothing(rule, year, month);
  }

  /** "Year-End Close - 31st of December" contains "1st of", so it gives the
      1st of every month rather than December 31. */
  lemma YearEndCloseRuleGivesFirsts(rule: string, year: int, month: int)
    requires rule == "31st of December"
    requires 0 <= month < 12
    ensures CalculateEventDate(rule, year, month).Some?
    ensures CalculateEventDate(rule, year, month).value == CivilDate(FullYear(year), month, 1)
  {
    LowerDefaultRule(rule);
    YearEndCloseBranch(ToLower(rule));
    MakeDateInRange(year, month, 1);
  }

  lemma YearEndCloseBranch(lower: string)
    requires lower == "31st of december"
    ensures FirstMatch(lower) == Some(FirstOfMonthBranch)
  {
    assert !Matches(FirstWorkingDayBranch, lower) by {
      NotContainsCharAbsent(lower, "first working day", 1);
    }
    assert Matches(FirstOfMonthBranch, lower) by {
      assert OccursAt(lower, "1st of", 1);
      ContainsAt(lower, "1st of", 1);
    }
  }

  /** A rule lacking the characters 'i', 's', '2', '3' and '9' but holding
      "15th" passes only the 15th-of-month test among the first seven. */
  lemma FifteenthWithoutOtherKeys(lower: string)
    requires 'i' !in lower && 's' !in lower && '2' !in lower && '3' !in lower && '9' !in lower
    requires Contains(lower, "15th")
    ensures FirstMatch(lower) == Some(FifteenthBranch)
  {
    NotContainsCharAbsent(lower, "first working day", 1);
    NotContainsCharAbsent(lower, "first of", 1);
    NotContainsCharAbsent(lower, "1st of", 1);
    NotContainsCharAbsent(lower, "2nd of", 0);
    NotContainsCharAbsent(lower, "9th", 0);
    NotContainsCharAbsent(lower, "12th", 1);
    NotContainsCharAbsent(lower, "13th", 1);
  }

  lemma MidYearReviewBranch(lower: string)
    requires lower == "15th of june"
    ensures FirstMatch(lower) == Some(FifteenthBranch)
  {
    assert OccursAt(lower, "15th", 0);
    ContainsAt(lower, "15th", 0);
    FifteenthWithoutOtherKeys(lower);
  }

  /** "Mid-Year Review - 15th of June" gives the 15th of every month. */
  lemma MidYearReviewRuleGivesFifteenths(rule: string, year: int, month: int)
    requires rule == "15th of June"
    requires 0 <= month < 12
    ensures CalculateEventDate(rule, year, month).Some?
    ensures CalculateEventDate(rule, year, month).value == CivilDate(FullYear(year), month, 15)
  {
    LowerDefaultRule(rule);
    MidYearReviewBranch(ToLower(rule));
    MakeDateInRange(year, month, 15);
  }

  /** Each of the eight patterns is absent from a string shorter than all of them. */
  lemma NotContainsAll(s: string)
    requires |s| < 3
    ensures !Contains(s, "first working day") && !Contains(s, "first of") && !Contains(s, "1st of")
      && !Contains(s, "2nd of") && !Contains(s, "previous friday") && !Contains(s, "next monday")
      && !Contains(s, "next working day") && !Contains(s, "9th") && !Contains(s, "12th")
      && !Contains(s, "13th") && !Contains(s, "15th") && !Contains(s, "19th")
  {
  }

  // ------------------------------------------------ generateCalendarEvents

  /** `${index}-${month}`. */
  function EventId(index: nat, month: nat): string {
    NatToString(index) + "-" + NatToString(month)
  }

  /** The rule-to-date calculator the assembler calls; the app's is
      `CalculateEventDate`. The year's events are stated for any calculator,
      so that what holds of the assembly is kept apart from the dates. */
  type DateRule = (string, int, int) -> Option<Date>

  /** The event line `index` contributes to `month`, if its rule gives a date. */
  function LineEvent(dateOf: DateRule, p: ParsedEvent, index: nat, year: int, month: nat): Option<CalendarEvent> {
    match dateOf(p.rule, year, month)
    case None => None
    case Some(date) => Some(CalendarEvent(EventId(index, month), p.name, date, month, year, Some(p.description)))
  }

  /** The events lines `0 .. n - 1` push for `month`, in line order. */
  function MonthEvents(dateOf: DateRule, parsed: seq<ParsedEvent>, year: int, month: nat, n: nat): seq<CalendarEvent>
    requires n <= |parsed|
  {
    if n == 0 then []
    else
      MonthEvents(dateOf, parsed, year, month, n - 1)
      + match LineEvent(dateOf, parsed[n - 1], n - 1, year, month) case None => [] case Some(e) => [e]
  }

  /** The events pushed for months `0 .. months - 1`: months outer, lines inner. */
  function PushedEvents(dateOf: DateRule, parsed: seq<ParsedEvent>, year: int, months: nat): seq<CalendarEvent>
    requires months <= 12
  {
    if months == 0 then []
    else PushedEvents(dateOf, parsed, year, months - 1) + MonthEvents(dateOf, parsed, year, months - 1, |parsed|)
  }

  /** One `parsedEvents.forEach` pass for `month`: push each line's event
      for that month, in line order. */
  method PushMonthEvents(parsed: seq<ParsedEvent>, year: int, month: nat, events: seq<CalendarEvent>)
    returns (pushed: seq<CalendarEvent>)
    ensures pushed == events + MonthEvents(CalculateEventDate, parsed, year, month, |parsed|)
  {
    pushed := events;
    for index := 0 to |parsed|
      invariant pushed == events + MonthEvents(CalculateEventDate, parsed, year, month, index)
    {
      var date := CalculateEventDate(parsed[index].rule, year, month);
      if date.Some? {
        pushed := pushed + [CalendarEvent(EventId(index, month), parsed[index].name, date.value,
                                          month, year, Some(parsed[index].description))];
      }
    }
  }

  /** `generateCalendarEvents`: months outer, lines inner, then the stable
      sort by date. */
  method GenerateCalendarEvents(parsed: seq<ParsedEvent>, year: int) returns (events: seq<CalendarEvent>)
    ensures events == SortByDate(PushedEvents(CalculateEventDate, parsed, year, 12))
  {
    var pushed: seq<CalendarEvent> := [];
    for month := 0 to 12
      invariant pushed == PushedEvents(CalculateEventDate, parsed, year, month)
    {
      pushed := PushMonthEvents(parsed, year, month, pushed);
    }
    events := SortByDate(pushed);
  }

  // ------------------------------------------------- properties of the year

  lemma DashSplit(a: string, b: string, c: string, d: string)
    requires forall k :: 0 <= k < |a| ==> IsDigit(a[k])
    requires forall k :: 0 <= k < |c| ==> IsDigit(c[k])
    ensures a + "-" + b == c + "-" + d ==> a == c && b == d
  {
    if a + "-" + b == c + "-" + d {
      var s := a + "-" + b;
      assert s[|a|..|a| + 1] == "-";
      assert s[|c|..|c| + 1] == "-";
      forall j | 0 <= j < |a| ensures s[j] != "-"[0] { assert s[j] == a[j]; }
      forall j | 0 <= j < |c| ensures s[j] != "-"[0] { assert s[j] == c[j]; }
      IndexOfFirstChar(s, "-", |a|);
      IndexOfFirstChar(s, "-", |c|);
      assert a == s[..|a|] && c == s[..|c|];
      assert b == s[|a| + 1..] && d == s[|c| + 1..];
    }
  }

  /** Ids name their line and month: different (line, month) pairs get
      different ids. */
  lemma EventIdInjective(i: nat, m: nat, j: nat, n: nat)
    ensures EventId(i, m) == EventId(j, n) ==> i == j && m == n
  {
    DashSplit(NatToString(i), NatToString(m), NatToString(j), NatToString(n));
    NatToStringInjective(i, j);
    NatToStringInjective(m, n);
  }

  /** The event a line gives for a month: present exactly when its rule gives
      a date; it carries the id "index-month", the line's name and text, the
      loop's month and year, and that date. */
  lemma LineEventShape(dateOf: DateRule, p: ParsedEvent, index: nat, year: int, month: nat)
    ensures LineEvent(dateOf, p, index, year, month).Some? <==> dateOf(p.rule, year, month).Some?
    ensures LineEvent(dateOf, p, index, year, month).Some? ==>
      var e := LineEvent(dateOf, p, index, year, month).value;
      e.id == EventId(index, month) && e.ruleName == p.name && e.notes == Some(p.description)
      && e.month == month && e.year == year && e.date == dateOf(p.rule, year, month).value
  {
  }

  /** With the app's calculator the event's date lies in the loop's month and year. */
  lemma LineEventInMonth(p: ParsedEvent, index: nat, year: int, month: nat)
    requires month < 12
    ensures LineEvent(CalculateEventDate, p, index, year, month).Some? ==>
      var e := LineEvent(CalculateEventDate, p, index, year, month).value;
      e.month == month && e.year == year && e.date.month == month && e.date.year == FullYear(year)
  {
    CalculateEventDateInMonth(p.rule, year, month);
  }

  /** At most one event per line and month. */
  lemma {:induction false} MonthEventsCount(dateOf: DateRule, parsed: seq<ParsedEvent>, year: int, month: nat, n: nat)
    requires n <= |parsed|
    ensures |MonthEvents(dateOf, parsed, year, month, n)| <= n
  {
    if n > 0 {
      MonthEventsCount(dateOf, parsed, year, month, n - 1);
    }
  }

  /** At most 12 events per line over the year. */
  lemma {:induction false} PushedEventsCount(dateOf: DateRule, parsed: seq<ParsedEvent>, year: int, months: nat)
    requires months <= 12
    ensures |PushedEvents(dateOf, parsed, year, months)| <= months * |parsed|
  {
    if months > 0 {
      PushedEventsCount(dateOf, parsed, year, months - 1);
      MonthEventsCount(dateOf, parsed, year, months - 1, |parsed|);
      MulStep(months, |parsed|);
    }
  }

  lemma MulStep(m: nat, n: nat)
    requires m > 0
    ensures (m - 1) * n + n == m * n
  {
  }

  /** The events of a month are exactly those the lines before `n` give. */
  lemma {:induction false} MonthEventsMembers(dateOf: DateRule, parsed: seq<ParsedEvent>, year: int, month: nat, n: nat)
    requires n <= |parsed|
    ensures forall e :: e in MonthEvents(dateOf, parsed, year, month, n) ==>
      exists i :: 0 <= i < n && LineEvent(dateOf, parsed[i], i, year, month) == Some(e)
    ensures forall i :: 0 <= i < n && LineEvent(dateOf, parsed[i], i, year, month).Some? ==>
      LineEvent(dateOf, parsed[i], i, year, month).value in MonthEvents(dateOf, parsed, year, month, n)
  {
    if n > 0 {
      MonthEventsMembers(dateOf, parsed, year, month, n - 1);
      var before := MonthEvents(dateOf, parsed, year, month, n - 1);
      var last := LineEvent(dateOf, parsed[n - 1], n - 1, year, month);
      var tail := match last case None => [] case Some(e) => [e];
      assert MonthEvents(dateOf, parsed, year, month, n) == before + tail;
      forall e | e in before + tail
        ensures exists i :: 0 <= i < n && LineEvent(dateOf, parsed[i], i, year, month) == Some(e)
      {
        if e !in before {
          assert last == Some(e);
        }
      }
      forall i | 0 <= i < n && LineEvent(dateOf, parsed[i], i, year, month).Some?
        ensures LineEvent(dateOf, parsed[i], i, year, month).value in before + tail
      {
        if i < n - 1 {
          assert LineEvent(dateOf, parsed[i], i, year, month).value in before;
        }
      }
    }
  }

  /** The pushed events are exactly those some (line, month) pair gives. */
  lemma {:induction false} PushedEventsMembers(dateOf: DateRule, parsed: seq<ParsedEvent>, year: int, months: nat)
    requires months <= 12
    ensures forall e :: e in PushedEvents(dateOf, parsed, year, months) ==>
      exists i, m :: 0 <= i < |parsed| && 0 <= m < months && LineEvent(dateOf, parsed[i], i, year, m) == Some(e)
    ensures forall i, m :: 0 <= i < |parsed| && 0 <= m < months && LineEvent(dateOf, parsed[i], i, year, m).Some? ==>
      LineEvent(dateOf, parsed[i], i, year, m).value in PushedEvents(dateOf, parsed, year, months)
  {
    if months > 0 {
      PushedEventsMembers(dateOf, parsed, year, months - 1);
      MonthEventsMembers(dateOf, parsed, year, months - 1, |parsed|);
      var before := PushedEvents(dateOf, parsed, year, months - 1);
      var month := MonthEvents(dateOf, parsed, year, months - 1, |parsed|);
      assert PushedEvents(dateOf, parsed, year, months) == before + month;
      forall e | e in before + month
        ensures exists i, m :: 0 <= i < |parsed| && 0 <= m < months && LineEvent(dateOf, parsed[i], i, year, m) == Some(e)
      {
        if e !in before {
          var i :| 0 <= i < |parsed| && LineEvent(dateOf, parsed[i], i, year, months - 1) == Some(e);
        }
      }
      forall i, m | 0 <= i < |parsed| && 0 <= m < months && LineEvent(dateOf, parsed[i], i, year, m).Some?
        ensures LineEvent(dateOf, parsed[i], i, year, m).value in before + month
      {
        if m < months - 1 {
          assert LineEvent(dateOf, parsed[i], i, year, m).value in before;
        } else {
          assert LineEvent(dateOf, parsed[i], i, year, m).value in month;
        }
      }
    }
  }

  lemma DistinctIdsConcat(s: seq<CalendarEvent>, t: seq<CalendarEvent>)
    requires DistinctIds(s) && DistinctIds(t)
    requires forall x, y :: x in s && y in t ==> x.id != y.id
    ensures DistinctIds(s + t)
  {
    var u := s + t;
    forall a, b | 0 <= a < b < |u| ensures u[a].id != u[b].id {
      if b < |s| {
        assert u[a] == s[a] && u[b] == s[b];
      } else if a >= |s| {
        assert u[a] == t[a - |s|] && u[b] == t[b - |s|];
      } else {
        assert u[a] in s && u[b] in t;
      }
    }
  }

  lemma {:induction false} MonthEventsDistinct(dateOf: DateRule, parsed: seq<ParsedEvent>, year: int, month: nat, n: nat)
    requires n <= |parsed| && month < 12
    ensures DistinctIds(MonthEvents(dateOf, parsed, year, month, n))
  {
    if n > 0 {
      var before := MonthEvents(dateOf, parsed, year, month, n - 1);
      MonthEventsDistinct(dateOf, parsed, year, month, n - 1);
      MonthEventsMembers(dateOf, parsed, year, month, n - 1);
      var last := LineEvent(dateOf, parsed[n - 1], n - 1, year, month);
      if last.Some? {
        LineEventShape(dateOf, parsed[n - 1], n - 1, year, month);
        forall x, y | x in before && y in [last.value] ensures x.id != y.id {
          var i :| 0 <= i < n - 1 && LineEvent(dateOf, parsed[i], i, year, month) == Some(x);
          LineEventShape(dateOf, parsed[i], i, year, month);
          EventIdInjective(i, month, n - 1, month);
        }
        DistinctIdsConcat(before, [last.value]);
      } else {
        assert MonthEvents(dateOf, parsed, year, month, n) == before + [];
      }
    }
  }

  lemma {:induction false} PushedEventsDistinct(dateOf: DateRule, parsed: seq<ParsedEvent>, year: int, months: nat)
    requires months <= 12
    ensures DistinctIds(PushedEvents(dateOf, parsed, year, months))
  {
    if months > 0 {
      var before := PushedEvents(dateOf, parsed, year, months - 1);
      var month := MonthEvents(dateOf, parsed, year, months - 1, |parsed|);
      PushedEventsDistinct(dateOf, parsed, year, months - 1);
      MonthEventsDistinct(dateOf, parsed, year, months - 1, |parsed|);
      PushedEventsMembers(dateOf, parsed, year, months - 1);
      MonthEventsMembers(dateOf, parsed, year, months - 1, |parsed|);
      forall x, y | x in before && y in month ensures x.id != y.id {
        var i, m :| 0 <= i < |parsed| && 0 <= m < months - 1 && LineEvent(dateOf, parsed[i], i, year, m) == Some(x);
        var j :| 0 <= j < |parsed| && LineEvent(dateOf, parsed[j], j, year, months - 1) == Some(y);
        LineEventShape(dateOf, parsed[i], i, year, m);
        LineEventShape(dateOf, parsed[j], j, year, months - 1);
        EventIdInjective(i, m, j, months - 1);
      }
      DistinctIdsConcat(before, month);
    }
  }

  /** The order of what `generateCalendarEvents` returns: by date, and on one
      day in discovery order (months outer, lines inner); its ids are
      distinct, and there are at most 12 events per line. */
  lemma GeneratedEventsOrder(parsed: seq<ParsedEvent>, year: int, k: int)
    ensures var r := SortByDate(PushedEvents(CalculateEventDate, parsed, year, 12));
      SortedBy(DateKey, r)
      && WithKey(DateKey, r, k) == WithKey(DateKey, PushedEvents(CalculateEventDate, parsed, year, 12), k)
      && DistinctIds(r)
      && |r| <= 12 * |parsed|
  {
    var pushed := PushedEvents(CalculateEventDate, parsed, year, 12);
    SortByStable(DateKey, pushed, k);
    PushedEventsDistinct(CalculateEventDate, parsed, year, 12);
    DistinctIdsPermutation(pushed, SortByDate(pushed));
    PushedEventsCount(CalculateEventDate, parsed, year, 12);
  }

  /** The events `generateCalendarEvents` returns are exactly those some
      (line, month) pair gives. */
  lemma GeneratedEventsMembers(parsed: seq<ParsedEvent>, year: int)
    ensures forall e :: e in SortByDate(PushedEvents(CalculateEventDate, parsed, year, 12)) <==>
      exists i, m :: 0 <= i < |parsed| && 0 <= m < 12 && LineEvent(CalculateEventDate, parsed[i], i, year, m) == Some(e)
  {
    var pushed := PushedEvents(CalculateEventDate, parsed, year, 12);
    var r := SortByDate(pushed);
    PushedEventsMembers(CalculateEventDate, parsed, year, 12);
    SortByMembers(DateKey, pushed);
  }

  /** Every event `generateCalendarEvents` returns is in the requested year,
      and its `month` field is the month of its date. */
  lemma GeneratedEventsInMonth(parsed: seq<ParsedEvent>, year: int)
    ensures forall e :: e in SortByDate(PushedEvents(CalculateEventDate, parsed, year, 12)) ==>
      0 <= e.month < 12 && e.year == year && e.date.month == e.month && e.date.year == FullYear(year)
  {
    GeneratedEventsMembers(parsed, year);
    forall e | e in SortByDate(PushedEvents(CalculateEventDate, parsed, year, 12))
      ensures 0 <= e.month < 12 && e.year == year && e.date.month == e.month && e.date.year == FullYear(year)
    {
      var i, m :| 0 <= i < |parsed| && 0 <= m < 12 && LineEvent(CalculateEventDate, parsed[i], i, year, m) == Some(e);
      LineEventInMonth(parsed[i], i, year, m);
    }
  }
}
