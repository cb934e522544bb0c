# Business calendar generator: a Dafny model

A model of the date engine and the two text exporters of a small business
calendar generator, written in TypeScript. The user types lines such as
`NA Monthend - first working day of every month` and a year. The program
then:

- parses the lines into records;
- interprets each record's rule text with eight case-insensitive substring
  tests, tried in a fixed order;
- produces at most one dated event per line and month;
- sorts the events by date;
- exports them as an iCalendar feed (RFC 5545) or as a CSV table.

A second, structured rule calculator works from a table of ten default rules
and consults a holiday list. It is modelled as well.

The model is in eleven modules:

- `Calendar` (`calendar.dfy`): naive Gregorian dates with month 0-11 and
  weekday 0 = Sunday, as `getDay` returns it. It also covers day arithmetic
  (`addDays`, `subDays`, `setDate`) and the roll-over of
  `new Date(year, month, day)`, including its reading of a year from 0 to
  99 as 1900 to 1999 (`FullYear`). `setDate` and the `Date` copies keep
  the year as it is.
- `DateFormat` (`date_format.dfy`): the date-fns `format` patterns used:
  `yyyy`, `MM`, `dd`, `MMMM` and `EEEE`. Includes reading dates back.
- `Text` (`text.dfy`): the JavaScript string operations the source relies
  on: `includes`/`indexOf`, `split`/`join`, `trim`, `toLowerCase`,
  `String(n)` and `padStart`.
- `CalendarTypes` (`calendar_types.dfy`): `EventRule` and `CalendarEvent`
  from `types/calendar.ts`.
- `EventParser` (`event_parser.dfy`): `lib/eventParser.ts`, the free-text
  path.
- `EventOrder` (`event_order.dfy`): the stable sort both date sorts use, and
  the in-place sort of the CSV exporter.
- `DateCalculations` (`date_calculations.dfy`): `lib/dateCalculations.ts`,
  the structured calculator with holidays.
- `EventRules` (`event_rules.dfy`): the `DEFAULT_RULES` table of
  `lib/eventRules.ts`.
- `IcsGenerator` (`ics_generator.dfy`): `generateICS` and `escapeICSText`.
- `CsvGenerator` (`csv_generator.dfy`): the content of `generateCSV`.
- `Wrappers` (`wrappers.dfy`): `Option`.

How the source's forms carry over:

- **Loops.** The while, do-while and forEach loops are Dafny methods with
  loops:
  - `getFirstWorkingDay` and `getNextWorkingDay` in both files;
  - `generateCalendarEvents`'s nested month and line loops;
  - the push loop of `generateICS`.

  Each method is proved equal to a function, and the properties are lemmas
  about that function.
- **The CSV sort.** `generateCSV` sorts the caller's array in place. Its
  model is a method on an `array` that leaves the array sorted.
- **`calculateEventDate` (free-text).** The if-chain is a first-match
  selection over the eight tests, followed by the date of the chosen branch.
  `null` is `None`.
- **`Date` values.** The helpers copy and `setDate` their `Date`, which is
  modelled as a new value.

The app's own sample input (components/UserInputForm.tsx:17-22) names the
15th of June, the 31st of December, and the 30th of March, June and
September. The code follows only its eight substring tests:

- "31st of December" contains "1st of", so it gives the 1st of every month
  (`EventParser.YearEndCloseRuleGivesFirsts`), not one event on December 31.
- "30th of March", "30th of June" and "30th of September" pass no test, so
  they give no event at all (`EventParser.QuarterReviewRulesGiveNothing`).
- "15th of June" gives the 15th of every month
  (`EventParser.MidYearReviewRuleGivesFifteenths`).

## Model

| member | source | states |
|---|---|---|
| Calendar.IsWeekend | lib/eventParser.ts:127-130 | definition: Sunday or Saturday; see WeekendRun, FirstWeekdayFromFacts and ShiftingBranchesAvoidWeekends |
| Calendar.Weekday | lib/eventParser.ts:127-130 | `getDay` is a number from 0 (Sunday) to 6 (Saturday) |
| Calendar.KnownWeekdays | lib/eventParser.ts:128 | the weekday count agrees with the real calendar: 1 Jan 1970 and 1 Jan 2026 are Thursdays, 1 Jan 2000 a Saturday, 29 Feb 2024 a Thursday |
| Calendar.WeekdayAddDays | lib/dateCalculations.ts:26 | adding `n` days moves the weekday by `n` modulo 7 |
| Calendar.NextDayNumber | lib/dateCalculations.ts:26 | the next day, across month and year ends, is exactly one day later |
| Calendar.PrevDayNumber | lib/dateCalculations.ts:33-34 | the previous day is exactly one day earlier |
| Calendar.NextPrevDay | lib/dateCalculations.ts:26 | stepping forward and back, or back and forward, returns to the same date |
| Calendar.AddDays | lib/dateCalculations.ts:26-34 | definition of `addDays`/`subDays` by day steps; see AddDaysNumber, WeekdayAddDays and AddDaysAdd |
| Calendar.AddDaysNumber | lib/dateCalculations.ts:26 | `addDays(d, n)` is exactly `n` days from `d`, for negative `n` too |
| Calendar.DayNumberInjective | lib/eventParser.ts:47 | two dates with the same position in time (`getTime`) are the same date |
| Calendar.AddDaysSucc | lib/dateCalculations.ts:26 | adding `n + 1` days is adding `n` days and then one more |
| Calendar.AddDaysAdd | lib/dateCalculations.ts:26 | adding `m` and then `n` days is adding `m + n` days |
| Calendar.AddDaysWithinMonth | lib/eventParser.ts:135 | a shift that stays inside the month changes only the day |
| Calendar.MakeDate | lib/dateCalculations.ts:48-52 | definition of `new Date(year, month, day)`; see MakeDateRollsOver, MakeDateTwoDigitYears and MakeDateInRange |
| Calendar.SetDate | lib/eventParser.ts:133-135 | definition of `setDate` on a copy; see SetDateShift and SetDateNext |
| Calendar.MakeDayRollsOver | lib/eventParser.ts:135 | the roll-over `setDate` and `new Date` share: day `day` of a month is `day - 1` days after its 1st, with out-of-range months carried into the year |
| Calendar.MakeDateRollsOver | lib/dateCalculations.ts:52 | `new Date(year, month, day)` is `day - 1` days after the 1st of the normalised month of the full year (`FullYear`: 1900 + `year` for years 0 to 99, else `year`) |
| Calendar.MakeDateTwoDigitYears | lib/eventParser.ts:118 | `new Date` reads years 0 to 99 as 1900 to 1999, and every other year as itself |
| Calendar.MakeDateInRange | lib/eventParser.ts:65 | `new Date(year, month, day)` with a day that exists is exactly that date of the full year |
| Calendar.SetDateShift | lib/eventParser.ts:135 | `d.setDate(d.getDate() + k)` is `addDays(d, k)` for any `k`, rolling over month ends |
| Calendar.SetDateNext | lib/eventParser.ts:121 | `setDate(getDate() + 1)` is the next day |
| Calendar.WeekendRun | lib/eventParser.ts:127-130 | the days to the next weekday: at most 2, and 0 exactly when the date is not a weekend day |
| Calendar.WeekendRunStep | lib/eventParser.ts:120-122 | stepping off a weekend day brings the next weekday one day closer |
| Calendar.FirstWeekdayFromFacts | lib/eventParser.ts:120-122 | the first weekday on or after `d` is not a weekend day, lies `WeekendRun(d)` days on, and every day skipped is a weekend day |
| Calendar.FirstWeekdayFromStep | lib/eventParser.ts:120-122 | stepping off a weekend day keeps the target weekday and shortens the run |
| Calendar.DaysInMonth | lib/dateCalculations.ts:52 | months have 28 to 31 days; 28 only for February outside leap years |
| Text.IndexOfFrom | lib/eventParser.ts:14 | `indexOf` gives the first occurrence at or after `from`, or none when there is none |
| Text.ContainsIff | lib/eventParser.ts:59 | `includes` holds exactly when `indexOf` finds the pattern, i.e. when it occurs somewhere |
| Text.NotContainsCharAbsent | lib/eventParser.ts:59-108 | a text lacking one character of a pattern does not contain the pattern |
| Text.Split | lib/eventParser.ts:11 | `split` gives at least one piece |
| Text.JoinSplit | lib/eventParser.ts:14-15 | joining the pieces of a split with the same separator gives the text back |
| Text.SplitPiecesLackSeparator | lib/eventParser.ts:11 | no piece of a split contains the separator |
| Text.SplitJoin | lib/icsGenerator.ts:59 | splitting a join gives the parts back when no part holds the separator's first character |
| Text.SplitConcat | lib/eventParser.ts:11 | splitting on a character works piece by piece across an occurrence of it |
| Text.JoinEnds | lib/icsGenerator.ts:59 | a join opens with its first part and ends with its last, with nothing after |
| Text.TrimStartFacts | lib/eventParser.ts:18 | `trimStart` drops only leading white space, and what it keeps starts with a non-space |
| Text.TrimEndFacts | lib/eventParser.ts:18 | `trimEnd` drops only trailing white space, and what it keeps ends with a non-space |
| Text.TrimIsSlice | lib/eventParser.ts:18 | `trim` cuts a slice out of the text, with only white space around it and none at its ends |
| Text.TrimEmptyIff | lib/eventParser.ts:11 | a line is dropped by the blank-line filter exactly when it is all white space |
| Text.ToLowerConcat | lib/eventParser.ts:55 | `toLowerCase` works character by character over a concatenation |
| Text.ToLowerFixed | lib/eventParser.ts:55 | text without upper-case letters is its own lower-case form |
| Text.ToLowerOneCapital | lib/eventParser.ts:55 | text with one ASCII capital lowers just that letter |
| Text.ToLowerAvoids | lib/eventParser.ts:55 | a character that no character of the text lowers to is absent from its lower-case form |
| Text.ToLowerIdempotent | lib/eventParser.ts:55 | lower-casing twice changes nothing more |
| Text.NatToString | lib/eventParser.ts:36 | `String(n)` is a non-empty numeral of digits without a leading zero |
| Text.NatToStringValue | lib/eventParser.ts:36 | `String(n)` reads back as `n` |
| Text.NatToStringInjective | lib/eventParser.ts:36 | different numbers print differently |
| Text.PadZeros | lib/icsGenerator.ts:20 | zero padding keeps the numeral at the end and fills with zeros to the width |
| Text.PaddedValue | lib/icsGenerator.ts:20 | a zero-padded numeral is all digits and reads back as the number |
| Text.PaddedNumeral | lib/icsGenerator.ts:20 | the padded numeral of a number with at most `width` digits is exactly `width` digits long |
| DateFormat.YearReadsBack | lib/icsGenerator.ts:20 | `yyyy` reads back as the era year, and takes four digits for years 1 to 9999 |
| DateFormat.MonthReadsBack | lib/icsGenerator.ts:20 | `MM` is two digits reading back as the month counted from 1 |
| DateFormat.DayReadsBack | lib/icsGenerator.ts:20 | `dd` is two digits reading back as the day |
| DateFormat.CompactDateRoundTrip | lib/icsGenerator.ts:20 | `yyyyMMdd` is eight characters and reads back as the date, for years 1 to 9999 |
| DateFormat.IsoDateRoundTrip | lib/csvGenerator.ts:12 | `yyyy-MM-dd` is ten characters and reads back as the date, for years 1 to 9999 |
| DateFormat.IsoDateFields | lib/dateCalculations.ts:19-20 | two dates print the same `yyyy-MM-dd` exactly when their months, days and printed years agree |
| DateFormat.IsoDateInjective | lib/dateCalculations.ts:19-20 | from year 1 on, equal `yyyy-MM-dd` texts mean equal dates, and back |
| DateFormat.IsoDateEraClash | lib/dateCalculations.ts:19-20 | year 0 (1 BC) and year 1 print the same `yyyy-MM-dd` text |
| DateFormat.NamesDistinct | lib/csvGenerator.ts:11-13 | the twelve month names and seven weekday names are all different |
| EventParser.ParseEventsText | lib/eventParser.ts:10-23 | definition: split on LF, drop blank lines, parse each; see NonBlankLinesKept, ParseLines, ParseConcat and ParsedFieldsSingleLine |
| EventParser.ParseLine | lib/eventParser.ts:14-21 | every record's rule and description are the same text |
| EventParser.ParseLineAtSeparator | lib/eventParser.ts:14-20 | the name is the trimmed text before the first " - ", the rule the trimmed text after it |
| EventParser.ParseLineWithoutSeparator | lib/eventParser.ts:14-20 | a line without " - " gives its trimmed self as name and an empty rule |
| EventParser.NonBlankLinesConcat | lib/eventParser.ts:11 | the blank-line filter works block by block |
| EventParser.NonBlankLinesKept | lib/eventParser.ts:11 | the lines kept are exactly the lines that are not blank |
| EventParser.ParseLines | lib/eventParser.ts:13 | one record per kept line |
| EventParser.ParseLinesConcat | lib/eventParser.ts:13 | records are made line by line, in order |
| EventParser.ParseSingleLine | lib/eventParser.ts:10-23 | one line gives one record, or none when it is blank |
| EventParser.ParseConcat | lib/eventParser.ts:10-23 | the records of two blocks of lines joined by a newline are those of the first, then those of the second |
| EventParser.ParseLineChars | lib/eventParser.ts:14-20 | a record's name and rule are cut out of its line |
| EventParser.ParsedFieldsSingleLine | lib/eventParser.ts:10-23 | no name or rule holds a newline |
| EventParser.ShiftFacts | lib/eventParser.ts:135 | `setDate(getDate() + k)` moves the date `k` days and the weekday `k` modulo 7 |
| EventParser.GetPreviousFriday | lib/eventParser.ts:132-137 | definition; see GetPreviousFridayFacts |
| EventParser.GetPreviousFridayFacts | lib/eventParser.ts:132-137 | a weekend day goes to the Friday just before it; any other day goes back one day |
| EventParser.GetNextMonday | lib/eventParser.ts:139-144 | definition; see GetNextMondayFacts |
| EventParser.GetNextMondayFacts | lib/eventParser.ts:139-144 | a weekend day goes to the Monday just after it; any other day goes on two days |
| EventParser.NextWeekdayAfterFacts | lib/eventParser.ts:146-154 | the first weekday strictly after `date` is 1 to 3 days on, with only weekend days in between |
| EventParser.GetNextWorkingDay | lib/eventParser.ts:146-154 | the do-while loop returns the first weekday strictly after its input |
| EventParser.FirstWorkingDayFacts | lib/eventParser.ts:117-125 | the first working day of a month of the full year is its 1st, 2nd or 3rd: not a weekend day, and every earlier day of the month is one |
| EventParser.GetFirstWorkingDay | lib/eventParser.ts:117-125 | the while loop returns the first weekday on or after the 1st |
| EventParser.CalculateEventDate | lib/eventParser.ts:50-115 | definition: the first matching test, then its branch's date; see FirstMatchSpec, BranchDateFacts, CalculateEventDateInMonth and ShiftingBranchesAvoidWeekends |
| EventParser.FirstMatchSpec | lib/eventParser.ts:59-110 | first match wins: no branch exactly when no test holds; otherwise the chosen test holds and every earlier test fails |
| EventParser.NinthBranchFacts | lib/eventParser.ts:74-80 | the 9th of the month of the full year, or the 7th or 8th (a Friday) when the 9th is a weekend day |
| EventParser.TwelfthBranchFacts | lib/eventParser.ts:83-89 | the 12th of the month of the full year, or the 13th or 14th (a Monday) when the 12th is a weekend day |
| EventParser.ThirteenthBranchFacts | lib/eventParser.ts:92-98 | the 13th of the month of the full year, or the 14th or 15th (a Monday) when the 13th is a weekend day |
| EventParser.BranchDateFacts | lib/eventParser.ts:59-108 | each branch's day, always inside the requested month of the full year (`FullYear`: 1900 + `year` for years 0 to 99, else `year`), on day 1 to 19 |
| EventParser.CalculateEventDateInMonth | lib/eventParser.ts:50-115 | every date returned lies in the requested month of the full year, on day 1 to 19 |
| EventParser.ShiftingBranchesAvoidWeekends | lib/eventParser.ts:59-98 | the first-working-day and the three shifting branches always give a date, never a weekend day |
| EventParser.NotContainsAll | lib/eventParser.ts:59-108 | no pattern fits in a text shorter than three characters |
| EventParser.EmptyRuleHasNoDate | lib/eventParser.ts:55-110 | an empty rule (a line without " - ") gives `null` |
| EventParser.NoMatchWithoutKeyChars | lib/eventParser.ts:59-108 | a rule without 'i', '1', '2' or '9' passes no test |
| EventParser.NoMatchWithoutFOrDigits | lib/eventParser.ts:59-108 | a rule without 'f', '1', '2' or '9' passes no test |
| EventParser.LowerWordsWithoutFGiveNothing | lib/eventParser.ts:55-110 | lower-case words without an 'f' give `null` in every month |
| EventParser.UnrecognisedRulesGiveNothing | lib/eventParser.ts:55-110 | "quarterly", "every day except weekends" and "something unintelligible" give `null` in every month |
| EventParser.NineteenthShadowedByNinth | lib/eventParser.ts:74-108 | a rule naming "19th" and "previous friday" is taken by the 9th branch or an earlier one |
| EventParser.RuleWithoutKeyCharsGivesNothing | lib/eventParser.ts:55-110 | any rule none of whose characters lowers to 'i', '1', '2' or '9' gives `null`, whatever its case |
| EventParser.QuarterReviewRulesGiveNothing | lib/eventParser.ts:55-110 | "30th of March", "30th of June" and "30th of September" give `null` in every month |
| EventParser.YearEndCloseBranch | lib/eventParser.ts:59-66 | "31st of december" is taken by the first-of-month branch |
| EventParser.YearEndCloseRuleGivesFirsts | lib/eventParser.ts:64-66 | "31st of December" gives the 1st of every month of the full year |
| EventParser.FifteenthWithoutOtherKeys | lib/eventParser.ts:59-103 | a rule with "15th" and without 'i', 's', '2', '3' or '9' is taken by the 15th branch |
| EventParser.MidYearReviewBranch | lib/eventParser.ts:101-103 | "15th of june" is taken by the 15th branch |
| EventParser.MidYearReviewRuleGivesFifteenths | lib/eventParser.ts:101-103 | "15th of June" gives the 15th of every month of the full year |
| EventParser.EventIdInjective | lib/eventParser.ts:36 | ids `${index}-${month}` of different (line, month) pairs differ |
| EventParser.LineEventShape | lib/eventParser.ts:33-42 | a line gives an event for a month exactly when its rule gives a date; the event carries id, name, notes, month, year and that date |
| EventParser.LineEventInMonth | lib/eventParser.ts:33-41 | with the real calculator the event's `month` is its date's month and its `year` field is the requested `year`, while its date lies in the full year (1950 for year 50) |
| EventParser.MonthEventsCount | lib/eventParser.ts:32-44 | one month gives at most one event per line |
| EventParser.PushedEventsCount | lib/eventParser.ts:31-45 | the year gives at most 12 events per line |
| EventParser.MonthEventsMembers | lib/eventParser.ts:32-44 | a month's events are exactly those its lines give |
| EventParser.PushedEventsMembers | lib/eventParser.ts:31-45 | the pushed events are exactly those some (line, month) pair gives |
| EventParser.MonthEventsDistinct | lib/eventParser.ts:32-44 | a month's events have distinct ids |
| EventParser.PushedEventsDistinct | lib/eventParser.ts:31-45 | the pushed events have distinct ids |
| EventParser.PushMonthEvents | lib/eventParser.ts:32-44 | one `forEach` pass appends the month's events in line order |
| EventParser.GenerateCalendarEvents | lib/eventParser.ts:25-48 | the loops push months outer, lines inner, and return the stable sort by date of what they pushed |
| EventParser.GeneratedEventsOrder | lib/eventParser.ts:47 | the result is in date order; on each date the events keep discovery order; ids are distinct; at most 12 per line |
| EventParser.GeneratedEventsMembers | lib/eventParser.ts:31-47 | an event is in the result exactly when some (line, month) pair gives it |
| EventParser.GeneratedEventsInMonth | lib/eventParser.ts:31-47 | every event's `year` field is the requested `year` and its date lies in the full year; its `month` field is the month of its date |
| EventOrder.InsertSorted | lib/eventParser.ts:47 | inserting into a sorted list keeps it sorted |
| EventOrder.InsertMultiset | lib/eventParser.ts:47 | inserting adds exactly the one event |
| EventOrder.SortBy | lib/eventParser.ts:47 | the sort is a permutation of its input, in ascending key order |
| EventOrder.SortByStable | lib/eventParser.ts:47 | stable: for every key, the events with that key keep their original relative order |
| EventOrder.SortByOfSorted | lib/eventParser.ts:47 | a list already in key order is left unchanged |
| EventOrder.SortByMembers | lib/eventParser.ts:47 | sorting neither adds nor drops an event |
| EventOrder.DistinctIdsPermutation | lib/eventParser.ts:47 | reordering cannot create an id clash |
| EventOrder.SortEvents | lib/csvGenerator.ts:8-9 | the caller's array is left holding the stable sort by date of its old contents |
| DateCalculations.IsWorkingDay | lib/dateCalculations.ts:15-21 | definition: no weekend day and no holiday text match; see IsHolidayIsMembership and NoHolidaysWorkingDay |
| DateCalculations.IsHolidayIsMembership | lib/dateCalculations.ts:15-21 | from year 1 on, the `yyyy-MM-dd` comparison is membership in the holiday list |
| DateCalculations.NoHolidaysWorkingDay | lib/dateCalculations.ts:15-21 | without holidays, the working days are the weekdays |
| DateCalculations.YearBound | lib/dateCalculations.ts:25-27 | a year bound above every holiday year |
| DateCalculations.EraYearsApart | lib/dateCalculations.ts:19-20 | dates with different printed years print different `yyyy-MM-dd` texts |
| DateCalculations.NotHolidayAt | lib/dateCalculations.ts:19-20 | no holiday prints like a date beyond the holiday years |
| DateCalculations.NoHolidayBeyond | lib/dateCalculations.ts:19-20 | a date beyond the holiday years is no holiday |
| DateCalculations.SearchStepPastWeekend | lib/dateCalculations.ts:25-27 | a step past a weekend day, or past any day beyond the holiday years, brings the search closer to its end |
| DateCalculations.SearchStep | lib/dateCalculations.ts:25-27 | the search loop terminates: each step past a non-working day brings it closer to its end |
| DateCalculations.NextWorkingDayFacts | lib/dateCalculations.ts:23-29 | the result is a working day, never before `date`, with no working day in between, and `date` itself when it is one |
| DateCalculations.SearchPrefix | lib/dateCalculations.ts:25-27 | the days skipped are `date` and those skipped from the next day on |
| DateCalculations.NextWorkingDayWithoutHolidays | lib/dateCalculations.ts:23-29 | without holidays the search stops at the first weekday on or after `date` |
| DateCalculations.HolidaysOnlyDelay | lib/dateCalculations.ts:23-29 | holidays can only delay the result |
| DateCalculations.GetNextWorkingDay | lib/dateCalculations.ts:23-29 | the while loop returns the first working day on or after `date` |
| DateCalculations.GetPreviousFriday | lib/dateCalculations.ts:31-36 | definition; see GetPreviousFridayFacts and GetPreviousFridayIdempotent |
| DateCalculations.GetPreviousFridayFacts | lib/dateCalculations.ts:31-36 | a weekend day goes back to the Friday just before it, at most 2 days, skipping only weekend days; other days stay |
| DateCalculations.GetPreviousFridayIdempotent | lib/dateCalculations.ts:31-36 | shifting twice is shifting once |
| DateCalculations.NextMondayFacts | lib/dateCalculations.ts:57 | date-fns `nextMonday` gives the first Monday strictly after the date: Saturday +2, Sunday +1 |
| DateCalculations.StartOfMonth | lib/dateCalculations.ts:48 | `startOfMonth` keeps year and month, day 1 |
| DateCalculations.CalculateEventDate | lib/dateCalculations.ts:38-75 | definition by rule kind and weekend behaviour; see FirstWorkingDayRuleDate, SpecificDayRuleDate, MissingDayGivesNoDate, OtherRulesGiveTheFirst and ShiftedDatesAreWeekdays |
| DateCalculations.FirstWorkingDayRuleDate | lib/dateCalculations.ts:47-49 | a first-working-day rule gives `getNextWorkingDay(1st, holidays)`; without holidays the 1st, 2nd or 3rd of the month of the full year, never a weekend day |
| DateCalculations.SpecificDayRuleDate | lib/dateCalculations.ts:51-70 | a specific-day rule: a weekend base goes to the next Monday or previous Friday, ignoring holidays; a weekday base stays or goes to `getNextWorkingDay` |
| DateCalculations.MissingDayGivesNoDate | lib/dateCalculations.ts:52 | there is no date exactly when a specific-day rule lacks `dayOfMonth` |
| DateCalculations.OtherRulesGiveTheFirst | lib/dateCalculations.ts:72-73 | nth-day and custom rules give the 1st of the month of the full year |
| DateCalculations.ShiftedDatesAreWeekdays | lib/dateCalculations.ts:47-69 | every shifting rule lands on a weekday, whatever the holidays |
| DateCalculations.NextWorkingDayKeepsWeekdays | lib/dateCalculations.ts:55-59 | without holidays, next-working-day leaves a weekday alone |
| DateCalculations.HolidaysIgnored | lib/dateCalculations.ts:51-73 | holidays matter only to first-working-day rules and to weekdays under next-working-day |
| EventRules.DefaultRules | lib/eventRules.ts:4-84 | the ten rules of the table; see DefaultRulesDistinctIds, DefaultRulesKinds, DefaultRulesDays and DefaultRulesBehaviours |
| EventRules.DefaultRulesDistinctIds | lib/eventRules.ts:4-84 | ten rules with pairwise distinct ids |
| EventRules.DefaultRulesKinds | lib/eventRules.ts:8-79 | `na-monthend` is the only first-working-day rule; all others are specific-day rules |
| EventRules.DefaultRulesDays | lib/eventRules.ts:16-80 | every specific-day rule has a day in {1, 2, 9, 12, 13, 15, 19}, so at most 28 |
| EventRules.DefaultRulesBehaviours | lib/eventRules.ts:9-81 | only `eu-cost` shifts to Friday; exactly `na-monthend`, `eu-revenue` and `global-imprs` use next-working-day |
| EventRules.DefaultRulesBaseDate | lib/dateCalculations.ts:52 | for these rules `new Date(year, month, dayOfMonth)` never rolls over: it is that day of the full year |
| EventRules.SpecificDayStaysInMonth | lib/dateCalculations.ts:51-70 | without holidays, a specific-day rule whose shift cannot cross a month end stays in the month of the full year |
| EventRules.DefaultRulesStayInMonth | lib/eventRules.ts:4-84 | without holidays every default rule gives a date in the requested month of the full year, and the shifting ones never a weekend day |
| IcsGenerator.EscapeICSText | lib/icsGenerator.ts:62-69 | definition: the five global replaces; see EscapeICSTextIsEach, UnescapeEscape, EscapeLength and EscapeIsRfcTextIff |
| IcsGenerator.ReplaceCharConcat | lib/icsGenerator.ts:63-68 | one `replace(/c/g, rep)` works piecewise over a concatenation |
| IcsGenerator.EscapeConcat | lib/icsGenerator.ts:62-69 | `escapeICSText` works piecewise over a concatenation |
| IcsGenerator.ReplaceCharAbsent | lib/icsGenerator.ts:63-68 | a replacement leaves text without its character alone |
| IcsGenerator.EscapeOneChar | lib/icsGenerator.ts:63-68 | later replacements never touch what earlier ones wrote |
| IcsGenerator.EscapeICSTextIsEach | lib/icsGenerator.ts:62-69 | the replace chain is the character-by-character escape |
| IcsGenerator.UnescapeEscape | lib/icsGenerator.ts:63-68 | because the backslash goes first, unescaping recovers the input |
| IcsGenerator.EscapeLength | lib/icsGenerator.ts:63-68 | the output is the input's length plus the number of `\`, `;`, `,`, LF and CR |
| IcsGenerator.EscapeIsEscapedText | lib/icsGenerator.ts:62-69 | `;`, `,` and `\` occur in the output only in the pairs `\\`, `\;`, `\,`, `\n` and `\r`, and there is no raw LF or CR |
| IcsGenerator.EscapeIsRfcTextIff | lib/icsGenerator.ts:62-69 | the output is a TEXT value by the grammar of section 3.3.11 of RFC 5545 exactly when the input holds no CR and no control character other than HTAB and LF |
| IcsGenerator.EscapedTextFacts | lib/icsGenerator.ts:62-69 | text of the escaping's shape has no raw LF or CR, and every `;` and `,` follows a backslash |
| IcsGenerator.EscapeHasNoLineBreaks | lib/icsGenerator.ts:62-69 | the output holds no raw LF or CR |
| IcsGenerator.BlocksConcat | lib/icsGenerator.ts:18-54 | the blocks of two runs of events, with the second's indexes continued |
| IcsGenerator.PushBlocks | lib/icsGenerator.ts:18-54 | the `forEach` loop appends each event's block in input order, event `i` stamped with clock reading `i` |
| IcsGenerator.GenerateICS | lib/icsGenerator.ts:5-60 | header, blocks and footer, joined with CRLF |
| IcsGenerator.Header | lib/icsGenerator.ts:8-15 | the seven header lines; see IcsLinesShape and IcsTextEnds |
| IcsGenerator.EventLines | lib/icsGenerator.ts:18-54 | one event's block; see EventLinesShape and EventLinesMarkers |
| IcsGenerator.TailLinesText | lib/icsGenerator.ts:39-53 | the nine tail lines: STATUS, TRANSP and CATEGORIES, then the alarm (`TRIGGER:-P1D`, `ACTION:DISPLAY`, the "Reminder: … is tomorrow" description), then `END:VEVENT` |
| IcsGenerator.HeadLinesFacts | lib/icsGenerator.ts:26-33 | six lines: `BEGIN:VEVENT`, the UID naming the id and date, DTSTAMP carrying the stamp, DTSTART and DTEND on the date, and SUMMARY carrying the summary; one `BEGIN:VEVENT`, no `END:VEVENT` |
| IcsGenerator.TailLinesFacts | lib/icsGenerator.ts:39-53 | the tail lines (TailLinesText) close one VEVENT and hold one trigger and no BEGIN:VEVENT |
| IcsGenerator.DescriptionFacts | lib/icsGenerator.ts:35-37 | a DESCRIPTION line exactly when notes are present and not empty; it reads back as the notes |
| IcsGenerator.EventLinesShape | lib/icsGenerator.ts:18-54 | 15 lines, or 16 with notes, each at its place: UID `${id}-${yyyyMMdd}@business-calendar.com`; DTSTAMP the clock's stamp; DTSTART and DTEND the `yyyyMMdd` date; the summary reads back as the name; the fixed properties; the alarm with its reminder on the escaped name |
| IcsGenerator.TimestampRoundTrip | lib/icsGenerator.ts:22-23 | for years 1 to 9999 the stamp `yyyyMMdd'T'HHmmss'Z'` is 16 characters and reads back as the clock reading |
| IcsGenerator.EventLinesMarkers | lib/icsGenerator.ts:26-53 | one `BEGIN:VEVENT`, one `END:VEVENT` and one `TRIGGER:-P1D` per block |
| IcsGenerator.MarkerCountsAdd | lib/icsGenerator.ts:18-54 | marker counts add up over consecutive blocks |
| IcsGenerator.BlocksMarkersFor | lib/icsGenerator.ts:18-54 | one VEVENT per event for any block that marks one event |
| IcsGenerator.BlocksMarkers | lib/icsGenerator.ts:18-54 | each event contributes exactly one VEVENT with one alarm |
| IcsGenerator.NotesCount | lib/icsGenerator.ts:35-37 | at most one description per event |
| IcsGenerator.BlocksLength | lib/icsGenerator.ts:18-54 | 15 lines per event plus one per event with notes |
| IcsGenerator.IcsLinesShape | lib/icsGenerator.ts:9-57 | the seven header lines naming the year, the blocks, then `END:VCALENDAR` |
| IcsGenerator.IcsLinesMarkers | lib/icsGenerator.ts:9-57 | exactly as many VEVENTs and alarms as events |
| IcsGenerator.IcsTextEnds | lib/icsGenerator.ts:57-59 | the text opens with `BEGIN:VCALENDAR` and CRLF and ends with `END:VCALENDAR`, no CRLF after it |
| IcsGenerator.IcsSplitsIntoLines | lib/icsGenerator.ts:59 | the text splits on CRLF back into its lines when no id holds a CR |
| CsvGenerator.Quoted | lib/csvGenerator.ts:20 | one quoted cell per cell |
| CsvGenerator.RowLines | lib/csvGenerator.ts:20 | one data line per event |
| CsvGenerator.GenerateCSV | lib/csvGenerator.ts:5-21 | the caller's array is left sorted by date, and the content lists it in that order |
| CsvGenerator.HeaderLineText | lib/csvGenerator.ts:6 | the header line is `Month,Date,Day,Event Name,Notes`, unquoted |
| CsvGenerator.RowLinesAt | lib/csvGenerator.ts:20 | data line `i` is the line of event `i` |
| CsvGenerator.CsvLinesShape | lib/csvGenerator.ts:18-21 | the header line, then exactly one line per event, in order |
| CsvGenerator.RowCells | lib/csvGenerator.ts:10-16 | five cells: month name, `yyyy-MM-dd` date reading back as the date, weekday name, name, and notes or an empty cell |
| CsvGenerator.RowLineQuoted | lib/csvGenerator.ts:20 | a data line is `"` + the cells joined with `","` + `"` |
| CsvGenerator.RowLineReadsBack | lib/csvGenerator.ts:20 | a line whose cells hold no quote gives its cells back |
| CsvGenerator.QuotesAreNotEscaped | lib/csvGenerator.ts:20 | quotes are not doubled, so the cell `a","b` and the cells `a`, `b` give the same line |
| CsvGenerator.JoinFreeOf | lib/csvGenerator.ts:20 | a character absent from the parts and the separator is absent from their join |
| CsvGenerator.QuotedFreeOf | lib/csvGenerator.ts:20 | quoting adds no character other than `"` |
| CsvGenerator.RowLineFreeOfNewline | lib/csvGenerator.ts:10-20 | a data line holds no LF when the name and notes hold none |
| CsvGenerator.CsvSplitsIntoLines | lib/csvGenerator.ts:18-21 | the content splits on LF back into its lines when no name or notes hold one |
| CsvGenerator.CsvRowsInDateOrder | lib/csvGenerator.ts:8-16 | the rows are the events, each once, in ascending date order, with same-date events in their original order |

## Left out

- `lib/pdfGenerator.ts` and the React UI (`app/page.tsx`, `components/`) are not part of this model. They are drawing, styling and browser state.
- `downloadICS` (lib/icsGenerator.ts:71-84) and the Blob download at the end of `generateCSV` (lib/csvGenerator.ts:23-27) are browser I/O. The `year` argument of `generateCSV` only names the downloaded file, so it is not modelled.
- The wall clock read for `DTSTAMP` (lib/icsGenerator.ts:22-23) is a parameter, `clock: nat -> Moment`. The event with index `i` reads `clock(i)`.
- Calendar.MakeDate: does not model the limit of a JavaScript time value (8.64e15 ms, about 275 760 years either side of 1970), beyond which `new Date` gives an invalid date; the model's years are unbounded. The year field of components/UserInputForm.tsx is limited to 2020-2050.
- Time zones, daylight saving time and the milliseconds of JavaScript `Date` are not modelled. Dates are naive local calendar dates, and `getTime` order is day order.
- The `try`/`catch` and `console.warn` of `calculateEventDate` (lib/eventParser.ts:57, 111-114) are not modelled. Nothing in the guarded block throws for a valid date.
- The `color` field of `CalendarEvent` is not modelled. It is used only for display.
- `MonthData` (types/calendar.ts:21-25) is not modelled. No core function uses it.
- Text.ToLower: models `toLowerCase` exactly for ASCII, KELVIN SIGN and U+0130. Other non-ASCII upper-case letters are left unchanged. The eight patterns are ASCII, so only characters that lower-case to ASCII can change a match.
- Strings are sequences of characters, not UTF-16 code units. The model ignores surrogate pairs.
- A specific-day rule without `dayOfMonth` (`rule.dayOfMonth!` on `undefined`) makes `new Date` an invalid date. Under `previous-friday` and `no-shift` that invalid date is returned. Under `next-working-day` `isWorkingDay` formats it and throws a RangeError (lib/dateCalculations.ts:19). DateCalculations.CalculateEventDate gives `None` for both outcomes. No default rule reaches that case (EventRules.DefaultRulesDays).
- Holidays are compared as `yyyy-MM-dd` text, as the source does. So a date in year 0 and the same day in year 1 count as the same holiday (DateFormat.IsoDateEraClash). DateCalculations.IsHolidayIsMembership states the comparison as list membership only from year 1 on.
- DateFormat.ReadCompactDate: reads back only four-digit years. The round trips are stated for years 1 to 9999.
- IcsGenerator.IcsSplitsIntoLines: requires that no event id holds a carriage return. Ids are the only unescaped free text in the feed.
- CsvGenerator.CsvSplitsIntoLines: requires that no name or notes hold a line feed, because the exporter does not quote them away. Records from the free-text parser never hold one (EventParser.ParsedFieldsSingleLine).
- RFC 5545 line folding at 75 octets (section 3.1) and RFC 4180 quote doubling (section 2, rule 7) are not modelled, because the code does neither. CsvGenerator.QuotesAreNotEscaped shows what the missing quote doubling causes.
- IcsGenerator.EscapeIsEscapedText: the escaping's shape admits the pair `\r`, which RFC 5545 lacks, and lets every control character other than LF and CR through raw, as `escapeICSText` does. The output is RFC 5545 TEXT only for input with no CR and no control character other than HTAB and LF (IcsGenerator.EscapeIsRfcTextIff).
