/**
 * lib/eventRules.ts: the table of default business rules, and what the
 * structured calculator makes of it.
 */
module EventRules {
  import opened Wrappers
  import opened Calendar
  import opened CalendarTypes
  import opened DateCalculations

  /** `DEFAULT_RULES`, in table order. */
  const DefaultRules: seq<EventRule> := [
    EventRule("na-monthend", "NA Monthend", FirstWorkingDayRule, None, ShiftNextWorkingDay,
      "First working day of every month"),
    EventRule("eu-monthend", "EU Monthend", SpecificDayRule, Some(2), NoShift,
      "2nd of every month, no holiday shifting"),
    EventRule("eu-revenue", "EU Revenue Allocations", SpecificDayRule, Some(12), ShiftNextWorkingDay,
      "12th of every month, if weekend then next Monday"),
    EventRule("global-imprs", "GLOBAL IMPRS", SpecificDayRule, Some(13), ShiftNextWorkingDay,
      "13th of every month, if weekend then next working day"),
    EventRule("na-fv", "NA F&V allocations", SpecificDayRule, Some(15), NoShift,
      "15th of every month, no holiday shifting"),
    EventRule("eu-fv", "EU F&V allocations", SpecificDayRule, Some(19), NoShift,
      "19th of every month, no holiday shifting"),
    EventRule("img-allocations", "IMG Allocations and adjustments", SpecificDayRule, Some(15), NoShift,
      "15th of every month, no holiday shifting"),
    EventRule("eu-cost", "EU cost corrections", SpecificDayRule, Some(9), ShiftPreviousFriday,
      "Runs every 9th, if weekend runs on previous Friday"),
    EventRule("money-currency", "Money currency update", SpecificDayRule, Some(1), NoShift,
      "First of every month"),
    EventRule("eu-dealer", "EU Dealer price extract", SpecificDayRule, Some(1), NoShift,
      "1st of every month")
  ]

  /** Ten rules, no two with the same id. */
  lemma DefaultRulesDistinctIds()
    ensures |DefaultRules| == 10
    ensures forall i, j :: 0 <= i < j < |DefaultRules| ==> DefaultRules[i].id != DefaultRules[j].id
  {
  }

  /** The first rule, `na-monthend`, is the only first-working-day rule;
      every other rule is a specific-day rule. */
  lemma DefaultRulesKinds()
    ensures forall i :: 0 <= i < |DefaultRules| ==>
      (DefaultRules[i].kind == FirstWorkingDayRule <==> DefaultRules[i].id == "na-monthend")
    ensures forall i :: 0 <= i < |DefaultRules| && DefaultRules[i].kind != FirstWorkingDayRule ==>
      DefaultRules[i].kind == SpecificDayRule
  {
  }

  /** Every specific-day rule names its day, one of 1, 2, 9, 12, 13, 15 and
      19, so one that exists in every month. */
  lemma DefaultRulesDays()
    ensures forall i :: 0 <= i < |DefaultRules| && DefaultRules[i].kind == SpecificDayRule ==>
      DefaultRules[i].dayOfMonth.Some? && DefaultRules[i].dayOfMonth.value in {1, 2, 9, 12, 13, 15, 19}
    ensures forall i :: 0 <= i < |DefaultRules| && DefaultRules[i].kind == SpecificDayRule ==>
      1 <= DefaultRules[i].dayOfMonth.value <= 28
  {
  }

  /** `eu-cost` alone shifts back to Friday; `na-monthend`, `eu-revenue` and
      `global-imprs` shift forward; the rest do not shift. */
  lemma DefaultRulesBehaviours()
    ensures forall i :: 0 <= i < |DefaultRules| ==>
      (DefaultRules[i].weekendBehavior == ShiftPreviousFriday <==> DefaultRules[i].id == "eu-cost")
    ensures forall i :: 0 <= i < |DefaultRules| ==>
      (DefaultRules[i].weekendBehavior == ShiftNextWorkingDay <==>
        DefaultRules[i].id in {"na-monthend", "eu-revenue", "global-imprs"})
  {
  }

  /** For these rules `new Date(year, month, dayOfMonth)` never rolls over. */
  lemma DefaultRulesBaseDate(year: int, month: int, i: int)
    requires 0 <= month < 12 && 0 <= i < |DefaultRules|
    requires DefaultRules[i].kind == SpecificDayRule
    ensures var day := DefaultRules[i].dayOfMonth.value;
      MakeDate(year, month, day) == CivilDate(FullYear(year), month, day)
  {
    DefaultRulesDays();
    MakeDateInRange(year, month, DefaultRules[i].dayOfMonth.value);
  }

  /** Without holidays, a specific-day rule whose shift cannot cross a
      month boundary gives a date in the requested month. */
  lemma SpecificDayStaysInMonth(year: int, month: int, rule: EventRule)
    requires 0 <= month < 12 && rule.kind == SpecificDayRule && rule.dayOfMonth.Some?
    requires 1 <= rule.dayOfMonth.value <= 28
    requires rule.weekendBehavior == ShiftPreviousFriday ==> rule.dayOfMonth.value >= 3
    requires rule.weekendBehavior == ShiftNextWorkingDay ==> rule.dayOfMonth.value <= 26
    ensures var r := CalculateEventDate(year, month, rule, []);
      r.Some? && r.value.year == FullYear(year) && r.value.month == month
  {
    var day := rule.dayOfMonth.value;
    var base := CivilDate(FullYear(year), month, day);
    MakeDateInRange(year, month, day);
    SpecificDayRuleDate(year, month, rule, []);
    if rule.weekendBehavior == ShiftPreviousFriday {
      if Weekday(base) == 0 {
        AddDaysWithinMonth(base, -2);
      } else if Weekday(base) == 6 {
        AddDaysWithinMonth(base, -1);
      }
    } else if rule.weekendBehavior == ShiftNextWorkingDay {
      if Weekday(base) == 0 {
        AddDaysWithinMonth(base, 1);
      } else if Weekday(base) == 6 {
        AddDaysWithinMonth(base, 2);
      } else {
        NextWorkingDayFacts(base, []);
      }
    }
  }

  /** Without holidays, every default rule gives a date in the requested
      month, and no date of a shifting rule is a weekend day. */
  lemma DefaultRulesStayInMonth(year: int, month: int, i: int)
    requires 0 <= month < 12 && 0 <= i < |DefaultRules|
    ensures var r := CalculateEventDate(year, month, DefaultRules[i], []);
      r.Some? && r.value.year == FullYear(year) && r.value.month == month
    ensures DefaultRules[i].weekendBehavior != NoShift ==>
      !IsWeekend(CalculateEventDate(year, month, DefaultRules[i], []).value)
  {
    var rule := DefaultRules[i];
    DefaultRulesKinds();
    DefaultRulesDays();
    if rule.kind == FirstWorkingDayRule {
      FirstWorkingDayRuleDate(year, month, rule, []);
    } else {
      assert rule.weekendBehavior == ShiftPreviousFriday ==> rule.dayOfMonth.value == 9;
      assert rule.weekendBehavior == ShiftNextWorkingDay ==> rule.dayOfMonth.value <= 13;
      SpecificDayStaysInMonth(year, month, rule);
      if rule.weekendBehavior != NoShift {
        ShiftedDatesAreWeekdays(year, month, rule, []);
      }
    }
  }
}
