/**
 * The records of types/calendar.ts: the structured `EventRule` of the rule
 * table and the `CalendarEvent` every generator produces and every exporter
 * consumes. The UI-only `color` of an event is not modelled.
 */
module CalendarTypes {
  import opened Wrappers
  import opened Calendar

  /** `EventRule.type`. */
  datatype RuleType = FirstWorkingDayRule | SpecificDayRule | NthDayRule | CustomRule

  /** `EventRule.weekendBehavior`. */
  datatype WeekendBehavior = ShiftNextWorkingDay | ShiftPreviousFriday | NoShift

  datatype EventRule = EventRule(
    id: string,
    name: string,
    kind: RuleType,
    dayOfMonth: Option<int>,
    weekendBehavior: WeekendBehavior,
    description: string)

  /** `notes` is optional in the source; `None` stands for `undefined`. */
  datatype CalendarEvent = CalendarEvent(
    id: string,
    ruleName: string,
    date: Date,
    month: int,
    year: int,
    notes: Option<string>)
}
