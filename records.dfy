/** The calendar payload the classifier approves and the calendar generator
    reads back, as stored on an announcement record. */
module Records {
  import opened Wrappers

  /** A period: each bound is the raw string the classifier wrote, or None
      for null, an absent key or a non-string value. A missing period
      (`period || {}`) is a Period with both bounds None. */
  datatype Period = Period(startTime: Option<string>, endTime: Option<string>)

  datatype CalendarData = CalendarData(
    discipline: Option<string>,
    applicationPeriod: Period,
    activityPeriod: Period,
    eventType: Option<string>,
    location: Option<string>,
    description: Option<string>)

  const NoPeriod := Period(None, None)

  /** The object `{}`: every field absent. */
  const EmptyCalendar := CalendarData(None, NoPeriod, NoPeriod, None, None, None)

  /** JavaScript's `value || fallback` on a string that may be absent: the
      empty string is falsy too. */
  function OrElse(value: Option<string>, fallback: string): (r: string)
    ensures value.Some? && value.value != "" ==> r == value.value
    ensures value.None? || value.value == "" ==> r == fallback
  {
    if value.Some? && value.value != "" then value.value else fallback
  }
}
