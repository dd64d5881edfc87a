/** `determineEventTime`: an application period and an activity period become
    one (start, end) pair, or nothing.

    The application end wins whenever it parses. A bare deadline (time of day
    00:00) means 18:00 that day; a start on the same date is kept, otherwise
    the window opens on the deadline's own date at 00:01 (deadline at or
    before 09:xx) or 09:00. Without an application end, the activity start is
    used; the end is the activity end when it falls on the same date, otherwise
    23:59 (start at 18:00 or later) or 18:00 that day. A pair whose start is
    after its end is dropped.

    The source binds the parsed activity start with `const` and then assigns
    to it when its time of day is 00:00, so that branch throws a TypeError
    instead of moving the start to 09:00. ResolveAsWritten keeps that
    behaviour (AssignmentToConstant); Resolve is the intended rewrite. */
module EventTime {
  import opened Wrappers
  import opened DateTimes
  import opened DateParsing
  import opened Records

  datatype Resolution =
    | Resolved(start: Instant, end: Instant)
    | Unresolvable
    | AssignmentToConstant  // the TypeError thrown by assigning to a `const`

  /** A bare deadline date means "by the end of business": 00:00 becomes 18:00. */
  function Deadline(end: Instant): Instant {
    if IsMidnight(end) then WithTime(end, 18, 0) else end
  }

  /** The start synthesised from a deadline: its date at 00:01 when the deadline
      hour is at most 9, otherwise at 09:00. */
  function OpeningOf(end: Instant): Instant {
    if end.hour <= 9 then WithTime(end, 0, 1) else WithTime(end, 9, 0)
  }

  /** The end synthesised from an activity start: its date at 23:59 when the
      start hour is 18 or later, otherwise at 18:00. */
  function ClosingOf(start: Instant): Instant {
    if start.hour >= 18 then WithTime(start, 23, 59) else WithTime(start, 18, 0)
  }

  /** The intended rewrite of a bare activity start date: 00:00 becomes 09:00. */
  function BusinessStart(start: Instant): Instant {
    if IsMidnight(start) then WithTime(start, 9, 0) else start
  }

  /** The application branch, before the final ordering check. */
  function FromApplication(appStart: Option<Instant>, appEnd: Instant): (Instant, Instant) {
    var end := Deadline(appEnd);
    if appStart.Some? && SameDate(appStart.value, end) then (appStart.value, end)
    else (OpeningOf(end), end)
  }

  /** The activity branch, before the final ordering check. */
  function FromActivity(start: Instant, actEnd: Option<Instant>): (Instant, Instant) {
    if actEnd.Some? && SameDate(start, actEnd.value) then (start, actEnd.value)
    else (start, ClosingOf(start))
  }

  /** The final check `startDt > endDt`. */
  function Ordered(pair: (Instant, Instant)): Resolution {
    if Before(pair.1, pair.0) then Unresolvable else Resolved(pair.0, pair.1)
  }

  /** The branches as the source runs them, over already-normalised bounds. */
  function ResolveAsWritten(appStart: Option<Instant>, appEnd: Option<Instant>,
                            actStart: Option<Instant>, actEnd: Option<Instant>): Resolution
  {
    if appEnd.Some? then Ordered(FromApplication(appStart, appEnd.value))
    else if actStart.Some? then
      if IsMidnight(actStart.value) then AssignmentToConstant
      else Ordered(FromActivity(actStart.value, actEnd))
    else Unresolvable
  }

  /** The branches as intended: a bare activity start date moves to 09:00. */
  function Resolve(appStart: Option<Instant>, appEnd: Option<Instant>,
                   actStart: Option<Instant>, actEnd: Option<Instant>): Resolution
  {
    if appEnd.Some? then Ordered(FromApplication(appStart, appEnd.value))
    else if actStart.Some? then Ordered(FromActivity(BusinessStart(actStart.value), actEnd))
    else Unresolvable
  }

  /** `determineEventTime` as written, on the raw calendar payload. */
  function DetermineEventTimeAsWritten(cal: CalendarData): Resolution {
    ResolveAsWritten(Normalize(cal.applicationPeriod.startTime), Normalize(cal.applicationPeriod.endTime),
                     Normalize(cal.activityPeriod.startTime), Normalize(cal.activityPeriod.endTime))
  }

  /** `determineEventTime` with the activity-start rewrite it evidently intends. */
  function DetermineEventTime(cal: CalendarData): Resolution {
    Resolve(Normalize(cal.applicationPeriod.startTime), Normalize(cal.applicationPeriod.endTime),
            Normalize(cal.activityPeriod.startTime), Normalize(cal.activityPeriod.endTime))
  }

  // ----- properties -----

  /** A synthesised opening never comes after its deadline (same date, same
      seconds, and a rewritten deadline is never at 00:00). */
  lemma OpeningPrecedesDeadline(appEnd: Instant)
    ensures SameDate(OpeningOf(Deadline(appEnd)), Deadline(appEnd))
    ensures !Before(Deadline(appEnd), OpeningOf(Deadline(appEnd)))
  {
  }

  /** A synthesised closing never comes before its start. */
  lemma ClosingFollowsStart(start: Instant)
    ensures SameDate(ClosingOf(start), start)
    ensures !Before(ClosingOf(start), start)
  {
  }

  /** Every resolved event is a well-ordered window within one calendar day,
      whichever branch produced it, and the intended resolver never throws. */
  lemma {:induction false} ResolvedWindows(appStart: Option<Instant>, appEnd: Option<Instant>,
                                           actStart: Option<Instant>, actEnd: Option<Instant>)
    ensures var r := Resolve(appStart, appEnd, actStart, actEnd);
      && !r.AssignmentToConstant?
      && (r.Resolved? ==> SameDate(r.start, r.end) && !Before(r.end, r.start))
    ensures var r := ResolveAsWritten(appStart, appEnd, actStart, actEnd);
      r.Resolved? ==> SameDate(r.start, r.end) && !Before(r.end, r.start)
  {
    if appEnd.Some? {
      OpeningPrecedesDeadline(appEnd.value);
    } else if actStart.Some? {
      ClosingFollowsStart(actStart.value);
      ClosingFollowsStart(BusinessStart(actStart.value));
    }
  }

  /** Nothing resolvable (no application end, no activity start) gives no
      event, and the ordering check can only reject a pair taken verbatim
      from the record: an application start on the deadline's date that is
      later than the deadline, or an activity end on the start's date that is
      earlier than the start. Synthesised windows are never rejected. */
  lemma {:induction false} UnresolvableExactly(appStart: Option<Instant>, appEnd: Option<Instant>,
                                               actStart: Option<Instant>, actEnd: Option<Instant>)
    ensures Resolve(appStart, appEnd, actStart, actEnd).Unresolvable? <==>
      || (appEnd.None? && actStart.None?)
      || (appEnd.Some? && appStart.Some? && SameDate(appStart.value, Deadline(appEnd.value))
          && Before(Deadline(appEnd.value), appStart.value))
      || (appEnd.None? && actStart.Some? && actEnd.Some?
          && SameDate(BusinessStart(actStart.value), actEnd.value)
          && Before(actEnd.value, BusinessStart(actStart.value)))
  {
    if appEnd.Some? {
      OpeningPrecedesDeadline(appEnd.value);
    } else if actStart.Some? {
      ClosingFollowsStart(BusinessStart(actStart.value));
    }
  }

  /** The application period takes precedence: once the application end
      parses, the activity period has no influence on the result, in either
      version of the resolver. */
  lemma ApplicationPrecedence(appStart: Option<Instant>, appEnd: Option<Instant>,
                              actStart: Option<Instant>, actEnd: Option<Instant>,
                              otherStart: Option<Instant>, otherEnd: Option<Instant>)
    requires appEnd.Some?
    ensures Resolve(appStart, appEnd, actStart, actEnd) == Resolve(appStart, appEnd, otherStart, otherEnd)
    ensures ResolveAsWritten(appStart, appEnd, actStart, actEnd) == Resolve(appStart, appEnd, otherStart, otherEnd)
  {
  }

  /** The application window: it always ends at the deadline (00:00 moved to
      18:00, seconds kept); it starts at the application start when that is on
      the deadline's date, and otherwise at 00:01 or 09:00 on the deadline's
      date, so that only the hour and minute differ from the deadline. */
  lemma ApplicationWindow(appStart: Option<Instant>, appEnd: Instant,
                          actStart: Option<Instant>, actEnd: Option<Instant>)
    ensures var r := Resolve(appStart, Some(appEnd), actStart, actEnd);
      && (r.Resolved? ==> r.end == Deadline(appEnd))
      && (IsMidnight(appEnd) ==> Deadline(appEnd).hour == 18 && Deadline(appEnd).minute == 0)
      && SameDate(Deadline(appEnd), appEnd) && Deadline(appEnd).second == appEnd.second
      && (appStart.Some? && SameDate(appStart.value, Deadline(appEnd)) && r.Resolved? ==> r.start == appStart.value)
      && (appStart.None? || !SameDate(appStart.value, Deadline(appEnd)) ==>
            && r.Resolved?
            && SameDate(r.start, appEnd) && r.start.second == appEnd.second
            && (r.start.hour, r.start.minute) == (if r.end.hour <= 9 then (0, 1) else (9, 0)))
  {
    OpeningPrecedesDeadline(appEnd);
  }

  /** The activity window, used only without an application end: it starts
      at the activity start (00:00 moved to 09:00 in the intended version) and
      ends at the activity end when that is on the same date, otherwise at
      23:59 or 18:00 of the start's date with the start's seconds. */
  lemma ActivityWindow(appStart: Option<Instant>, actStart: Instant, actEnd: Option<Instant>)
    ensures var start := BusinessStart(actStart);
      var r := Resolve(appStart, None, Some(actStart), actEnd);
      && (IsMidnight(actStart) ==> start.hour == 9 && start.minute == 0 && SameDate(start, actStart))
      && (r.Resolved? ==> r.start == start)
      && (actEnd.Some? && SameDate(start, actEnd.value) && r.Resolved? ==> r.end == actEnd.value)
      && (actEnd.None? || !SameDate(start, actEnd.value) ==>
            && r.Resolved?
            && SameDate(r.end, start) && r.end.second == start.second
            && (r.end.hour, r.end.minute) == (if start.hour >= 18 then (23, 59) else (18, 0)))
  {
    ClosingFollowsStart(BusinessStart(actStart));
  }

  /** The source as written throws exactly when there is no application end
      and the activity start is at 00:00; in every other case it agrees with
      the intended resolver. */
  lemma AsWrittenDiffersOnlyByThrowing(appStart: Option<Instant>, appEnd: Option<Instant>,
                                       actStart: Option<Instant>, actEnd: Option<Instant>)
    ensures ResolveAsWritten(appStart, appEnd, actStart, actEnd).AssignmentToConstant? <==>
      appEnd.None? && actStart.Some? && IsMidnight(actStart.value)
    ensures !ResolveAsWritten(appStart, appEnd, actStart, actEnd).AssignmentToConstant? ==>
      ResolveAsWritten(appStart, appEnd, actStart, actEnd) == Resolve(appStart, appEnd, actStart, actEnd)
  {
  }

  /** The input that shows the defect: an activity starting on 2024-12-23 with
      no time and no end. The source throws; the intended rewrite gives
      09:00 to 18:00 that day. */
  lemma MidnightActivityStartThrows()
    ensures ResolveAsWritten(None, None, Some(DateTime(2024, 12, 23, 0, 0, 0)), None) == AssignmentToConstant
    ensures Resolve(None, None, Some(DateTime(2024, 12, 23, 0, 0, 0)), None)
         == Resolved(DateTime(2024, 12, 23, 9, 0, 0), DateTime(2024, 12, 23, 18, 0, 0))
  {
  }

  /** A bare deadline with no start: 2024-12-23 00:00 becomes the window
      09:00 to 18:00 that day. */
  lemma BareDeadlineExample()
    ensures Resolve(None, Some(DateTime(2024, 12, 23, 0, 0, 0)), None, None)
         == Resolved(DateTime(2024, 12, 23, 9, 0, 0), DateTime(2024, 12, 23, 18, 0, 0))
  {
  }

  /** An application start on another date is discarded: 2024-12-01 09:00 to
      2024-12-23 18:00 becomes 09:00 to 18:00 on 2024-12-23. */
  lemma DifferentDatesExample()
    ensures Resolve(Some(DateTime(2024, 12, 1, 9, 0, 0)), Some(DateTime(2024, 12, 23, 18, 0, 0)), None, None)
         == Resolved(DateTime(2024, 12, 23, 9, 0, 0), DateTime(2024, 12, 23, 18, 0, 0))
  {
  }
}
