/** Calendar instants as the event-time resolver sees them: a luxon DateTime
    in one fixed zone, reduced to its year, month, day, hour, minute and
    second. Comparison, same-date tests and `set({hour, minute})` are the only
    operations the core performs on them. */
module DateTimes {

  predicate IsLeapYear(y: nat) {
    y % 4 == 0 && (y % 100 != 0 || y % 400 == 0)
  }

  /** Days in month `m` of year `y` in the proleptic Gregorian calendar. */
  function DaysInMonth(y: nat, m: nat): (d: nat)
    requires 1 <= m <= 12
    ensures 28 <= d <= 31
    ensures m == 2 ==> (d == 29 <==> IsLeapYear(y))
  {
    if m == 2 then (if IsLeapYear(y) then 29 else 28)
    else if m == 4 || m == 6 || m == 9 || m == 11 then 30
    else 31
  }

  /** The fields of a date-time before its validity is checked. */
  datatype DateTime = DateTime(year: nat, month: nat, day: nat, hour: nat, minute: nat, second: nat)

  /** What luxon's `isValid` demands of the fields: a real calendar date and a
      time of day between 00:00:00 and 23:59:59. */
  predicate IsValid(t: DateTime) {
    && 1 <= t.month <= 12
    && 1 <= t.day <= DaysInMonth(t.year, t.month)
    && t.hour <= 23 && t.minute <= 59 && t.second <= 59
  }

  type Instant = t: DateTime | IsValid(t) witness DateTime(1970, 1, 1, 0, 0, 0)

  /** `a.toISODate() === b.toISODate()`. */
  predicate SameDate(a: DateTime, b: DateTime) {
    a.year == b.year && a.month == b.month && a.day == b.day
  }

  /** `a < b` on the instants' epoch values: within one zone this is the
      lexicographic order of the fields. */
  predicate Before(a: DateTime, b: DateTime) {
    if a.year != b.year then a.year < b.year
    else if a.month != b.month then a.month < b.month
    else if a.day != b.day then a.day < b.day
    else if a.hour != b.hour then a.hour < b.hour
    else if a.minute != b.minute then a.minute < b.minute
    else a.second < b.second
  }

  /** Time of day 00:00, whatever the seconds: the source tests only `hour` and `minute`. */
  predicate IsMidnight(t: DateTime) {
    t.hour == 0 && t.minute == 0
  }

  /** `t.set({hour, minute})`: the date and the seconds carry over. */
  function WithTime(t: Instant, hour: nat, minute: nat): (r: Instant)
    requires hour <= 23 && minute <= 59
    ensures SameDate(r, t) && r.second == t.second
    ensures r.hour == hour && r.minute == minute
  {
    t.(hour := hour, minute := minute)
  }

  /** Before is a strict order: irreflexive and transitive, and any two
      instants are comparable. */
  lemma BeforeIsStrictTotalOrder(a: DateTime, b: DateTime, c: DateTime)
    ensures !Before(a, a)
    ensures Before(a, b) && Before(b, c) ==> Before(a, c)
    ensures a != b ==> (Before(a, b) || Before(b, a))
    ensures !(Before(a, b) && Before(b, a))
  {
  }
}
