/** Clock times and calendar dates as the schedule logic sees them. */
module Clock {

  const MinutesPerHour := 60
  const HoursPerDay := 24
  const MinutesPerDay := 1440

  /** A wall-clock time of day, seconds dropped: minutes since midnight. */
  type Minute = m: int | 0 <= m < MinutesPerDay

  /** The clock time `hour:minute`. */
  function At(hour: int, minute: int): (t: Minute)
    requires 0 <= hour < HoursPerDay && 0 <= minute < MinutesPerHour
    ensures t / MinutesPerHour == hour && t % MinutesPerHour == minute
  {
    hour * MinutesPerHour + minute
  }

  /** A calendar date; only its ordering and its month/day are used. */
  datatype Date = Date(year: int, month: int, day: int)

  /** `a <= b` in calendar order (year, then month, then day). */
  predicate OnOrBefore(a: Date, b: Date) {
    || a.year < b.year
    || (a.year == b.year && a.month < b.month)
    || (a.year == b.year && a.month == b.month && a.day <= b.day)
  }

  /** `a < b` in calendar order. */
  predicate Before(a: Date, b: Date) {
    OnOrBefore(a, b) && a != b
  }

  /** Same month and day, any year: how a yearly-recurring date matches. */
  predicate SameMonthDay(a: Date, b: Date) {
    a.month == b.month && a.day == b.day
  }

  /** Calendar order is a total order, and `Before` is its strict part. */
  lemma DateOrder(a: Date, b: Date, c: Date)
    ensures OnOrBefore(a, a)
    ensures OnOrBefore(a, b) && OnOrBefore(b, a) ==> a == b
    ensures OnOrBefore(a, b) && OnOrBefore(b, c) ==> OnOrBefore(a, c)
    ensures OnOrBefore(a, b) || OnOrBefore(b, a)
    ensures Before(a, b) <==> !OnOrBefore(b, a)
  {
  }
}
