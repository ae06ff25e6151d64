/** Regular weekly business hours: one record per weekday, its validator
    and its open-at-instant test. */
module Hours {
  import opened Base
  import opened Clock

  /** One weekday's regular hours. `dayOfWeek` is 0 (Monday) .. 6 (Sunday).
      The open and close times are mandatory columns; the break ends are
      optional and a break takes effect only when both are set. */
  datatype BusinessHours = BusinessHours(
    dayOfWeek: int,
    openTime: Minute,
    closeTime: Minute,
    isClosed: bool,
    breakStart: Option<Minute>,
    breakEnd: Option<Minute>)

  /** Column defaults: open 09:00, close 18:00. */
  const DefaultOpen: Minute := 9 * MinutesPerHour
  const DefaultClose: Minute := 18 * MinutesPerHour

  /** The error `clean()` raises, in the order it checks them. */
  datatype HoursError =
    | OpenNotBeforeClose
    | BreakStartNotBeforeEnd
    | BreakBeforeOpen
    | BreakAfterClose

  predicate HasBreak(h: BusinessHours) {
    h.breakStart.Some? && h.breakEnd.Some?
  }

  /** Position `p` lies in the break `[breakStart, breakEnd)`. */
  predicate InBreak(h: BusinessHours, p: int) {
    HasBreak(h) && h.breakStart.value <= p < h.breakEnd.value
  }

  /** The record invariant: a day that is not closed has a non-empty
      interval, and its break, if any, is a non-empty part of it. */
  predicate WellFormed(h: BusinessHours) {
    || h.isClosed
    || (&& h.openTime < h.closeTime
        && (HasBreak(h) ==>
              h.openTime <= h.breakStart.value < h.breakEnd.value <= h.closeTime))
  }

  /** `BusinessHours.clean`: a closed day is never checked; otherwise the
      first violated rule is reported. */
  function Clean(h: BusinessHours): (r: Outcome<HoursError>)
    ensures r == Pass <==> WellFormed(h)
    ensures h.isClosed ==> r == Pass
    ensures r == Fail(OpenNotBeforeClose) <==> !h.isClosed && h.closeTime <= h.openTime
    ensures r == Fail(BreakStartNotBeforeEnd)
            <==> !h.isClosed && h.openTime < h.closeTime && HasBreak(h)
                 && h.breakEnd.value <= h.breakStart.value
    ensures r == Fail(BreakBeforeOpen)
            <==> !h.isClosed && h.openTime < h.closeTime && HasBreak(h)
                 && h.breakStart.value < h.breakEnd.value && h.breakStart.value < h.openTime
    ensures r == Fail(BreakAfterClose)
            <==> !h.isClosed && h.openTime < h.closeTime && HasBreak(h)
                 && h.openTime <= h.breakStart.value < h.breakEnd.value && h.closeTime < h.breakEnd.value
  {
    if h.isClosed then Pass
    else if h.openTime >= h.closeTime then Fail(OpenNotBeforeClose)
    else if HasBreak(h) then
      if h.breakStart.value >= h.breakEnd.value then Fail(BreakStartNotBeforeEnd)
      else if h.breakStart.value < h.openTime then Fail(BreakBeforeOpen)
      else if h.breakEnd.value > h.closeTime then Fail(BreakAfterClose)
      else Pass
    else Pass
  }

  /** `BusinessHours.is_open_at`. */
  function IsOpenAt(h: BusinessHours, t: Minute): (r: bool)
    ensures h.isClosed ==> !r
    ensures r ==> h.openTime <= t < h.closeTime && !InBreak(h, t)
  {
    if h.isClosed then false
    else if !(h.openTime <= t < h.closeTime) then false
    else if InBreak(h, t) then false
    else true
  }

  /** On a day that is not closed, the open instants are exactly the
      interval minus the break: the close time is exclusive, the break
      start is closed, and the break end is open again. */
  lemma IsOpenAtCharacterized(h: BusinessHours, t: Minute)
    requires !h.isClosed
    ensures IsOpenAt(h, t) <==> h.openTime <= t < h.closeTime && !InBreak(h, t)
    ensures HasBreak(h) && t == h.breakEnd.value && t < h.closeTime && h.openTime <= t
            ==> IsOpenAt(h, t)
  {
  }

  /** Without a break, every instant of `[open, close)` is open and no other. */
  lemma IsOpenAtWithoutBreak(h: BusinessHours)
    requires !h.isClosed && !HasBreak(h) && h.openTime < h.closeTime
    ensures forall t: Minute :: IsOpenAt(h, t) <==> h.openTime <= t < h.closeTime
  {
  }

  /** Open after close and open equal to close are rejected; a reversed
      break, a break starting before opening and a break ending after
      closing each get their own error; a closed day with reversed times
      passes. */
  lemma CleanExamples()
    ensures Clean(BusinessHours(0, At(18, 0), At(9, 0), false, None, None)) == Fail(OpenNotBeforeClose)
    ensures Clean(BusinessHours(0, At(9, 0), At(9, 0), false, None, None)) == Fail(OpenNotBeforeClose)
    ensures Clean(BusinessHours(0, At(9, 0), At(18, 0), false, Some(At(14, 0)), Some(At(13, 0))))
            == Fail(BreakStartNotBeforeEnd)
    ensures Clean(BusinessHours(0, At(9, 0), At(18, 0), false, Some(At(8, 0)), Some(At(9, 30))))
            == Fail(BreakBeforeOpen)
    ensures Clean(BusinessHours(0, At(9, 0), At(18, 0), false, Some(At(17, 0)), Some(At(19, 0))))
            == Fail(BreakAfterClose)
    ensures Clean(BusinessHours(0, At(18, 0), At(9, 0), true, None, None)) == Pass
  {
  }

  /** The Monday fixture: 09:00-18:00 with a 13:00-14:00 break. */
  lemma IsOpenAtExamples()
    ensures var h := BusinessHours(0, At(9, 0), At(18, 0), false, Some(At(13, 0)), Some(At(14, 0)));
            && IsOpenAt(h, At(10, 0)) && IsOpenAt(h, At(15, 0))
            && !IsOpenAt(h, At(8, 0)) && !IsOpenAt(h, At(18, 0)) && !IsOpenAt(h, At(19, 0))
            && !IsOpenAt(h, At(13, 0)) && !IsOpenAt(h, At(13, 30)) && !IsOpenAt(h, At(13, 59))
            && IsOpenAt(h, At(14, 0))
    ensures !IsOpenAt(BusinessHours(6, DefaultOpen, DefaultClose, true, None, None), At(12, 0))
  {
  }

  /** The storage constraint: at most one record per weekday. */
  predicate UniqueWeekdays(table: seq<BusinessHours>) {
    forall i, j :: 0 <= i < |table| && 0 <= j < |table| && table[i].dayOfWeek == table[j].dayOfWeek
                   ==> i == j
  }

  /** The resolver's lookup (`objects.get(day_of_week=...)`). */
  function HoursFor(table: seq<BusinessHours>, weekday: int): (r: Option<BusinessHours>)
    ensures r.Some? ==> r.value in table && r.value.dayOfWeek == weekday
    ensures r.None? <==> forall h :: h in table ==> h.dayOfWeek != weekday
  {
    FindFirst(table, (h: BusinessHours) => h.dayOfWeek == weekday)
  }

  /** The dashboard's lookup: a dictionary keyed by weekday built from the
      table, so the last record per weekday is kept. */
  function HoursByDay(table: seq<BusinessHours>, weekday: int): (r: Option<BusinessHours>)
    ensures r.Some? ==> r.value in table && r.value.dayOfWeek == weekday
    ensures r.None? <==> forall h :: h in table ==> h.dayOfWeek != weekday
  {
    FindLast(table, (h: BusinessHours) => h.dayOfWeek == weekday)
  }

  /** Under the unique-weekday constraint both lookups find the same record. */
  lemma LookupsAgree(table: seq<BusinessHours>, weekday: int)
    requires UniqueWeekdays(table)
    ensures HoursFor(table, weekday) == HoursByDay(table, weekday)
  {
    var p := (h: BusinessHours) => h.dayOfWeek == weekday;
    assert AtMostOne(table, p);
    FirstIsLastWhenUnique(table, p);
  }
}
