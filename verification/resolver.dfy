/** Whether the business is open at a given date and time, and why: the
    four-tier resolver behind the "is open now" status, and the simpler
    status shown on the weekly-hours dashboard. */
module Resolver {
  import opened Base
  import opened Clock
  import opened Hours
  import opened Exceptions

  /** Why the resolver answered as it did: an exception record's own text
      (an override's reason or a special day's name), or one of the fixed
      weekly-hours messages. */
  datatype Reason =
    | Label(text: string)
    | ClosedToday
    | RegularHours
    | OutsideBusinessHours
    | NoHoursConfigured

  datatype Status = Status(isOpen: bool, reason: Reason)

  /** Everything the resolver reads for one hub, already loaded with the
      soft-deleted records removed: overrides in storage order (latest start
      date first), special days in date order. */
  datatype Schedule = Schedule(
    hours: seq<BusinessHours>,
    specials: seq<SpecialDay>,
    overrides: seq<ScheduleOverride>)

  /** The verdict an exception record gives, shared by overrides and special
      days; None when the record is transparent. */
  function WindowStatus(w: Window, text: string, t: Minute): (r: Option<Status>)
    ensures r.Some? <==> Decisive(w)
    ensures r.Some? ==> r.value.reason == Label(text)
    ensures r.Some? ==> (r.value.isOpen <==> !w.isClosed && WindowContains(w, t))
  {
    if w.isClosed then Some(Status(false, Label(text)))
    else if HasInterval(w) then Some(Status(w.openTime.value <= t < w.closeTime.value, Label(text)))
    else None
  }

  /** Tier 1: the first override covering the date, when it decides. */
  function OverrideTier(overrides: seq<ScheduleOverride>, d: Date, t: Minute): (r: Option<Status>)
    ensures r.None? <==> || (forall o :: o in overrides ==> !Covers(o, d))
                         || !Decisive(OverrideWindow(FindOverride(overrides, d).value))
    ensures r.Some? ==> exists o :: && o in overrides && Covers(o, d) && Decisive(OverrideWindow(o))
                                    && r.value.reason == Label(o.reason)
                                    && (r.value.isOpen <==> !o.isClosed && WindowContains(OverrideWindow(o), t))
  {
    match FindOverride(overrides, d)
    case Some(o) => WindowStatus(OverrideWindow(o), o.reason, t)
    case None => None
  }

  /** Tier 2: the first special day dated exactly on the date, when it decides. */
  function ExactTier(specials: seq<SpecialDay>, d: Date, t: Minute): (r: Option<Status>)
    ensures r.None? <==> || (forall s :: s in specials ==> s.date != d)
                         || !Decisive(SpecialWindow(FindExactSpecial(specials, d).value))
    ensures r.Some? ==> exists s :: && s in specials && s.date == d && Decisive(SpecialWindow(s))
                                    && r.value.reason == Label(s.name)
                                    && (r.value.isOpen <==> !s.isClosed && WindowContains(SpecialWindow(s), t))
  {
    match FindExactSpecial(specials, d)
    case Some(s) => WindowStatus(SpecialWindow(s), s.name, t)
    case None => None
  }

  /** Tier 3: the first yearly-recurring special day on the date's month and
      day, when it decides. */
  function RecurringTier(specials: seq<SpecialDay>, d: Date, t: Minute): (r: Option<Status>)
    ensures r.None? <==> || (forall s :: s in specials ==> !RecursOn(s, d))
                         || !Decisive(SpecialWindow(FindRecurringSpecial(specials, d).value))
    ensures r.Some? ==> exists s :: && s in specials && RecursOn(s, d) && Decisive(SpecialWindow(s))
                                    && r.value.reason == Label(s.name)
                                    && (r.value.isOpen <==> !s.isClosed && WindowContains(SpecialWindow(s), t))
  {
    match FindRecurringSpecial(specials, d)
    case Some(s) => WindowStatus(SpecialWindow(s), s.name, t)
    case None => None
  }

  /** Every override has a non-empty reason and every special day a
      non-empty name. Django's field validation requires both, but only for
      records saved through it, so this is a hypothesis, not an invariant. */
  predicate Labelled(c: Schedule) {
    && (forall o :: o in c.overrides ==> o.reason != "")
    && (forall s :: s in c.specials ==> s.name != "")
  }

  /** Tier 4: the weekday's regular hours. */
  function WeeklyTier(hours: seq<BusinessHours>, weekday: int, t: Minute): (r: Status)
    ensures !r.reason.Label?
    ensures r.isOpen <==> r.reason == RegularHours
    ensures r.reason == NoHoursConfigured <==> HoursFor(hours, weekday).None?
    ensures r.reason == ClosedToday <==> HoursFor(hours, weekday).Some? && HoursFor(hours, weekday).value.isClosed
    ensures HoursFor(hours, weekday).Some? ==> r.isOpen == IsOpenAt(HoursFor(hours, weekday).value, t)
  {
    match HoursFor(hours, weekday)
    case None => Status(false, NoHoursConfigured)
    case Some(h) =>
      var open := IsOpenAt(h, t);
      if h.isClosed then Status(open, ClosedToday)
      else if open then Status(true, RegularHours)
      else Status(false, OutsideBusinessHours)
  }

  /** Some record that applies to the date has an interval containing `t`:
      a covering override, a special day on the date or recurring on it, or
      the weekday's regular hours. */
  ghost predicate OpenSomewhere(c: Schedule, d: Date, weekday: int, t: Minute) {
    || (exists o :: o in c.overrides && Covers(o, d) && !o.isClosed && WindowContains(OverrideWindow(o), t))
    || (exists s :: s in c.specials && (s.date == d || RecursOn(s, d))
                    && !s.isClosed && WindowContains(SpecialWindow(s), t))
    || (exists h :: h in c.hours && h.dayOfWeek == weekday && IsOpenAt(h, t))
  }

  /** The resolver of the "is open now" status: the first tier that decides
      wins, in the order override, exact special day, recurring special day,
      regular hours. */
  function IsOpenNow(c: Schedule, d: Date, weekday: int, t: Minute): (r: Status)
    ensures r.isOpen ==> OpenSomewhere(c, d, weekday, t)
    ensures r.reason.Label? <==> || OverrideTier(c.overrides, d, t).Some?
                                 || ExactTier(c.specials, d, t).Some?
                                 || RecurringTier(c.specials, d, t).Some?
    ensures Labelled(c) ==> r.reason != Label("")
  {
    match OverrideTier(c.overrides, d, t)
    case Some(v) => v
    case None =>
      match ExactTier(c.specials, d, t)
      case Some(v) => v
      case None =>
        match RecurringTier(c.specials, d, t)
        case Some(v) => v
        case None => WeeklyTier(c.hours, weekday, t)
  }

  /** A closed override covering the date closes the business, with the
      override's reason, whatever the special days and regular hours say. */
  lemma ClosedOverrideWins(c: Schedule, d: Date, weekday: int, t: Minute, o: ScheduleOverride)
    requires FindOverride(c.overrides, d) == Some(o) && o.isClosed
    ensures IsOpenNow(c, d, weekday, t) == Status(false, Label(o.reason))
  {
  }

  /** An override with both times decides by its own interval. */
  lemma OverrideIntervalWins(c: Schedule, d: Date, weekday: int, t: Minute, o: ScheduleOverride)
    requires FindOverride(c.overrides, d) == Some(o) && !o.isClosed
    requires o.openTime.Some? && o.closeTime.Some?
    ensures IsOpenNow(c, d, weekday, t)
            == Status(o.openTime.value <= t < o.closeTime.value, Label(o.reason))
  {
  }

  /** An override that is neither closed nor carries both times is ignored:
      the answer is the one given without any overrides. */
  lemma TransparentOverride(c: Schedule, d: Date, weekday: int, t: Minute, o: ScheduleOverride)
    requires FindOverride(c.overrides, d) == Some(o) && !Decisive(OverrideWindow(o))
    ensures IsOpenNow(c, d, weekday, t) == IsOpenNow(c.(overrides := []), d, weekday, t)
  {
  }

  /** A deciding special day dated exactly on the date is used before any
      recurring one: special days stored after it cannot change the answer. */
  lemma ExactBeforeRecurring(c: Schedule, d: Date, weekday: int, t: Minute, s: SpecialDay,
                             later: seq<SpecialDay>)
    requires OverrideTier(c.overrides, d, t).None?
    requires FindExactSpecial(c.specials, d) == Some(s) && Decisive(SpecialWindow(s))
    ensures IsOpenNow(c, d, weekday, t) == WindowStatus(SpecialWindow(s), s.name, t).value
    ensures IsOpenNow(c.(specials := c.specials + later), d, weekday, t) == IsOpenNow(c, d, weekday, t)
  {
    var p := (x: SpecialDay) => x.date == d;
    var all := c.specials + later;
    var i :| 0 <= i < |c.specials| && c.specials[i] == s && p(c.specials[i])
             && forall j :: 0 <= j < i ==> !p(c.specials[j]);
    assert all[i] == s;
    assert forall j :: 0 <= j < i ==> all[j] == c.specials[j];
    var f := FindExactSpecial(all, d);
    assert f.Some?;
    var k :| 0 <= k < |all| && all[k] == f.value && p(all[k]) && forall j :: 0 <= j < k ==> !p(all[j]);
    assert k == i;
  }

  /** A special day dated today that is neither closed nor has both times
      is ignored: the recurring tier, and after it the regular hours, answer. */
  lemma TransparentExactSpecial(c: Schedule, d: Date, weekday: int, t: Minute, s: SpecialDay)
    requires OverrideTier(c.overrides, d, t).None?
    requires FindExactSpecial(c.specials, d) == Some(s) && !Decisive(SpecialWindow(s))
    ensures IsOpenNow(c, d, weekday, t)
            == (if RecurringTier(c.specials, d, t).Some? then RecurringTier(c.specials, d, t).value
                else WeeklyTier(c.hours, weekday, t))
  {
  }

  /** When neither an override nor a special day dated today decides, a
      deciding yearly-recurring special day gives its own verdict and its
      name. */
  lemma RecurringDecides(c: Schedule, d: Date, weekday: int, t: Minute, s: SpecialDay)
    requires OverrideTier(c.overrides, d, t).None?
    requires ExactTier(c.specials, d, t).None?
    requires FindRecurringSpecial(c.specials, d) == Some(s) && Decisive(SpecialWindow(s))
    ensures IsOpenNow(c, d, weekday, t)
            == Status(!s.isClosed && WindowContains(SpecialWindow(s), t), Label(s.name))
  {
  }

  /** When no exception record decides, the regular hours do: open exactly
      when the weekday's record is open at `t`, with the fixed messages. */
  lemma WeeklyFallback(c: Schedule, d: Date, weekday: int, t: Minute)
    requires OverrideTier(c.overrides, d, t).None?
    requires ExactTier(c.specials, d, t).None?
    requires RecurringTier(c.specials, d, t).None?
    ensures var r := IsOpenNow(c, d, weekday, t);
            && (HoursFor(c.hours, weekday).None? ==> r == Status(false, NoHoursConfigured))
            && (HoursFor(c.hours, weekday).Some? && HoursFor(c.hours, weekday).value.isClosed
                ==> r == Status(false, ClosedToday))
            && (HoursFor(c.hours, weekday).Some? && !HoursFor(c.hours, weekday).value.isClosed
                ==> r == (if IsOpenAt(HoursFor(c.hours, weekday).value, t)
                          then Status(true, RegularHours) else Status(false, OutsideBusinessHours)))
  {
  }

  /** A hub with no records at all is closed, with "no hours configured". */
  lemma EmptyScheduleIsClosed(d: Date, weekday: int, t: Minute)
    ensures IsOpenNow(Schedule([], [], []), d, weekday, t) == Status(false, NoHoursConfigured)
  {
  }

  /** An override closing the whole holiday week beats a special day that
      opens on Christmas Eve. */
  lemma OverrideBeatsSpecialExample()
    ensures var c := Schedule(
              [BusinessHours(3, At(9, 0), At(18, 0), false, None, None)],
              [SpecialDay(Date(2026, 12, 24), "Christmas Eve", false, Some(At(9, 0)), Some(At(14, 0)), false, "")],
              [ScheduleOverride(Date(2026, 12, 20), Date(2026, 12, 31), "Holiday closure", None, None, true)]);
            IsOpenNow(c, Date(2026, 12, 24), 3, At(10, 0)) == Status(false, Label("Holiday closure"))
  {
  }

  /** A recurring special day applies in every year on its month and day, and
      on no other day. */
  lemma RecurringExampleResolves()
    ensures var c := Schedule([], [SpecialDay(Date(2026, 12, 25), "Christmas", true, None, None, true, "")], []);
            && IsOpenNow(c, Date(2027, 12, 25), 5, At(12, 0)) == Status(false, Label("Christmas"))
            && IsOpenNow(c, Date(2025, 12, 25), 3, At(12, 0)) == Status(false, Label("Christmas"))
            && IsOpenNow(c, Date(2026, 12, 24), 3, At(12, 0)) == Status(false, NoHoursConfigured)
  {
    var xmas := SpecialDay(Date(2026, 12, 25), "Christmas", true, None, None, true, "");
    RecurringExample();
    assert FindExactSpecial([xmas], Date(2027, 12, 25)).None?;
    assert FindExactSpecial([xmas], Date(2025, 12, 25)).None?;
    assert FindExactSpecial([xmas], Date(2026, 12, 24)).None?;
  }

  // ---------------------------------------------------------------------
  // Dashboard status
  // ---------------------------------------------------------------------

  /** Lay an exception record over the status below it: a closed record
      closes, a record with both times decides by its interval, any other
      record leaves the status below unchanged. */
  function Overlay(w: Option<Window>, below: bool, t: Minute): (r: bool)
    ensures w.None? || !Decisive(w.value) ==> r == below
    ensures w.Some? && Decisive(w.value) ==> (r <==> !w.value.isClosed && WindowContains(w.value, t))
  {
    match w
    case None => below
    case Some(w) =>
      if w.isClosed then false
      else if HasInterval(w) then w.openTime.value <= t < w.closeTime.value
      else below
  }

  function SpecialWindowOf(s: Option<SpecialDay>): Option<Window> {
    match s
    case Some(s) => Some(SpecialWindow(s))
    case None => None
  }

  function OverrideWindowOf(o: Option<ScheduleOverride>): Option<Window> {
    match o
    case Some(o) => Some(OverrideWindow(o))
    case None => None
  }

  /** The dashboard's open flag: regular hours, then today's special day laid
      over them, then the covering override laid over that. Recurring special
      days are not consulted. */
  function DashboardIsOpen(c: Schedule, d: Date, weekday: int, t: Minute): (r: bool)
    ensures FindOverride(c.overrides, d).Some? && Decisive(OverrideWindow(FindOverride(c.overrides, d).value))
            ==> (r <==> OverrideTier(c.overrides, d, t).value.isOpen)
    ensures r ==> OpenSomewhere(c, d, weekday, t)
  {
    var today := HoursByDay(c.hours, weekday);
    var regular := today.Some? && !today.value.isClosed && IsOpenAt(today.value, t);
    var afterSpecial := Overlay(SpecialWindowOf(FindExactSpecial(c.specials, d)), regular, t);
    Overlay(OverrideWindowOf(FindOverride(c.overrides, d)), afterSpecial, t)
  }

  /** The dashboard and the resolver agree on the open flag whenever the
      recurring tier does not decide the resolver's answer, given at most one
      regular-hours record per weekday. */
  lemma DashboardAgreesWithResolver(c: Schedule, d: Date, weekday: int, t: Minute)
    requires UniqueWeekdays(c.hours)
    requires || OverrideTier(c.overrides, d, t).Some?
             || ExactTier(c.specials, d, t).Some?
             || RecurringTier(c.specials, d, t).None?
    ensures DashboardIsOpen(c, d, weekday, t) == IsOpenNow(c, d, weekday, t).isOpen
  {
    LookupsAgree(c.hours, weekday);
  }

  /** The two can disagree: a Christmas recorded in 2025 as closed and
      recurring closes the business on Christmas 2026 for the resolver, while
      the dashboard still shows the Friday's regular hours as open. */
  lemma DashboardIgnoresRecurring()
    ensures var c := Schedule(
              [BusinessHours(4, At(9, 0), At(18, 0), false, None, None)],
              [SpecialDay(Date(2025, 12, 25), "Christmas", true, None, None, true, "")],
              []);
            && IsOpenNow(c, Date(2026, 12, 25), 4, At(10, 0)) == Status(false, Label("Christmas"))
            && DashboardIsOpen(c, Date(2026, 12, 25), 4, At(10, 0))
  {
  }
}
