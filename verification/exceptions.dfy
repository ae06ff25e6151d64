/** Schedule exceptions: single-date special days (optionally recurring
    every year) and date-range overrides, with their validators, the
    lookups the resolver makes, and the special-day edit. */
module Exceptions {
  import opened Base
  import opened Clock

  /** A holiday or other non-regular day. Closed unless told otherwise. */
  datatype SpecialDay = SpecialDay(
    date: Date,
    name: string,
    isClosed: bool,
    openTime: Option<Minute>,
    closeTime: Option<Minute>,
    recurringYearly: bool,
    notes: string)

  /** A temporary change for the inclusive date range `[startDate, endDate]`. */
  datatype ScheduleOverride = ScheduleOverride(
    startDate: Date,
    endDate: Date,
    reason: string,
    openTime: Option<Minute>,
    closeTime: Option<Minute>,
    isClosed: bool)

  /** The part of an exception record that decides opening: a closed flag and
      an optional interval without a break. */
  datatype Window = Window(isClosed: bool, openTime: Option<Minute>, closeTime: Option<Minute>)

  function SpecialWindow(s: SpecialDay): Window {
    Window(s.isClosed, s.openTime, s.closeTime)
  }

  function OverrideWindow(o: ScheduleOverride): Window {
    Window(o.isClosed, o.openTime, o.closeTime)
  }

  predicate HasInterval(w: Window) {
    w.openTime.Some? && w.closeTime.Some?
  }

  /** A window settles the question: it is closed, or it carries both times.
      Any other window is transparent and the next tier is consulted. */
  predicate Decisive(w: Window) {
    w.isClosed || HasInterval(w)
  }

  /** `t` lies in the window's half-open interval. */
  predicate WindowContains(w: Window, t: Minute) {
    HasInterval(w) && w.openTime.value <= t < w.closeTime.value
  }

  // ---------------------------------------------------------------------
  // Validators
  // ---------------------------------------------------------------------

  datatype SpecialDayError = TimesRequired | OpenNotBeforeClose

  /** `SpecialDay.clean`: a day that is not closed needs both times, in order. */
  function CleanSpecialDay(s: SpecialDay): (r: Outcome<SpecialDayError>)
    ensures r == Pass <==> s.isClosed || (HasInterval(SpecialWindow(s)) && s.openTime.value < s.closeTime.value)
    ensures r == Fail(TimesRequired) <==> !s.isClosed && !HasInterval(SpecialWindow(s))
    ensures r == Pass ==> Decisive(SpecialWindow(s))
  {
    if s.isClosed then Pass
    else if s.openTime.None? || s.closeTime.None? then Fail(TimesRequired)
    else if s.openTime.value >= s.closeTime.value then Fail(OpenNotBeforeClose)
    else Pass
  }

  datatype OverrideError = StartAfterEnd

  /** `ScheduleOverride.clean`: only the date order is checked; the times are
      not. */
  function CleanOverride(o: ScheduleOverride): (r: Outcome<OverrideError>)
    ensures r.Fail? <==> Before(o.endDate, o.startDate)
    ensures r == Pass <==> OnOrBefore(o.startDate, o.endDate)
  {
    DateOrder(o.startDate, o.endDate, o.endDate);
    if Before(o.endDate, o.startDate) then Fail(StartAfterEnd) else Pass
  }

  lemma ValidatorExamples()
    ensures CleanSpecialDay(SpecialDay(Date(2026, 6, 15), "Half Day", false, None, None, false, ""))
            == Fail(TimesRequired)
    ensures CleanSpecialDay(SpecialDay(Date(2026, 6, 15), "Half Day", false, Some(At(18, 0)), Some(At(9, 0)), false, ""))
            == Fail(OpenNotBeforeClose)
    ensures CleanSpecialDay(SpecialDay(Date(2026, 6, 15), "Holiday", true, None, None, false, "")) == Pass
    ensures CleanOverride(ScheduleOverride(Date(2026, 8, 31), Date(2026, 7, 1), "Invalid", None, None, false))
            == Fail(StartAfterEnd)
    ensures CleanOverride(ScheduleOverride(Date(2026, 7, 1), Date(2026, 7, 1), "Single day", None, None, false))
            == Pass
  {
  }

  // ---------------------------------------------------------------------
  // Lookups
  // ---------------------------------------------------------------------

  /** The override's inclusive range contains `d`. */
  predicate Covers(o: ScheduleOverride, d: Date) {
    OnOrBefore(o.startDate, d) && OnOrBefore(d, o.endDate)
  }

  /** A special day that applies to `d` through yearly recurrence. */
  predicate RecursOn(s: SpecialDay, d: Date) {
    s.recurringYearly && SameMonthDay(s.date, d)
  }

  /** The first override, in storage order, whose range covers `d`. */
  function FindOverride(overrides: seq<ScheduleOverride>, d: Date): (r: Option<ScheduleOverride>)
    ensures r.Some? ==> r.value in overrides && Covers(r.value, d)
    ensures r.None? <==> forall o :: o in overrides ==> !Covers(o, d)
  {
    FindFirst(overrides, (o: ScheduleOverride) => Covers(o, d))
  }

  /** The first special day dated exactly `d`. */
  function FindExactSpecial(specials: seq<SpecialDay>, d: Date): (r: Option<SpecialDay>)
    ensures r.Some? ==> r.value in specials && r.value.date == d
    ensures r.None? <==> forall s :: s in specials ==> s.date != d
  {
    FindFirst(specials, (s: SpecialDay) => s.date == d)
  }

  /** The first yearly-recurring special day on `d`'s month and day, in any year. */
  function FindRecurringSpecial(specials: seq<SpecialDay>, d: Date): (r: Option<SpecialDay>)
    ensures r.Some? ==> r.value in specials && RecursOn(r.value, d)
    ensures r.None? <==> forall s :: s in specials ==> !RecursOn(s, d)
  {
    FindFirst(specials, (s: SpecialDay) => RecursOn(s, d))
  }

  /** Christmas 2026, recurring, applies to Christmas in 2025 and 2027 but
      not to Christmas Eve. */
  lemma RecurringExample()
    ensures var xmas := SpecialDay(Date(2026, 12, 25), "Christmas", true, None, None, true, "");
            && FindRecurringSpecial([xmas], Date(2027, 12, 25)) == Some(xmas)
            && FindRecurringSpecial([xmas], Date(2025, 12, 25)) == Some(xmas)
            && FindRecurringSpecial([xmas], Date(2026, 12, 24)) == None
  {
  }

  /** The earliest special day on or after `today` (ties: first in storage
      order), as shown as "next special day". */
  function NextSpecial(specials: seq<SpecialDay>, today: Date): (r: Option<SpecialDay>)
    ensures r.None? <==> forall s :: s in specials ==> Before(s.date, today)
    ensures r.Some? ==> r.value in specials && OnOrBefore(today, r.value.date)
    ensures r.Some? ==> forall s :: s in specials && OnOrBefore(today, s.date)
                                    ==> OnOrBefore(r.value.date, s.date)
  {
    if |specials| == 0 then None
    else
      var first := specials[0];
      var rest := NextSpecial(specials[1..], today);
      assert forall s :: s in specials ==> s == first || s in specials[1..];
      DateOrder(first.date, today, today);
      if !OnOrBefore(today, first.date) then rest
      else match rest
        case None => Some(first)
        case Some(later) =>
          DateOrder(first.date, later.date, today);
          if OnOrBefore(first.date, later.date) then
            assert forall s :: s in specials && OnOrBefore(today, s.date) ==> OnOrBefore(first.date, s.date) by {
              forall s | s in specials && OnOrBefore(today, s.date)
                ensures OnOrBefore(first.date, s.date)
              {
                DateOrder(first.date, later.date, s.date);
              }
            }
            Some(first)
          else rest
  }

  // ---------------------------------------------------------------------
  // Editing a special day
  // ---------------------------------------------------------------------

  /** The fields an edit request may carry. An absent date, name, closed
      flag, recurrence flag or notes keeps the stored value; the open and
      close times are replaced outright, so an absent time clears it. */
  datatype SpecialDayPatch = SpecialDayPatch(
    date: Option<Date>,
    name: Option<string>,
    isClosed: Option<bool>,
    openTime: Option<Minute>,
    closeTime: Option<Minute>,
    recurringYearly: Option<bool>,
    notes: Option<string>)

  /** The record `edit_special_day` builds before validating it. */
  function PatchSpecialDay(s: SpecialDay, p: SpecialDayPatch): (r: SpecialDay)
    ensures r.date == (if p.date.Some? then p.date.value else s.date)
    ensures r.name == (if p.name.Some? then p.name.value else s.name)
    ensures r.isClosed == (if p.isClosed.Some? then p.isClosed.value else s.isClosed)
    ensures r.recurringYearly == (if p.recurringYearly.Some? then p.recurringYearly.value else s.recurringYearly)
    ensures r.notes == (if p.notes.Some? then p.notes.value else s.notes)
    ensures r.openTime == p.openTime && r.closeTime == p.closeTime
  {
    SpecialDay(
      Keep(p.date, s.date),
      Keep(p.name, s.name),
      Keep(p.isClosed, s.isClosed),
      p.openTime,
      p.closeTime,
      Keep(p.recurringYearly, s.recurringYearly),
      Keep(p.notes, s.notes))
  }

  /** `edit_special_day`: patch, then validate; nothing is stored when the
      validator fails. */
  function EditSpecialDay(s: SpecialDay, p: SpecialDayPatch): (r: Result<SpecialDay, SpecialDayError>)
    ensures r.Success? <==> CleanSpecialDay(PatchSpecialDay(s, p)) == Pass
    ensures r.Success? ==> r.value == PatchSpecialDay(s, p)
    ensures r.Failure? ==> CleanSpecialDay(PatchSpecialDay(s, p)) == Fail(r.error)
  {
    match CleanSpecialDay(PatchSpecialDay(s, p))
    case Pass => Success(PatchSpecialDay(s, p))
    case Fail(e) => Failure(e)
  }

  /** Applying the same edit twice stores the same record as applying it once. */
  lemma PatchIdempotent(s: SpecialDay, p: SpecialDayPatch)
    ensures PatchSpecialDay(PatchSpecialDay(s, p), p) == PatchSpecialDay(s, p)
  {
  }

  /** A request that sends every field stores exactly what it sent. */
  lemma FullPatchStoresPayload(s: SpecialDay, d: Date, name: string, closed: bool,
                               open: Option<Minute>, close: Option<Minute>, recurring: bool, notes: string)
    ensures PatchSpecialDay(s, SpecialDayPatch(Some(d), Some(name), Some(closed), open, close, Some(recurring), Some(notes)))
            == SpecialDay(d, name, closed, open, close, recurring, notes)
  {
  }

  /** Because the times are not carried over, an edit that leaves a day open
      and omits the times is rejected, even if the stored day had valid
      times. */
  lemma EditWithoutTimesOnOpenDay(s: SpecialDay, p: SpecialDayPatch)
    requires p.openTime.None? && !Keep(p.isClosed, s.isClosed)
    ensures EditSpecialDay(s, p) == Failure(TimesRequired)
  {
  }

  /** Renaming a closed day without times changes its name and nothing else. */
  lemma RenameClosedDay(s: SpecialDay, name: string)
    requires s.isClosed && s.openTime.None? && s.closeTime.None?
    ensures EditSpecialDay(s, SpecialDayPatch(None, Some(name), None, None, None, None, None))
            == Success(s.(name := name))
  {
  }
}
