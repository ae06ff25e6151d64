# Business schedules: opening hours, exceptions and time slots

This project is a Dafny model of the scheduling core of the ERPlora
`schedules` module. The module is a Django app that keeps, for each hub:

- its regular weekly business hours, one record per weekday, with an
  optional midday break;
- special days: single dates such as holidays, optionally recurring every
  year on the same month and day;
- schedule overrides: inclusive date ranges with their own hours or a full
  closure;
- a small settings record whose slot duration (30 minutes by default) sets
  the stride of the bookable time slots.

The model covers the pure logic behind those records:

- the three validators (`clean` of weekly hours, special day and override);
- the open-at-instant test of a weekday's hours;
- the slot generator, which steps from opening to closing time, jumps over
  the break and stops at midnight;
- the four-tier resolver behind the "is it open now" endpoint: override,
  then the special day dated today, then a yearly-recurring special day,
  then regular hours;
- the simpler open flag the dashboard shows;
- the "next special day" shown on the dashboard;
- the field-by-field updates made by the settings save and the special-day
  edit.

Clock times are minutes of the day, 0 to 1439 (`Clock.Minute`). Dates are
(year, month, day) triples compared lexicographically. The weekday of the
query date is an input and is not computed from a calendar. Records arrive
as plain sequences, already limited to one hub's non-deleted rows and
already in the storage order: overrides by latest start date first, special
days by date. The query `.first()` is "first in the sequence that matches"
(`Base.FindFirst`). The dashboard's dictionary keyed by weekday is "last in
the sequence that matches" (`Base.FindLast`). The two agree when weekdays
are unique, as the table's unique constraint guarantees.

A time test written as `if t` in the source means "the time is set".
Midnight is a true value in Python 3.5 and later, so every such test is
`Option.Some?` here.

Modules:

- `Base`: `Option`, `Outcome` and `Result`, the keep-or-replace rule of a
  request field, and the first/last-match
  searches.
- `Clock`: minutes of the day and dates.
- `Hours`: weekly hours, their validator, the open-at test and the weekday
  lookups.
- `Slots`: the slot generator. It is a recursive definition plus a loop
  that mirrors the source's hour/minute arithmetic.
- `Exceptions`: special days and overrides, their validators, their
  lookups, the next special day and the special-day edit.
- `Settings`: the settings record, its defaults and the settings save.
- `Resolver`: the four-tier resolver and the dashboard flag.

The dashboard computes its open flag separately from the resolver and
consults fewer records: it never looks at yearly-recurring special days.
`Resolver.DashboardAgreesWithResolver` proves the two agree whenever the
recurring tier does not decide. `Resolver.DashboardIgnoresRecurring` exhibits
a recurring Christmas closure that the resolver reports as closed while the
dashboard shows the day as open.

The resolver's answer always carries a reason. Every path of
`Resolver.IsOpenNow` picks a constructor of `Resolver.Reason`. The text of
an exception tier's reason is the override's reason or the special day's
name, and the empty text is possible there. Both fields are required by
Django's `full_clean`, but only records saved through it are checked: the
special-day views call it, while records created directly, and every
override, are not. `Resolver.Labelled` therefore states "no reason or name is
empty" as a hypothesis. Under that hypothesis the response never carries the
empty default reason.

## Model

| member | source | states |
|---|---|---|
| `Base.FindFirst` | views.py:281-283 | `.first()` on a filtered, ordered query: None exactly when nothing matches, otherwise a matching element with no match before it |
| `Base.FindLast` | views.py:43 | the dictionary built by iterating the rows, read by key: None exactly when nothing matches, otherwise a matching element with no match after it |
| `Base.FirstIsLastWhenUnique` | models.py:112 | when at most one element matches, the first match and the last match are the same |
| `Clock.At` | models.py:185-194 | the minute of the day for an hour and minute; its hour and minute are recovered by division by 60 and remainder |
| `Clock.DateOrder` | models.py:317-321 | date comparison is a total order: reflexive, antisymmetric, transitive and total, and "strictly after" is the negation of "on or before" |
| `Hours.Clean` | models.py:121-143 | a weekday record passes validation exactly when it is closed, or it opens before it closes and any break lies in order within the hours; a closed day always passes, even with open after close; each error is reported exactly when its own check fails and every earlier check passed, in the order open/close, break order, break start, break end |
| `Hours.IsOpenAt` | models.py:145-158 | never open on a closed day; open only inside the half-open interval from opening to closing, outside the break |
| `Hours.IsOpenAtCharacterized` | models.py:145-158 | on a day that is not closed, open exactly when opening <= t < closing and t is not in [break start, break end); the business is open again at the minute the break ends |
| `Hours.IsOpenAtWithoutBreak` | models.py:150-158 | without a break, open exactly on the half-open interval from opening to closing |
| `Hours.CleanExamples` | tests/test_models.py:112-188 | open after close and open equal to close are rejected; a reversed break, a break before opening and a break past closing are each rejected with their own error; a closed day with reversed times passes |
| `Hours.IsOpenAtExamples` | tests/test_models.py:190-213 | with hours 09:00-18:00 and a break 13:00-14:00: open at 10:00, closed at 08:00, 18:00, 13:00, 13:30 and 13:59, open at 14:00; a closed day is never open |
| `Hours.HoursFor` | views.py:310-313 | the weekday's record as the resolver fetches it: a record of the table for that weekday, or None exactly when the table has none |
| `Hours.HoursByDay` | views.py:43 | the weekday's record as the dashboard reads it from its dictionary: a record for that weekday, or None exactly when there is none |
| `Hours.LookupsAgree` | models.py:112 | with at most one record per weekday, the resolver's and the dashboard's weekday lookups return the same record |
| `Slots.Enter` | models.py:176-179 | a position inside the break moves forward to the break's end; a position outside the break stays where it is |
| `Slots.SlotsFrom` | models.py:171-196 | every slot produced from a position is at or after it, before closing time and outside the break; no slot is produced exactly when the position, moved past the break, is already at closing time |
| `Slots.SlotsFromJump` | models.py:176-179 | inside the break, generation continues from the break's end and emits nothing for the break |
| `Slots.SlotsFromAdvance` | models.py:181-194 | outside the break and before closing, the position is emitted and generation continues one stride later |
| `Slots.SlotsFromLast` | models.py:187-192 | when one more stride would reach 24:00, the position is the last slot |
| `Slots.SlotsFromEnds` | models.py:171-196 | the first slot is the start position moved past the break, and one stride after the last slot, moved past the break, is at or after closing time |
| `Slots.SlotsFromSteps` | models.py:174-194 | each slot follows the previous one by exactly one stride, moved past the break when that stride lands in it |
| `Slots.StepsIncrease` | models.py:174-194 | any sequence built by such steps is strictly increasing |
| `Slots.GetSlots` | models.py:160-196 | a closed day has no slots; every slot is a minute at which the business is open, so it lies in [opening, closing), before 24:00 and outside the break |
| `Slots.SlotsStrictlyIncrease` | models.py:171-196 | the slots are strictly increasing |
| `Slots.AdvanceClock` | models.py:184-194 | the hour/minute arithmetic of one step: no next time exactly when one stride reaches 24:00, otherwise the minute one stride later |
| `Slots.GenerateSlots` | models.py:160-196 | the loop of the source, with its break jump, its hour/minute arithmetic and its stop at 24:00, computes exactly the slots `GetSlots` defines |
| `Slots.RunIsUnique` | models.py:171-196 | two sequences that both follow the stepping rules from the same start are equal |
| `Slots.GetSlotsIsTheRun` | models.py:171-196 | on an open day the slots are the only sequence that starts at opening (moved past the break), steps by one stride (moved past the break), stays before closing and stops only where the next step reaches closing or midnight |
| `Slots.ConsecutiveSlots` | models.py:174-194 | consecutive slots differ by exactly one stride unless a break jump falls between them, in which case the later one is the break's end |
| `Slots.SlotsFromWithoutBreak` | models.py:174-194 | without a break, every stride point from a start up to closing and before midnight is generated |
| `Slots.SlotsWithoutBreak` | models.py:171-196 | without a break, a minute is a slot exactly when it is before closing and it is opening plus a whole number of strides |
| `Slots.MorningSlotsExample` | tests/test_models.py:215-229 | hours 09:00-12:00 at the default 30-minute stride give exactly 09:00, 09:30, 10:00, 10:30, 11:00 and 11:30 |
| `Slots.BreakSlotsExample` | tests/test_models.py:231-238 | hours 09:00-18:00 with a 13:00-14:00 break give 16 slots: 13:00 and 13:30 are absent and 14:00 is present |
| `Slots.ClosedDayHasNoSlots` | tests/test_models.py:240-245 | a closed day has no slots |
| `Exceptions.CleanSpecialDay` | models.py:253-265 | a special day passes exactly when it is closed, or it has both times with opening before closing; a missing time on an open day is its own error; a day that passes is decisive for the resolver |
| `Exceptions.CleanOverride` | models.py:313-321 | an override fails exactly when its end date is before its start date, so a single-day range passes; its times are not checked |
| `Exceptions.ValidatorExamples` | tests/test_models.py:302-420 | an open special day without times and one with reversed times are rejected, a closed one without times passes; a reversed override range is rejected and a single-day range passes |
| `Exceptions.FindOverride` | views.py:267-270 | the override consulted is one whose inclusive range covers the date; None exactly when no override covers it |
| `Exceptions.FindExactSpecial` | views.py:281-283 | the special day consulted is dated exactly today; None exactly when none is |
| `Exceptions.FindRecurringSpecial` | views.py:294-299 | the recurring special day consulted is marked yearly and falls on today's month and day in any year; None exactly when there is none |
| `Exceptions.RecurringExample` | views.py:293-299 | a yearly Christmas dated 2026 applies on 25 December 2027 and 2025 but not on 24 December 2026 |
| `Exceptions.NextSpecial` | views.py:86-88 | the next special day is on or after today and no special day on or after today comes earlier; None exactly when every special day is in the past |
| `Exceptions.PatchSpecialDay` | views.py:215-221 | an edit keeps every absent field except the two times, which are always replaced by what the request sent, so an absent time clears the stored one |
| `Exceptions.EditSpecialDay` | views.py:215-227 | an edit is stored exactly when the patched record passes validation; the stored record is the patched one; otherwise the validator's error is returned and nothing is stored |
| `Exceptions.PatchIdempotent` | views.py:215-221 | sending the same edit twice stores the same record as sending it once |
| `Exceptions.FullPatchStoresPayload` | views.py:215-221 | an edit that sends every field stores exactly what was sent |
| `Exceptions.EditWithoutTimesOnOpenDay` | views.py:218-222 | an edit that omits the opening time and leaves the day open is rejected for missing times, whatever times were stored before |
| `Exceptions.RenameClosedDay` | tests/test_views.py:252-265 | renaming a closed day without times succeeds and changes only the name |
| `Settings.SaveSettings` | views.py:359-363 | each field present in the save request replaces the stored one; each absent field is unchanged |
| `Settings.SaveComposes` | views.py:359-363 | two saves in a row store what one save of the merged request stores, the later request winning field by field |
| `Settings.SaveIdentityAndIdempotence` | views.py:359-363 | an empty request changes nothing, and repeating a request changes nothing more |
| `Settings.SaveExamples` | tests/test_views.py:318-355 | saving only the timezone over the defaults keeps the 30-minute slot duration; saving every field stores exactly the request |
| `Settings.SlotStride` | models.py:165-169 | the slot stride is the stored slot duration, or 30 minutes when the settings cannot be read |
| `Resolver.WindowStatus` | views.py:271-278 | an exception record decides exactly when it is closed or has both times; it then reports its own text, and open exactly when it is not closed and its interval contains the time |
| `Resolver.OverrideTier` | views.py:266-278 | no verdict exactly when no override covers the date or the first covering one is neither closed nor has both times; otherwise the verdict comes from a covering, deciding override: its reason, and open exactly when it is not closed and its interval contains the time |
| `Resolver.ExactTier` | views.py:280-291 | no verdict exactly when no special day is dated today or the first one is neither closed nor has both times; otherwise the verdict of a deciding special day dated today, with its name |
| `Resolver.RecurringTier` | views.py:293-307 | no verdict exactly when no yearly special day falls on today's month and day or the first one does not decide; otherwise the verdict of such a deciding special day, with its name |
| `Resolver.WeeklyTier` | views.py:309-322 | regular hours: "no hours configured" exactly when the weekday has no record, "closed today" exactly when that record is closed, otherwise open exactly when the record is open at that minute, with "regular hours" exactly when open |
| `Resolver.IsOpenNow` | views.py:255-324 | the resolver answers open only if some applicable record contains the time (a covering override, a special day dated today or recurring today, or the weekday's hours); the reason is an exception record's text exactly when one of the three exception tiers decided; when every override reason and special-day name is non-empty, the reason is never the empty text |
| `Resolver.ClosedOverrideWins` | views.py:266-274 | a closed override covering the date gives closed with the override's reason, whatever else is stored |
| `Resolver.OverrideIntervalWins` | views.py:275-278 | an override with both times gives open exactly inside its interval, with its reason |
| `Resolver.TransparentOverride` | views.py:271-278 | an override that is neither closed nor has both times changes nothing: the answer equals the one without overrides |
| `Resolver.ExactBeforeRecurring` | views.py:280-307 | a deciding special day dated today gives its own verdict, and adding special days after it, recurring ones included, does not change the answer |
| `Resolver.TransparentExactSpecial` | views.py:284-294 | a special day dated today that is neither closed nor has both times is skipped: the recurring tier answers, or the regular hours when it does not decide |
| `Resolver.RecurringDecides` | views.py:300-307 | when no override and no special day dated today decides, a deciding yearly special day gives its own verdict with its name |
| `Resolver.WeeklyFallback` | views.py:309-322 | when no exception tier decides: "no hours configured", "closed today", or open with "regular hours" / closed with "outside business hours" according to the weekday's hours |
| `Resolver.EmptyScheduleIsClosed` | tests/test_views.py:297-300 | with nothing configured the business is closed, with "no hours configured" |
| `Resolver.OverrideBeatsSpecialExample` | views.py:266-291 | a holiday-closure override beats a special day that opens on Christmas Eve |
| `Resolver.RecurringExampleResolves` | views.py:293-307 | a yearly closed Christmas closes the business on 25 December of other years; on 24 December with no hours the answer is "no hours configured" |
| `Resolver.Overlay` | views.py:68-83 | a record laid over the status below leaves it unchanged unless the record decides; a deciding record gives open exactly when it is not closed and its interval contains the time |
| `Resolver.DashboardIsOpen` | views.py:55-83 | a deciding override covering today fixes the dashboard flag to the resolver's override verdict; the flag is true only if some applicable record contains the time |
| `Resolver.DashboardAgreesWithResolver` | views.py:55-83 | with one record per weekday, the dashboard flag equals the resolver's open flag whenever the recurring tier does not decide |
| `Resolver.DashboardIgnoresRecurring` | views.py:64-83 | a yearly closed Christmas recorded in 2025 makes the resolver report closed on Christmas 2026, while the dashboard shows that Friday as open |

## Left out

- Database access, managers, soft deletion and hub scoping: records come in
  as sequences already limited to one hub's live rows, in storage order.
- `ScheduleSettings.get_settings` and its get-or-create side effect:
  `Settings.SlotStride` takes the outcome of the lookup as an input.
- The local date, the local time and the timezone conversion: the date, its
  weekday and the minute are parameters. The stored timezone is never
  applied.
- Seconds and microseconds of clock times: the slot generator rebuilds times
  from hour and minute, and the model works in whole minutes.
- JSON decoding, `int()` conversion failures in the settings save, and the
  parsing of time strings in the special-day edit: requests are already typed
  patches. A time sent as an empty string is modelled as absent, as
  `or None` makes it.
- Django's field validation in `full_clean` (required fields, lengths,
  uniqueness): only the models' own `clean` methods are modelled.
- The `MultipleObjectsReturned` error of the resolver's weekday lookup: the
  unique (hub, weekday) constraint rules it out, so `Hours.HoursFor` takes
  the first match.
- HTTP responses, decorators, permissions, templates, `__str__` and
  translation: reasons are the enumeration `Resolver.Reason`, and the
  response's date and time strings are not modelled.
- The dashboard's weekly grid, which only lists each weekday's record.
- `forms.py` (widget attributes only; its 5-120 stride bounds are not
  enforced), `ai_tools.py`, `urls.py`, `module.py` and `apps.py`, which are
  registration and serialisation glue.
- The other views (`edit_hours`, `add_special_day`, deletions and the
  listing pages) are not part of this model.
- Slots.GetSlots: requires a positive slot duration. With zero the source
  loops forever. With a negative one the time moves backwards and the source
  raises as soon as the hour goes below zero, unless some step lands back
  inside the break, in which case the generator loops forever.
