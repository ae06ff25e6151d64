/** Per-hub schedule settings and the partial update `settings_save` makes. */
module Settings {
  import opened Base

  /** The timezone is stored for display only; nothing in the schedule logic
      converts times with it. */
  datatype ScheduleSettings = ScheduleSettings(
    timezone: string,
    weekStartsOn: int,
    slotDuration: int,
    autoCloseEnabled: bool)

  /** The default slot stride, in minutes. */
  const DefaultSlotDuration := 30

  /** The record created the first time a hub's settings are read. */
  const Defaults := ScheduleSettings("Europe/Madrid", 1, DefaultSlotDuration, false)

  /** The fields a save request carries; an absent one is left as stored. */
  datatype SettingsPatch = SettingsPatch(
    timezone: Option<string>,
    weekStartsOn: Option<int>,
    slotDuration: Option<int>,
    autoCloseEnabled: Option<bool>)

  const EmptyPatch := SettingsPatch(None, None, None, None)

  /** `settings_save`: every field present in the request replaces the
      stored one, and every absent field is unchanged. */
  function SaveSettings(s: ScheduleSettings, p: SettingsPatch): (r: ScheduleSettings)
    ensures r.timezone == (if p.timezone.Some? then p.timezone.value else s.timezone)
    ensures r.weekStartsOn == (if p.weekStartsOn.Some? then p.weekStartsOn.value else s.weekStartsOn)
    ensures r.slotDuration == (if p.slotDuration.Some? then p.slotDuration.value else s.slotDuration)
    ensures r.autoCloseEnabled == (if p.autoCloseEnabled.Some? then p.autoCloseEnabled.value else s.autoCloseEnabled)
  {
    ScheduleSettings(
      Keep(p.timezone, s.timezone),
      Keep(p.weekStartsOn, s.weekStartsOn),
      Keep(p.slotDuration, s.slotDuration),
      Keep(p.autoCloseEnabled, s.autoCloseEnabled))
  }

  /** The request `p` followed by `q`, merged: the later request wins field
      by field. */
  function Then(p: SettingsPatch, q: SettingsPatch): SettingsPatch {
    SettingsPatch(
      if q.timezone.Some? then q.timezone else p.timezone,
      if q.weekStartsOn.Some? then q.weekStartsOn else p.weekStartsOn,
      if q.slotDuration.Some? then q.slotDuration else p.slotDuration,
      if q.autoCloseEnabled.Some? then q.autoCloseEnabled else p.autoCloseEnabled)
  }

  /** Two saves in a row equal one save of the merged request. */
  lemma SaveComposes(s: ScheduleSettings, p: SettingsPatch, q: SettingsPatch)
    ensures SaveSettings(SaveSettings(s, p), q) == SaveSettings(s, Then(p, q))
  {
  }

  /** An empty request changes nothing, and repeating a request changes
      nothing more. */
  lemma SaveIdentityAndIdempotence(s: ScheduleSettings, p: SettingsPatch)
    ensures SaveSettings(s, EmptyPatch) == s
    ensures SaveSettings(SaveSettings(s, p), p) == SaveSettings(s, p)
  {
  }

  /** Saving only a timezone keeps the default 30-minute stride; saving every
      field stores exactly the request. */
  lemma SaveExamples()
    ensures var r := SaveSettings(Defaults, SettingsPatch(Some("Asia/Tokyo"), None, None, None));
            r.timezone == "Asia/Tokyo" && r.slotDuration == 30
    ensures SaveSettings(Defaults, SettingsPatch(Some("America/New_York"), Some(7), Some(15), Some(true)))
            == ScheduleSettings("America/New_York", 7, 15, true)
  {
  }

  /** The stride `get_slots` uses: the stored one, or 30 minutes when the
      settings lookup fails. */
  function SlotStride(lookup: Option<ScheduleSettings>): (d: int)
    ensures lookup.None? ==> d == DefaultSlotDuration
    ensures lookup.Some? ==> d == lookup.value.slotDuration
  {
    match lookup
    case Some(s) => s.slotDuration
    case None => DefaultSlotDuration
  }
}
