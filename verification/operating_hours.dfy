/** The operating-hours evaluator: is a booth, right now, inside one of its
    configured weekly windows? Both services carry a copy; they differ only in
    how they pick the time zone. The time-zone database is an injected
    resolver that turns a zone name into the local weekday and "HH:MM", or
    fails for a zone it does not know. */
module OperatingHours {
  import opened Wrappers
  import opened Text
  import opened TimeZones
  import opened Records

  /** Local weekday (0 = Sunday) and zero-padded 24-hour "HH:MM". */
  datatype LocalTime = LocalTime(day: int, time: string)

  /** `None` is the formatter rejecting an unknown zone name. */
  type ZoneResolver = string -> Option<LocalTime>

  /** The stored hours impose no restriction: missing, unparseable, disabled
      or with an empty schedule. */
  function AlwaysOn(stored: StoredHours): (r: bool)
    ensures !r <==> stored.Parsed? && stored.hours.enabled && |stored.hours.schedule| > 0
  {
    match stored
    case NoHours => true
    case Unparseable => true
    case Parsed(h) => !h.enabled || |h.schedule| == 0
  }

  /** Same weekday and `start <= time <= end` as strings (closed interval).
      A window whose start equals its end is open at exactly that minute. */
  function EntryMatches(e: Entry, now: LocalTime): (r: bool)
    ensures r ==> e.day == now.day
    ensures e.start == e.end ==> (r <==> e.day == now.day && now.time == e.start)
  {
    var r := e.day == now.day && LexLe(e.start, now.time) && LexLe(now.time, e.end);
    LexLeReflexive(e.start);
    if r && e.start == e.end then
      LexLeAntisymmetric(e.start, now.time);
      r
    else r
  }

  /** The scan of the schedule in order, stopping at the first match. */
  function AnyEntryMatches(schedule: seq<Entry>, now: LocalTime): (r: bool)
    ensures r <==> exists i :: 0 <= i < |schedule| && EntryMatches(schedule[i], now)
    decreases |schedule|
  {
    if |schedule| == 0 then false
    else if EntryMatches(schedule[0], now) then true
    else
      var r := AnyEntryMatches(schedule[1..], now);
      assert forall i :: 1 <= i < |schedule| ==> schedule[i] == schedule[1..][i - 1];
      r
  }

  /** The evaluation shared by both copies once the zone name is chosen. It
      fails open: no restriction, or a zone the resolver rejects, means
      "within hours". */
  function WithinHoursIn(stored: StoredHours, zone: string, resolve: ZoneResolver): (r: bool)
    ensures r <==>
      || AlwaysOn(stored)
      || resolve(zone).None?
      || exists i :: 0 <= i < |stored.hours.schedule| && EntryMatches(stored.hours.schedule[i], resolve(zone).value)
  {
    if AlwaysOn(stored) then true
    else match resolve(zone)
      case None => true
      case Some(local) => AnyEntryMatches(stored.hours.schedule, local)
  }

  /** The health service's copy: Windows zone names are normalised first. */
  function HealthWithinOperatingHours(stored: StoredHours, timezone: Option<string>, resolve: ZoneResolver): (r: bool)
    ensures AlwaysOn(stored) ==> r
    ensures resolve(HealthZone(timezone)).None? ==> r
    ensures !AlwaysOn(stored) && resolve(HealthZone(timezone)).Some? ==>
      (r <==> exists i :: 0 <= i < |stored.hours.schedule| &&
                EntryMatches(stored.hours.schedule[i], resolve(HealthZone(timezone)).value))
  {
    WithinHoursIn(stored, HealthZone(timezone), resolve)
  }

  /** The booths service's copy: the stored zone name is used verbatim. */
  function BoothsWithinOperatingHours(stored: StoredHours, timezone: Option<string>, resolve: ZoneResolver): (r: bool)
    ensures AlwaysOn(stored) ==> r
    ensures resolve(BoothsZone(timezone)).None? ==> r
    ensures !AlwaysOn(stored) && resolve(BoothsZone(timezone)).Some? ==>
      (r <==> exists i :: 0 <= i < |stored.hours.schedule| &&
                EntryMatches(stored.hours.schedule[i], resolve(BoothsZone(timezone)).value))
  {
    WithinHoursIn(stored, BoothsZone(timezone), resolve)
  }

  /** The two copies agree whenever the stored zone is falsy or already an
      IANA name. On any other name they can differ: the health copy maps a
      Windows name through its table and every other name to "UTC", while the
      booths copy hands the name to the resolver as it is
      (`HealthCopyIsBoothsCopyOnNormalisedZone` states the exact relation). */
  lemma CopiesAgreeOnIanaZones(stored: StoredHours, timezone: Option<string>, resolve: ZoneResolver)
    requires !Truthy(timezone) || '/' in timezone.value
    ensures HealthWithinOperatingHours(stored, timezone, resolve) == BoothsWithinOperatingHours(stored, timezone, resolve)
  {
    UtcIsNotAWindowsName();
  }

  /** The health copy is the booths copy applied to the normalised zone name. */
  lemma HealthCopyIsBoothsCopyOnNormalisedZone(stored: StoredHours, timezone: Option<string>, resolve: ZoneResolver)
    ensures HealthWithinOperatingHours(stored, timezone, resolve)
         == BoothsWithinOperatingHours(stored, Some(ConvertWindowsTimezoneToIana(BoothsZone(timezone))), resolve)
  {
    HealthZoneIsConvertedBoothsZone(timezone);
    ConvertedIsIanaOrUtc(BoothsZone(timezone));
  }

  /** A booth reporting a Windows zone name: the health copy evaluates the
      schedule in New York time and finds the booth closed, while the booths
      copy hands the raw name to the formatter, which rejects it, and so
      reports the booth open. */
  lemma WindowsZoneNamesDiverge()
    ensures var stored := Parsed(Hours(true, [Entry(1, "09:00", "17:00")]));
            var resolve: ZoneResolver := z => if z == "America/New_York" then Some(LocalTime(1, "08:00")) else None;
            var tz := Some("Eastern Standard Time");
            !HealthWithinOperatingHours(stored, tz, resolve) && BoothsWithinOperatingHours(stored, tz, resolve)
  {
    var stored := Parsed(Hours(true, [Entry(1, "09:00", "17:00")]));
    var resolve: ZoneResolver := z => if z == "America/New_York" then Some(LocalTime(1, "08:00")) else None;
    var tz := Some("Eastern Standard Time");
    assert HealthZone(tz) == "America/New_York";
    assert !EntryMatches(Entry(1, "09:00", "17:00"), LocalTime(1, "08:00"));
    assert BoothsZone(tz) != "America/New_York";
  }

  /** An entry whose start is after its end (no overnight wrap) matches no
      local time at all. */
  lemma InvertedEntryNeverMatches(e: Entry, now: LocalTime)
    requires !LexLe(e.start, e.end)
    ensures !EntryMatches(e, now)
  {
    if EntryMatches(e, now) {
      LexLeTransitive(e.start, now.time, e.end);
    }
  }

  /** With well-formed clock times the string test is the time-of-day test. */
  lemma EntryMatchesByMinutes(e: Entry, now: LocalTime)
    requires IsClockTime(e.start) && IsClockTime(e.end) && IsClockTime(now.time)
    ensures EntryMatches(e, now) <==>
      e.day == now.day && MinuteOfDay(e.start) <= MinuteOfDay(now.time) <= MinuteOfDay(e.end)
  {
    LexLeIsTimeOrder(e.start, now.time);
    LexLeIsTimeOrder(now.time, e.end);
  }

  /** A Monday 09:00-17:00 schedule in UTC: open at 10:00 and at 17:00 (the
      end is inclusive), closed at 08:59 and on Tuesday. */
  lemma MondayNineToFiveExample(resolve: ZoneResolver)
    ensures var stored := Parsed(Hours(true, [Entry(1, "09:00", "17:00")]));
            && (resolve("UTC") == Some(LocalTime(1, "10:00")) ==> HealthWithinOperatingHours(stored, None, resolve))
            && (resolve("UTC") == Some(LocalTime(1, "08:59")) ==> !HealthWithinOperatingHours(stored, None, resolve))
            && (resolve("UTC") == Some(LocalTime(1, "17:00")) ==> HealthWithinOperatingHours(stored, None, resolve))
            && (resolve("UTC") == Some(LocalTime(2, "10:00")) ==> !HealthWithinOperatingHours(stored, None, resolve))
  {
    var e := Entry(1, "09:00", "17:00");
    assert EntryMatches(e, LocalTime(1, "10:00"));
    assert !EntryMatches(e, LocalTime(1, "08:59"));
    assert EntryMatches(e, LocalTime(1, "17:00"));
    assert !EntryMatches(e, LocalTime(2, "10:00"));
  }
}
