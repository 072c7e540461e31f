/** The booths service: the per-booth status derivation behind the dashboard's
    booth list, and the two operator edits (display name, operating hours). */
module BoothsService {
  import opened Wrappers
  import opened Records
  import opened OperatingHours
  import opened Store

  /** The outcome of `parseInt` on the configured stale threshold; an absent
      setting reads as the default string "15". */
  datatype IntParse = NotANumber | Int(n: int)

  const DefaultStaleMinutes: int := 15

  /** `parseInt(setting) || 15`: zero and NaN fall back to the default. */
  function StaleThresholdMinutes(parsed: IntParse): (m: int)
    ensures m != 0
    ensures m == DefaultStaleMinutes || parsed == Int(m)
    ensures parsed.Int? && parsed.n != 0 ==> m == parsed.n
  {
    match parsed
    case Int(n) => if n != 0 then n else DefaultStaleMinutes
    case NotANumber => DefaultStaleMinutes
  }

  /** The reported mode: the latest log's `metadata.mode` when the metadata
      parses and the mode is truthy, otherwise "Unknown". */
  function DeriveMode(latest: Option<HealthLog>): (mode: string)
    ensures mode != ""
    ensures latest.Some? && Truthy(LogMode(latest.value)) ==> mode == LogMode(latest.value).value
    ensures !(latest.Some? && Truthy(LogMode(latest.value))) ==> mode == "Unknown"
  {
    if latest.Some? && Truthy(LogMode(latest.value)) then LogMode(latest.value).value else "Unknown"
  }

  /** The latest log's raw status, or "unknown" without a (truthy) one. */
  function RawStatus(latest: Option<HealthLog>): (s: string)
    ensures s != ""
    ensures latest.Some? && latest.value.status != "" ==> s == latest.value.status
    ensures s != "unknown" ==> latest.Some? && s == latest.value.status
  {
    if latest.Some? && latest.value.status != "" then latest.value.status else "unknown"
  }

  /** Status precedence, first match wins: maintenance mode, then outside
      operating hours, then stale, then the raw status. */
  function ResolveStatus(mode: string, withinHours: bool, stale: bool, latest: Option<HealthLog>): (status: string)
    ensures mode == "Maintenance" ==> status == "maintenance"
    ensures mode != "Maintenance" && !withinHours ==> status == "offline"
    ensures mode != "Maintenance" && withinHours && stale ==> status == "stale"
    ensures mode != "Maintenance" && withinHours && !stale ==> status == RawStatus(latest)
  {
    if mode == "Maintenance" then "maintenance"
    else if !withinHours then "offline"
    else if stale then "stale"
    else RawStatus(latest)
  }

  /** The operating hours in the response: the parsed object, or a disabled
      empty schedule when the column is absent or unparseable. */
  function ResponseHours(stored: StoredHours): (h: Hours)
    ensures stored.Parsed? ==> h == stored.hours
    ensures !stored.Parsed? ==> h == Hours(false, [])
  {
    match stored
    case Parsed(hours) => hours
    case _ => Hours(false, [])
  }

  /** One row of the booth list. `isStale` is computed by the service but,
      as written, left out of the response (see the dashboard module). */
  datatype DerivedBooth = DerivedBooth(
    id: nat,
    boothId: string,
    name: Option<string>,
    status: string,
    mode: string,
    timezone: Option<string>,
    operatingHours: Hours,
    lastPing: int,
    minutesSinceLastPing: int,
    isMaintenance: bool,
    isWithinOperatingHours: bool,
    message: Option<string>,
    isStale: bool)

  /** A booth as the list query returns it, with at most its newest log. */
  datatype BoothWithLatest = BoothWithLatest(booth: Booth, latest: Option<HealthLog>)

  function Derive(b: BoothWithLatest, now: int, thresholdMinutes: int, resolve: ZoneResolver): (d: DerivedBooth)
    ensures d.id == b.booth.id && d.boothId == b.booth.boothId && d.name == b.booth.name
    ensures d.timezone == b.booth.timezone && d.lastPing == b.booth.lastPing
    ensures d.isStale <==> b.booth.lastPing < now - thresholdMinutes * MinuteMs
    ensures d.isWithinOperatingHours == BoothsWithinOperatingHours(b.booth.operatingHours, b.booth.timezone, resolve)
    ensures d.mode == DeriveMode(b.latest)
    ensures d.isMaintenance <==> d.mode == "Maintenance"
    ensures d.status == ResolveStatus(d.mode, d.isWithinOperatingHours, d.isStale, b.latest)
    ensures d.operatingHours == ResponseHours(b.booth.operatingHours)
    ensures d.minutesSinceLastPing == MinutesSince(now, b.booth.lastPing)
    ensures d.message == (if b.latest.Some? then b.latest.value.message else None)
  {
    var thresholdDate := now - thresholdMinutes * MinuteMs;
    var stale := b.booth.lastPing < thresholdDate;
    var within := BoothsWithinOperatingHours(b.booth.operatingHours, b.booth.timezone, resolve);
    var mode := DeriveMode(b.latest);
    DerivedBooth(
      b.booth.id, b.booth.boothId, b.booth.name,
      ResolveStatus(mode, within, stale, b.latest),
      mode, b.booth.timezone, ResponseHours(b.booth.operatingHours), b.booth.lastPing,
      MinutesSince(now, b.booth.lastPing), mode == "Maintenance", within,
      if b.latest.Some? then b.latest.value.message else None,
      stale)
  }

  /** The booth list: one derived row per queried booth, in query order. */
  function FindAll(booths: seq<BoothWithLatest>, now: int, setting: IntParse, resolve: ZoneResolver): (rows: seq<DerivedBooth>)
    ensures |rows| == |booths|
    ensures forall i :: 0 <= i < |booths| ==>
      rows[i] == Derive(booths[i], now, StaleThresholdMinutes(setting), resolve)
  {
    var threshold := StaleThresholdMinutes(setting);
    seq(|booths|, i requires 0 <= i < |booths| => Derive(booths[i], now, threshold, resolve))
  }

  /** The precedence seen from the output: a maintenance-mode booth is
      "maintenance" even when it is also stale and inside its hours; unless the
      booth itself reported it, "offline" means outside hours and "stale"
      means stale inside hours; a fresh booth inside its hours shows its raw
      status. */
  lemma StatusPrecedence(b: BoothWithLatest, now: int, thresholdMinutes: int, resolve: ZoneResolver)
    ensures var d := Derive(b, now, thresholdMinutes, resolve);
      && (d.isMaintenance <==> b.latest.Some? && LogMode(b.latest.value) == Some("Maintenance"))
      && (d.isMaintenance ==> d.status == "maintenance")
      && (d.status == "offline" && RawStatus(b.latest) != "offline" ==> !d.isWithinOperatingHours)
      && (d.status == "stale" && RawStatus(b.latest) != "stale" ==> d.isStale && d.isWithinOperatingHours)
      && (!d.isMaintenance && d.isWithinOperatingHours && !d.isStale ==> d.status == RawStatus(b.latest))
  {
    var d := Derive(b, now, thresholdMinutes, resolve);
    if d.isMaintenance {
      assert b.latest.Some? && Truthy(LogMode(b.latest.value));
    }
  }

  /** A booth reported outside its hours has a parsed, enabled, non-empty
      schedule: the evaluator fails open in every other case. */
  lemma OutsideHoursMeansScheduled(b: BoothWithLatest, now: int, thresholdMinutes: int, resolve: ZoneResolver)
    ensures var d := Derive(b, now, thresholdMinutes, resolve);
      !d.isWithinOperatingHours ==> d.operatingHours.enabled && |d.operatingHours.schedule| > 0
  {
  }

  /** A stale booth is counted stale only once it is more than the threshold
      old, so with the default threshold it is at least 15 minutes old. The
      bound holds for every setting, a negative one included. */
  lemma StaleMeansThresholdMinutesOld(b: BoothWithLatest, now: int, setting: IntParse, resolve: ZoneResolver)
    ensures var d := Derive(b, now, StaleThresholdMinutes(setting), resolve);
      d.isStale ==> d.minutesSinceLastPing >= StaleThresholdMinutes(setting)
  {
    var m := StaleThresholdMinutes(setting);
    var d := Derive(b, now, m, resolve);
    if d.isStale {
      assert now - b.booth.lastPing > m * MinuteMs;
      assert (d.minutesSinceLastPing + 1) * MinuteMs > m * MinuteMs;
    }
  }

  // ---------------------------------------------------------------------------
  // Operator edits
  // ---------------------------------------------------------------------------

  datatype BoothError = NotFound

  /** Rename the booth with internal id `id`. */
  function Update(st: Store, id: nat, name: string): (r: Result<Store, BoothError>)
    ensures r.Failure? <==> FindById(st, id).None?
    ensures r.Success? ==>
      && r.value.byId == st.byId && r.value.logs == st.logs && r.value.nextId == st.nextId
      && r.value.booths.Keys == st.booths.Keys
      && (forall k :: k in st.booths && k != FindById(st, id).value ==> r.value.booths[k] == st.booths[k])
  {
    match FindById(st, id)
    case None => Failure(NotFound)
    case Some(key) =>
      Success(st.(booths := st.booths[key := st.booths[key].(name := Some(name))]))
  }

  /** Replace the schedule of the booth with internal id `id`. The object is
      stored serialised, so it reads back as the same parsed value. */
  function UpdateOperatingHours(st: Store, id: nat, hours: Hours): (r: Result<Store, BoothError>)
    ensures r.Failure? <==> FindById(st, id).None?
    ensures r.Success? ==>
      && r.value.byId == st.byId && r.value.logs == st.logs && r.value.nextId == st.nextId
      && r.value.booths.Keys == st.booths.Keys
      && (forall k :: k in st.booths && k != FindById(st, id).value ==> r.value.booths[k] == st.booths[k])
  {
    match FindById(st, id)
    case None => Failure(NotFound)
    case Some(key) =>
      Success(st.(booths := st.booths[key := st.booths[key].(operatingHours := Parsed(hours))]))
  }

  /** A rename touches only the name of the addressed booth and keeps the
      store valid. */
  lemma UpdateChangesOnlyName(st: Store, id: nat, name: string)
    requires Valid(st)
    ensures var r := Update(st, id, name);
      && (r.Failure? <==> forall k :: k in st.booths ==> st.booths[k].id != id)
      && (r.Success? ==>
            && Valid(r.value)
            && var key := st.byId[id];
               r.value.booths[key] == st.booths[key].(name := Some(name)))
  {
  }

  /** A schedule edit touches only the schedule of the addressed booth, keeps
      the store valid, and the booth's schedule then reads back as `hours`. */
  lemma UpdateOperatingHoursChangesOnlyHours(st: Store, id: nat, hours: Hours)
    requires Valid(st)
    ensures var r := UpdateOperatingHours(st, id, hours);
      && (r.Failure? <==> forall k :: k in st.booths ==> st.booths[k].id != id)
      && (r.Success? ==>
            && Valid(r.value)
            && var key := st.byId[id];
               && r.value.booths[key] == st.booths[key].(operatingHours := Parsed(hours))
               && ResponseHours(r.value.booths[key].operatingHours) == hours)
  {
  }
}
