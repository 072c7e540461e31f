/** The health service: the single write path for pings, the periodic stale
    and non-normal-mode sweeps, and health-log retention. Every operation is a
    pure function of the store or query snapshot and the current instant;
    notifications are returned as a list of alerts rather than sent. */
module HealthService {
  import opened Wrappers
  import opened Records
  import opened OperatingHours
  import opened Store
  import Seqs

  // ---------------------------------------------------------------------------
  // Ping ingestion
  // ---------------------------------------------------------------------------

  /** A validated ping. */
  datatype Ping = Ping(
    boothId: string,
    name: Option<string>,
    status: string,
    message: Option<string>,
    metadata: Option<Metadata>)

  datatype Receipt = Receipt(success: bool, timestamp: int)

  datatype Ingested = Ingested(store: Store, alerts: seq<Alert>, receipt: Receipt)

  /** `metadata?.timezone || null`: the ping's timezone when it is a
      non-empty string, and nothing otherwise. */
  function PingTimezone(p: Ping): (tz: Option<string>)
    ensures tz.Some? <==> p.metadata.Some? && Truthy(p.metadata.value.timezone)
    ensures tz.Some? ==> tz == p.metadata.value.timezone && tz.value != ""
  {
    if p.metadata.Some? && Truthy(p.metadata.value.timezone) then p.metadata.value.timezone else None
  }

  /** The metadata column of the new log: the ping's metadata serialised, so
      it reads back as the same parsed object, or null without metadata. */
  function StoredPingMetadata(p: Ping): (m: StoredMetadata)
    ensures m.NoMetadata? <==> p.metadata.None?
    ensures p.metadata.Some? ==> m == Meta(p.metadata.value)
    ensures !m.BadMetadata?
  {
    if p.metadata.Some? then Meta(p.metadata.value) else NoMetadata
  }

  /** Statuses that trigger an immediate notification. */
  function IsAlertStatus(status: string): (r: bool)
    ensures r <==> status in {"error", "warning"}
    ensures r ==> status != "healthy" && status != "offline"
  {
    status == "error" || status == "warning"
  }

  /** A ping's mode is read back from its log exactly as sent: the stored
      metadata never fails to parse. */
  lemma PingModeReadsBack(st: Store, p: Ping, now: int)
    ensures var l := ProcessHealthPing(st, p, now).store.logs[|st.logs|];
      LogMode(l) == (if p.metadata.Some? then p.metadata.value.mode else None)
  {
  }

  /** The upsert keyed by `boothId`: an existing row keeps its id, name and
      schedule and takes a truthy ping timezone; a new row takes the ping's
      name and timezone and no schedule. Either way `lastPing` becomes now. */
  function UpsertBooth(st: Store, p: Ping, now: int): (b: Booth)
    ensures b.boothId == p.boothId && b.lastPing == now
    ensures p.boothId in st.booths ==>
      var prev := st.booths[p.boothId];
      && b.id == prev.id && b.name == prev.name && b.operatingHours == prev.operatingHours
      && b.timezone == (if PingTimezone(p).Some? then PingTimezone(p) else prev.timezone)
    ensures p.boothId !in st.booths ==>
      b.id == st.nextId && b.name == p.name && b.timezone == PingTimezone(p) && b.operatingHours == NoHours
  {
    var tz := PingTimezone(p);
    if p.boothId in st.booths then
      var prev := st.booths[p.boothId];
      prev.(boothId := p.boothId, timezone := if tz.Some? then tz else prev.timezone, lastPing := now)
    else
      Booth(st.nextId, p.boothId, p.name, tz, NoHours, now)
  }

  /** `processHealthPing`: upsert the booth, append one log, and notify for an
      error or warning status. */
  function ProcessHealthPing(st: Store, p: Ping, now: int): (r: Ingested)
    ensures r.store.booths.Keys == st.booths.Keys + {p.boothId}
    ensures forall k :: k in st.booths && k != p.boothId ==> r.store.booths[k] == st.booths[k]
    ensures r.store.booths[p.boothId] == UpsertBooth(st, p, now)
    ensures r.store.logs == st.logs + [HealthLog(UpsertBooth(st, p, now).id, p.status, p.message, StoredPingMetadata(p), now)]
    ensures |r.alerts| == (if IsAlertStatus(p.status) then 1 else 0)
    ensures IsAlertStatus(p.status) ==>
      r.alerts[0] == HealthUpdate(p.boothId, UpsertBooth(st, p, now).name, p.status, p.message, now)
    ensures r.receipt == Receipt(true, now)
  {
    var b := UpsertBooth(st, p, now);
    var isNew := p.boothId !in st.booths;
    var store := Store(
      st.booths[p.boothId := b],
      if isNew then st.byId[b.id := p.boothId] else st.byId,
      st.logs + [HealthLog(b.id, p.status, p.message, StoredPingMetadata(p), now)],
      if isNew then st.nextId + 1 else st.nextId);
    var alerts := if IsAlertStatus(p.status) then [HealthUpdate(p.boothId, b.name, p.status, p.message, now)] else [];
    Ingested(store, alerts, Receipt(true, now))
  }

  /** Ingestion keeps the store valid: one booth per `boothId`, a consistent
      id index, and every log owned by an existing booth. */
  lemma IngestPreservesValid(st: Store, p: Ping, now: int)
    requires Valid(st)
    ensures Valid(ProcessHealthPing(st, p, now).store)
  {
    var r := ProcessHealthPing(st, p, now).store;
    var b := UpsertBooth(st, p, now);
    if p.boothId !in st.booths {
      assert st.nextId !in st.byId;
      forall id | id in r.byId
        ensures r.byId[id] in r.booths && r.booths[r.byId[id]].id == id
      {
        if id != st.nextId {
          assert st.byId[id] != p.boothId;
        }
      }
    } else {
      forall id | id in r.byId
        ensures r.byId[id] in r.booths && r.booths[r.byId[id]].id == id
      {
        if st.byId[id] != p.boothId {
          assert r.booths[r.byId[id]] == st.booths[st.byId[id]];
        }
      }
    }
  }

  /** Two consecutive pings from a new booth leave exactly one booth row for
      it, with two logs, and its `lastPing` is the second ping's instant. */
  lemma TwoPingsFromNewBooth(st: Store, p1: Ping, p2: Ping, t1: int, t2: int)
    requires Valid(st) && p1.boothId == p2.boothId && p1.boothId !in st.booths
    ensures var s1 := ProcessHealthPing(st, p1, t1).store;
            var s2 := ProcessHealthPing(s1, p2, t2).store;
            && s2.booths.Keys == st.booths.Keys + {p1.boothId}
            && |s2.booths| == |st.booths| + 1
            && s2.booths[p1.boothId].lastPing == t2
            && |LogsOf(s2, s2.booths[p1.boothId].id)| == 2
  {
    var s1 := ProcessHealthPing(st, p1, t1).store;
    var s2 := ProcessHealthPing(s1, p2, t2).store;
    var id := st.nextId;
    assert s1.booths[p1.boothId].id == id;
    assert s2.booths[p1.boothId].id == id;
    NoLogsForNextId(st);
    LogsOfAppend(st, s1, s1.logs[|st.logs|], id);
    LogsOfAppend(s1, s2, s2.logs[|s1.logs|], id);
  }

  // ---------------------------------------------------------------------------
  // Stale sweep
  // ---------------------------------------------------------------------------

  /** The sweep's fixed silence threshold, in minutes. */
  const StaleSweepMinutes: int := 30

  /** Silent for more than 30 minutes and inside operating hours (health
      copy of the evaluator, with Windows-name normalisation). */
  function StaleCandidate(b: Booth, now: int, resolve: ZoneResolver): (r: bool)
    ensures r ==> MinutesSince(now, b.lastPing) >= StaleSweepMinutes
    ensures AlwaysOn(b.operatingHours) ==> (r <==> b.lastPing < now - StaleSweepMinutes * MinuteMs)
  {
    MinutesSinceAtLeast(now, b.lastPing, StaleSweepMinutes);
    && b.lastPing < now - StaleSweepMinutes * MinuteMs
    && HealthWithinOperatingHours(b.operatingHours, b.timezone, resolve)
  }

  function StaleAlertFor(b: Booth, now: int): Alert {
    StaleAlert(b.boothId, b.name, b.lastPing, MinutesSince(now, b.lastPing))
  }

  /** The candidate test as a filter. */
  function StaleCandidates(now: int, resolve: ZoneResolver): Booth -> bool {
    (b: Booth) => StaleCandidate(b, now, resolve)
  }

  /** The alert for a booth as a function of the booth. */
  function StaleAlertAt(now: int): Booth -> Alert {
    (b: Booth) => StaleAlertFor(b, now)
  }

  /** `checkStaleBooths`: one stale alert per candidate booth, in query order:
      the j-th alert is for the j-th candidate, where the candidates are
      exactly the booths silent for more than 30 minutes inside their hours,
      each as often as it occurs. Nothing is remembered between sweeps, so an
      alert repeats every sweep while its condition holds. */
  function CheckStaleBooths(booths: seq<Booth>, now: int, resolve: ZoneResolver): (alerts: seq<Alert>)
    ensures |alerts| == |Seqs.Filter(booths, StaleCandidates(now, resolve))| <= |booths|
    ensures forall j :: 0 <= j < |alerts| ==>
      alerts[j] == StaleAlertFor(Seqs.Filter(booths, StaleCandidates(now, resolve))[j], now)
    ensures forall i :: 0 <= i < |booths| && StaleCandidate(booths[i], now, resolve) ==>
      StaleAlertFor(booths[i], now) in alerts
    ensures forall j :: 0 <= j < |alerts| ==>
      exists i :: 0 <= i < |booths| && StaleCandidate(booths[i], now, resolve) && alerts[j] == StaleAlertFor(booths[i], now)
    ensures forall j :: 0 <= j < |alerts| ==> alerts[j].StaleAlert? && alerts[j].minutesSinceLastPing >= StaleSweepMinutes
  {
    var candidates := Seqs.Filter(booths, StaleCandidates(now, resolve));
    var alerts := seq(|candidates|, j requires 0 <= j < |candidates| => StaleAlertFor(candidates[j], now));
    Seqs.FilterImage(booths, StaleCandidates(now, resolve), StaleAlertAt(now), alerts);
    forall j | 0 <= j < |alerts|
      ensures alerts[j].minutesSinceLastPing >= StaleSweepMinutes
    {
      assert StaleCandidates(now, resolve)(candidates[j]);
    }
    alerts
  }

  /** The sweep reads booths one at a time: sweeping two lists in turn gives
      the alerts of sweeping them concatenated. */
  lemma CheckStaleBoothsAppend(a: seq<Booth>, b: seq<Booth>, now: int, resolve: ZoneResolver)
    ensures CheckStaleBooths(a + b, now, resolve) == CheckStaleBooths(a, now, resolve) + CheckStaleBooths(b, now, resolve)
  {
    var p := StaleCandidates(now, resolve);
    Seqs.FilterAppend(a, b, p);
    var fa, fb := Seqs.Filter(a, p), Seqs.Filter(b, p);
    var whole := CheckStaleBooths(a + b, now, resolve);
    var la, lb := CheckStaleBooths(a, now, resolve), CheckStaleBooths(b, now, resolve);
    Seqs.PointwiseAppend(fa, fb, StaleAlertAt(now), whole, la, lb);
  }

  // ---------------------------------------------------------------------------
  // Mode-duration tracking and the non-normal-mode sweep
  // ---------------------------------------------------------------------------

  /** A log the scan steps over: null or unparseable metadata. */
  function Skipped(l: HealthLog): (r: bool)
    ensures r <==> !l.metadata.Meta?
    ensures r ==> LogMode(l).None?
  {
    l.metadata.NoMetadata? || l.metadata.BadMetadata?
  }

  predicate InMode(l: HealthLog, mode: string) {
    LogMode(l) == Some(mode)
  }

  /** Every log from the newest down to index `k` is skipped or in `mode`. */
  predicate ContiguousTo(logs: seq<HealthLog>, mode: string, k: int)
    requires 0 <= k < |logs|
  {
    forall i :: 0 <= i <= k ==> Skipped(logs[i]) || InMode(logs[i], mode)
  }

  lemma ContiguousStep(logs: seq<HealthLog>, mode: string)
    requires |logs| > 0
    ensures forall j :: 0 <= j < |logs| - 1 ==>
      (ContiguousTo(logs, mode, j + 1) <==>
         (Skipped(logs[0]) || InMode(logs[0], mode)) && ContiguousTo(logs[1..], mode, j))
  {
    forall j | 0 <= j < |logs| - 1
      ensures ContiguousTo(logs, mode, j + 1) <==>
         (Skipped(logs[0]) || InMode(logs[0], mode)) && ContiguousTo(logs[1..], mode, j)
    {
      assert forall i :: 1 <= i <= j + 1 ==> logs[i] == logs[1..][i - 1];
    }
  }

  /** The index of the oldest log of the run of `mode` that starts at the
      newest log: walking newest to oldest, skipped logs are stepped over and
      the walk stops at the first log in another mode (a missing mode counts
      as another mode). */
  function OldestInMode(logs: seq<HealthLog>, mode: string): (r: Option<nat>)
    ensures r.Some? ==> r.value < |logs| && InMode(logs[r.value], mode) && ContiguousTo(logs, mode, r.value)
    ensures r.Some? ==> forall j :: r.value < j < |logs| && InMode(logs[j], mode) ==> !ContiguousTo(logs, mode, j)
    ensures r.None? ==> forall j :: 0 <= j < |logs| && InMode(logs[j], mode) ==> !ContiguousTo(logs, mode, j)
    decreases |logs|
  {
    if |logs| == 0 then None
    else if !Skipped(logs[0]) && !InMode(logs[0], mode) then None
    else
      var rest := OldestInMode(logs[1..], mode);
      ContiguousStep(logs, mode);
      assert forall j :: 1 <= j < |logs| ==> logs[j] == logs[1..][j - 1];
      match rest
      case Some(k) => Some(k + 1)
      case None => if InMode(logs[0], mode) then Some(0) else None
  }

  /** A booth and its logs, newest first. */
  datatype BoothHistory = BoothHistory(booth: Booth, logs: seq<HealthLog>)

  /** The mode the sweep tracks: the newest log's parsed mode, unless there is
      no log, its metadata is null or unparseable, or the mode is empty,
      "Normal" or "Unknown". */
  function TrackedMode(logs: seq<HealthLog>): (m: Option<string>)
    ensures m.Some? ==> |logs| > 0 && InMode(logs[0], m.value)
    ensures m.Some? ==> m.value != "" && m.value != "Normal" && m.value != "Unknown"
    ensures m.None? && |logs| > 0 && Truthy(LogMode(logs[0])) ==> LogMode(logs[0]).value in {"Normal", "Unknown"}
  {
    if |logs| == 0 then None
    else match LogMode(logs[0])
      case None => None
      case Some(mode) => if mode == "" || mode == "Normal" || mode == "Unknown" then None else Some(mode)
  }

  /** Once the newest log carries the tracked mode, the run is never empty:
      the source's null check on the found log can never fail. */
  lemma TrackedModeRunIsFound(logs: seq<HealthLog>)
    requires TrackedMode(logs).Some?
    ensures OldestInMode(logs, TrackedMode(logs).value).Some?
  {
    var m := TrackedMode(logs).value;
    assert ContiguousTo(logs, m, 0);
  }

  /** Alert when the run has lasted at least 24 hours. */
  const ModeThresholdMs: int := 24 * HourMs

  function ModeAlert(h: BoothHistory, now: int): (a: Option<Alert>)
    ensures a.Some? <==>
      && TrackedMode(h.logs).Some?
      && OldestInMode(h.logs, TrackedMode(h.logs).value).Some?
      && now - h.logs[OldestInMode(h.logs, TrackedMode(h.logs).value).value].createdAt >= ModeThresholdMs
    ensures a.Some? ==>
      var k := OldestInMode(h.logs, TrackedMode(h.logs).value).value;
      a.value == NonNormalModeAlert(h.booth.boothId, h.booth.name, TrackedMode(h.logs).value, now - h.logs[k].createdAt)
  {
    match TrackedMode(h.logs)
    case None => None
    case Some(mode) =>
      match OldestInMode(h.logs, mode)
      case None => None
      case Some(k) =>
        var inMode := now - h.logs[k].createdAt;
        if inMode >= ModeThresholdMs then Some(NonNormalModeAlert(h.booth.boothId, h.booth.name, mode, inMode)) else None
  }

  /** The sweep's decision for one booth, as a function of its history. */
  function ModeAlertAt(now: int): BoothHistory -> Option<Alert> {
    (h: BoothHistory) => ModeAlert(h, now)
  }

  /** The booths the sweep alerts for. */
  function Fires(now: int): BoothHistory -> bool {
    Seqs.Defined(ModeAlertAt(now))
  }

  /** `checkNonNormalModes`: one alert per qualifying booth, in query order:
      the j-th alert is the j-th qualifying booth's, where the qualifying
      booths are exactly those whose mode run has lasted 24 hours, each as
      often as it occurs. */
  function CheckNonNormalModes(hs: seq<BoothHistory>, now: int): (alerts: seq<Alert>)
    ensures |alerts| == |Seqs.Filter(hs, Fires(now))| <= |hs|
    ensures forall j :: 0 <= j < |alerts| ==> Some(alerts[j]) == ModeAlert(Seqs.Filter(hs, Fires(now))[j], now)
    ensures forall i :: 0 <= i < |hs| && ModeAlert(hs[i], now).Some? ==> ModeAlert(hs[i], now).value in alerts
    ensures forall j :: 0 <= j < |alerts| ==> exists i :: 0 <= i < |hs| && ModeAlert(hs[i], now) == Some(alerts[j])
  {
    Seqs.CollectCovers(hs, ModeAlertAt(now));
    Seqs.Collect(hs, ModeAlertAt(now))
  }

  /** No suppression: once a booth qualifies it qualifies at every later
      sweep until its logs change. */
  lemma ModeAlertRefires(h: BoothHistory, now: int, later: int)
    requires ModeAlert(h, now).Some? && now <= later
    ensures ModeAlert(h, later).Some?
  {
  }

  /** Logs A@t0, A@t1, B@t2 (newest first): the run of A started at t1, the
      B log is the boundary and is not part of it. */
  lemma ModeRunExample(b: Booth, t0: int, t1: int, t2: int, now: int)
    ensures var logA0 := HealthLog(b.id, "healthy", None, Meta(Metadata(Some("A"), None)), t0);
            var logA1 := HealthLog(b.id, "healthy", None, Meta(Metadata(Some("A"), None)), t1);
            var logB := HealthLog(b.id, "healthy", None, Meta(Metadata(Some("B"), None)), t2);
            var h := BoothHistory(b, [logA0, logA1, logB]);
            && OldestInMode(h.logs, "A") == Some(1)
            && (now - t1 >= ModeThresholdMs ==> ModeAlert(h, now) == Some(NonNormalModeAlert(b.boothId, b.name, "A", now - t1)))
            && (now - t1 < ModeThresholdMs ==> ModeAlert(h, now).None?)
  {
    var logA0 := HealthLog(b.id, "healthy", None, Meta(Metadata(Some("A"), None)), t0);
    var logA1 := HealthLog(b.id, "healthy", None, Meta(Metadata(Some("A"), None)), t1);
    var logB := HealthLog(b.id, "healthy", None, Meta(Metadata(Some("B"), None)), t2);
    var logs := [logA0, logA1, logB];
    assert ContiguousTo(logs, "A", 1);
    assert !(Skipped(logs[2]) || InMode(logs[2], "A"));
    assert TrackedMode(logs) == Some("A");
  }

  // ---------------------------------------------------------------------------
  // Retention
  // ---------------------------------------------------------------------------

  const RetentionDays: int := 3

  /** A log is retained while it is younger than three days. */
  function Retained(now: int): HealthLog -> bool {
    (l: HealthLog) => l.createdAt >= now - RetentionDays * DayMs
  }

  /** The retention test keeps exactly the logs of the last three days. */
  lemma RetainedIsCutoff(now: int, l: HealthLog)
    ensures Retained(now)(l) <==> l.createdAt >= now - 3 * DayMs
  {
  }

  /** `cleanupOldHealthLogs`: delete the logs created before now minus three
      days, keeping the others in order and each as often as it occurs; the
      result also carries how many were deleted. */
  function CleanupOldHealthLogs(st: Store, now: int): (r: (Store, nat))
    ensures r.0.booths == st.booths && r.0.byId == st.byId && r.0.nextId == st.nextId
    ensures Seqs.IsSubsequence(r.0.logs, st.logs)
    ensures forall i :: 0 <= i < |r.0.logs| ==> r.0.logs[i].createdAt >= now - RetentionDays * DayMs
    ensures forall i :: 0 <= i < |st.logs| && st.logs[i].createdAt >= now - RetentionDays * DayMs ==>
      multiset(r.0.logs)[st.logs[i]] == multiset(st.logs)[st.logs[i]]
    ensures r.1 + |r.0.logs| == |st.logs|
  {
    var kept := Seqs.Filter(st.logs, Retained(now));
    (st.(logs := kept), |st.logs| - |kept|)
  }

  /** The deleted count is the number of logs older than the cutoff. */
  lemma CleanupCountsOldLogs(st: Store, now: int)
    ensures CleanupOldHealthLogs(st, now).1 == |Seqs.Filter(st.logs, Seqs.Not(Retained(now)))|
  {
    Seqs.FilterSplitsLength(st.logs, Retained(now));
  }

  /** Retention keeps the store valid and a second run right after deletes
      nothing. */
  lemma CleanupValidAndIdempotent(st: Store, now: int)
    requires Valid(st)
    ensures Valid(CleanupOldHealthLogs(st, now).0)
    ensures var once := CleanupOldHealthLogs(st, now).0;
            CleanupOldHealthLogs(once, now) == (once, 0)
  {
    var keep := Retained(now);
    var kept := Seqs.Filter(st.logs, keep);
    var once := st.(logs := kept);
    assert CleanupOldHealthLogs(st, now).0 == once;
    forall i | 0 <= i < |kept|
      ensures kept[i].boothRef in st.byId
    {
      Seqs.FilterIndex(st.logs, keep, i);
    }
    Seqs.FilterIdempotent(st.logs, keep);
    assert CleanupOldHealthLogs(once, now) == (once.(logs := Seqs.Filter(kept, keep)), |kept| - |Seqs.Filter(kept, keep)|);
  }
}
