/** The persisted entities of the monitoring core and the alert events the
    core hands to the notifier. Instants are integer milliseconds since the
    epoch. */
module Records {
  import opened Wrappers

  const MinuteMs: int := 60 * 1000
  const HourMs: int := 60 * MinuteMs
  const DayMs: int := 24 * HourMs

  /** One weekly operating window: `day` 0 is Sunday, `start`/`end` are
      "HH:MM" strings compared as strings. */
  datatype Entry = Entry(day: int, start: string, end: string)

  datatype Hours = Hours(enabled: bool, schedule: seq<Entry>)

  /** The booth's operating-hours column: absent (null or empty), present
      but failing `JSON.parse`, or a parsed schedule object. */
  datatype StoredHours = NoHours | Unparseable | Parsed(hours: Hours)

  /** The keys of a ping's metadata that the core reads; every other key is
      carried opaquely. */
  datatype Metadata = Metadata(mode: Option<string>, timezone: Option<string>)

  /** A health log's metadata column: null, unparseable, or a parsed object. */
  datatype StoredMetadata = NoMetadata | BadMetadata | Meta(metadata: Metadata)

  /** A booth row: `id` is the internal key, `boothId` the external one. */
  datatype Booth = Booth(
    id: nat,
    boothId: string,
    name: Option<string>,
    timezone: Option<string>,
    operatingHours: StoredHours,
    lastPing: int)

  /** A health log row, owned by the booth whose internal id is `boothRef`. */
  datatype HealthLog = HealthLog(
    boothRef: nat,
    status: string,
    message: Option<string>,
    metadata: StoredMetadata,
    createdAt: int)

  /** The payloads the core passes to the chat notifier. */
  datatype Alert =
    | StaleAlert(boothId: string, boothName: Option<string>, lastPing: int, minutesSinceLastPing: int)
    | NonNormalModeAlert(boothId: string, boothName: Option<string>, mode: string, msInMode: int)
    | HealthUpdate(boothId: string, boothName: Option<string>, status: string, message: Option<string>, createdAt: int)

  /** Whole minutes elapsed, `Math.floor((now - since) / 60000)`: Dafny's
      division by a positive divisor rounds down like `Math.floor`. */
  function MinutesSince(now: int, since: int): (m: int)
    ensures m * MinuteMs <= now - since < (m + 1) * MinuteMs
  {
    (now - since) / MinuteMs
  }

  /** More than `k` minutes of milliseconds are at least `k` whole minutes. */
  lemma MinutesSinceAtLeast(now: int, since: int, k: int)
    ensures now - since > k * MinuteMs ==> MinutesSince(now, since) >= k
  {
  }

  /** The mode a log reports, if its metadata parses and carries one. */
  function LogMode(log: HealthLog): (m: Option<string>)
    ensures log.metadata.Meta? ==> m == log.metadata.metadata.mode
    ensures !log.metadata.Meta? ==> m.None?
  {
    match log.metadata
    case Meta(m) => m.mode
    case _ => None
  }
}
