# Photobooth health monitoring: status derivation and alert decisions

This project models, in Dafny, the decision logic of a photobooth fleet
monitor. Booths send periodic health pings. The server keeps one row per
booth and an append-only health log. Three sweeps run over that data:

- a stale sweep, for booths that fell silent inside their operating hours;
- a non-normal-mode sweep, for booths stuck in one mode for a day or more;
- a retention sweep, which deletes logs older than three days.

The booth list endpoint derives a status for each booth. The dashboard then
colours, labels, searches and triages those rows and edits their weekly
schedules.

Every operation is a pure function. Persistence is an in-memory `Store`: a
map from external `boothId` to booth row, an index from internal id to
`boothId`, and a log sequence. Notifications are returned as lists of `Alert`
values, not sent. The time-zone database is an injected `ZoneResolver`. It
maps a zone name to the local weekday and zero-padded `"HH:MM"`, or to `None`
when the formatter would reject the name. Instants are integer milliseconds.

Files, one module each:

- `wrappers.dfy`: `Option`, `Result`, JavaScript truthiness of optional strings.
- `seqs.dfy`: order-preserving `Filter` with an exact contract (a subsequence
  keeping every selected element as often as it occurs, and nothing else),
  `Collect` for partial maps, and their algebra (append, idempotence, commutation).
- `text.dfy`: string order `LexLe` and its link to clock minutes, ASCII case
  and trimming, substring search, decimal numerals.
- `timezones.dfy`: the Windows-to-IANA zone-name table and normalisation.
- `records.dfy`: booth rows, health logs, stored schedule and metadata parse outcomes, alerts.
- `operating_hours.dfy`: the two copies of the operating-hours evaluator.
- `store.dfy`: the store and its validity invariant.
- `booths_service.dfy`: the booth-list derivation and the two operator edits.
- `health_service.dfy`: ping ingestion, the stale and mode sweeps, retention.
- `health_controller.dfy`: the ping endpoint's ordered checks.
- `dashboard.dfy`: the dashboard's pure helpers.

The two evaluator copies differ. The health service turns a Windows zone name
such as "Eastern Standard Time" into an IANA name before resolving it. The
booths service passes the stored name through unchanged. The formatter
rejects a Windows name, and that copy then fails open. So a booth reporting a
Windows name can be "outside hours" for the stale sweep while the booth list
shows it "within hours". `OperatingHours.WindowsZoneNamesDiverge` exhibits
such an input. Windows names are not the only divergence: the health service
also sends every other name without a '/' (an abbreviation such as "EST", say)
to "UTC", while the booths service hands that name to the formatter as it is.
`OperatingHours.HealthCopyIsBoothsCopyOnNormalisedZone` states the exact
relation: the health copy is the booths copy applied to the normalised name.
`OperatingHours.CopiesAgreeOnIanaZones` shows that the copies agree on an empty
zone and on names containing '/'. This divergence is how the code behaves,
and the model keeps it.

## Model

| member | source | states |
|---|---|---|
| TimeZones.ConvertWindowsTimezoneToIana | server/src/health/health.service.ts:79-112 | a name containing '/' is returned unchanged; a Windows name from the table maps to its paired IANA name; any other name maps to "UTC" |
| TimeZones.Lookup | server/src/health/health.service.ts:111 | absent exactly when no pair has the name as key; otherwise the value of a pair with that key |
| TimeZones.ConvertedIsIanaOrUtc | server/src/health/health.service.ts:81-111 | the result is either "UTC" or contains '/' |
| TimeZones.ConvertIdempotent | server/src/health/health.service.ts:81-111 | normalising a normalised name changes nothing, because every IANA name in the table contains '/' |
| TimeZones.HealthZone | server/src/health/health.service.ts:130-133 | a missing or empty zone becomes "UTC"; any other zone is normalised |
| TimeZones.BoothsZone | server/src/booths/booths.service.ts:36 | a non-empty stored zone is used as it is; a missing or empty one becomes "UTC" |
| TimeZones.HealthZoneIsConvertedBoothsZone | server/src/health/health.service.ts:130-133 | the health service's zone is exactly the normalisation of the zone the booths service uses |
| OperatingHours.WithinHoursIn | server/src/health/health.service.ts:118-173 | true iff the schedule is missing, unparseable, disabled or empty, or the zone is rejected, or some entry has the local weekday and start <= time <= end as strings |
| OperatingHours.AlwaysOn | server/src/health/health.service.ts:118-126 | a restriction applies exactly when the stored hours parse, are enabled and have at least one entry |
| OperatingHours.EntryMatches | server/src/health/health.service.ts:161-167 | a match is on the entry's weekday; a window whose start equals its end matches at exactly that time |
| OperatingHours.AnyEntryMatches | server/src/health/health.service.ts:161-169 | the in-order scan finds a match iff some entry matches |
| OperatingHours.HealthWithinOperatingHours | server/src/health/health.service.ts:114-174 | fail-open cases give true; otherwise true iff some entry matches the local time in the normalised zone |
| OperatingHours.BoothsWithinOperatingHours | server/src/booths/booths.service.ts:21-75 | the same rule, evaluated in the stored zone name without normalisation |
| OperatingHours.CopiesAgreeOnIanaZones | server/src/booths/booths.service.ts:36 | the two copies agree whenever the stored zone is empty or already contains '/'; on other names they may differ |
| OperatingHours.HealthCopyIsBoothsCopyOnNormalisedZone | server/src/health/health.service.ts:130-133 | the health copy equals the booths copy applied to the normalised zone name |
| OperatingHours.WindowsZoneNamesDiverge | server/src/booths/booths.service.ts:72-74 | for a Windows zone name the health copy can say closed while the booths copy fails open and says open |
| OperatingHours.InvertedEntryNeverMatches | server/src/health/health.service.ts:161-167 | an entry whose start sorts after its end never matches: there is no overnight wrap |
| OperatingHours.EntryMatchesByMinutes | server/src/health/health.service.ts:163 | for well-formed "HH:MM" strings, the string comparison is the comparison of minutes since midnight |
| OperatingHours.MondayNineToFiveExample | server/src/health/health.service.ts:161-169 | a Monday 09:00-17:00 window is open at 10:00 and at 17:00 inclusive, and closed at 08:59 and on Tuesday |
| Text.LexLeIsTimeOrder | server/src/health/health.service.ts:158-163 | the string order on zero-padded clock times is their time-of-day order |
| Text.LexLePrefix | server/src/health/health.service.ts:163 | a prefix of a string sorts at or before it, and when the first string is non-empty the second is too and its first character is not smaller |
| Text.TrimBlankIgnoresCase | client/src/pages/Dashboard.tsx:188-191 | lower-casing a query does not change whether it trims to empty |
| BoothsService.StaleThresholdMinutes | server/src/booths/booths.service.ts:78-81 | the threshold is the parsed setting when that is a nonzero number, else 15, and is never 0 |
| BoothsService.DeriveMode | server/src/booths/booths.service.ts:109-115 | the latest log's parsed non-empty mode, else "Unknown" (no log, no metadata, bad metadata, empty mode) |
| Records.LogMode | server/src/booths/booths.service.ts:110-113 | the parsed metadata's mode field; nothing for null or unparseable metadata |
| BoothsService.RawStatus | server/src/booths/booths.service.ts:117 | never empty; the latest log's status when it is non-empty, falling back to "unknown" when there is no log or its status is empty |
| Records.MinutesSince | server/src/booths/booths.service.ts:100-102 | the whole minutes elapsed, rounded down: m minutes means at least m and less than m+1 minutes of milliseconds |
| BoothsService.ResolveStatus | server/src/booths/booths.service.ts:117-127 | maintenance mode wins, then outside hours gives "offline", then stale gives "stale", else the raw status |
| BoothsService.ResponseHours | server/src/booths/booths.service.ts:131-144 | the parsed schedule, or a disabled empty schedule when the column is absent or unparseable |
| BoothsService.Derive | server/src/booths/booths.service.ts:98-151 | one row: stale iff lastPing is before now minus the threshold, whole minutes since the last ping, booths-copy hours, mode, status precedence, and isMaintenance iff mode is "Maintenance" |
| BoothsService.FindAll | server/src/booths/booths.service.ts:77-153 | exactly one derived row per queried booth, in query order, all with the same threshold |
| BoothsService.StatusPrecedence | server/src/booths/booths.service.ts:117-127 | maintenance iff the latest log's mode is "Maintenance" and then status "maintenance"; unless the booth reported it, "offline" implies outside hours and "stale" implies stale inside hours |
| BoothsService.OutsideHoursMeansScheduled | server/src/booths/booths.service.ts:25-33 | a booth outside its hours has an enabled, non-empty schedule |
| BoothsService.StaleMeansThresholdMinutesOld | server/src/booths/booths.service.ts:100-103 | for every threshold setting, a stale booth's whole-minute age is at least the threshold |
| BoothsService.Update | server/src/booths/booths.service.ts:164-177 | NotFound iff no booth has the id; otherwise only that booth's row changes |
| BoothsService.UpdateOperatingHours | server/src/booths/booths.service.ts:179-197 | NotFound iff no booth has the id; otherwise only that booth's row changes |
| BoothsService.UpdateChangesOnlyName | server/src/booths/booths.service.ts:164-177 | a rename sets the name and nothing else and keeps the store valid; it fails exactly for an unknown id |
| BoothsService.UpdateOperatingHoursChangesOnlyHours | server/src/booths/booths.service.ts:179-197 | a schedule edit sets the schedule, which reads back as the same value, and nothing else; it fails exactly for an unknown id |
| Store.FindById | server/src/booths/booths.service.ts:165-171 | finds the booth with that internal id, and in a valid store finds nothing only when no booth has it |
| Store.LogsOfAppend | server/src/health/health.service.ts:48-57 | appending a log extends the history of its owner and of no other booth |
| Store.NoLogsForNextId | server/src/health/health.service.ts:39-44 | a newly created booth starts with no logs |
| HealthService.PingTimezone | server/src/health/health.service.ts:29 | the ping's zone is present exactly when its metadata carries a non-empty one, and is then that zone |
| HealthService.UpsertBooth | server/src/health/health.service.ts:32-45 | an existing row keeps its id, name and schedule and takes a non-empty ping zone without ever clearing one; a new row takes the ping's name and zone; lastPing is now |
| HealthService.StoredPingMetadata | server/src/health/health.service.ts:53-55 | null exactly when the ping has no metadata, otherwise the metadata itself; never unparseable |
| HealthService.PingModeReadsBack | server/src/health/health.service.ts:53-55 | the mode read from the new log is the mode the ping sent |
| HealthService.ProcessHealthPing | server/src/health/health.service.ts:26-77 | booth keys gain at most the ping's boothId; other booths are unchanged; exactly one log is appended; one health-update alert iff the status is "error" or "warning"; the receipt reports success |
| HealthService.IsAlertStatus | server/src/health/health.service.ts:64 | a status notifies immediately exactly when it is "error" or "warning", never when "healthy" or "offline" |
| HealthService.IngestPreservesValid | server/src/health/health.service.ts:32-57 | ingestion keeps one row per boothId, a consistent id index, and every log owned by a booth |
| HealthService.TwoPingsFromNewBooth | server/src/health/health.service.ts:32-57 | two pings from a new booth create one row holding two logs, with the second ping's time as lastPing |
| HealthService.StaleCandidate | server/src/health/health.service.ts:185-203 | a candidate has been silent at least 30 whole minutes; for a booth without a schedule the test is the silence alone |
| HealthService.CheckStaleBooths | server/src/health/health.service.ts:177-216 | one alert per booth silent for more than 30 minutes inside its hours, in query order and as often as the booth occurs: the j-th alert is the j-th such booth's, every such booth is alerted, nothing else is, and each reports whole minutes of at least 30 |
| HealthService.CheckStaleBoothsAppend | server/src/health/health.service.ts:193-212 | the sweep treats booths one at a time: sweeping a concatenation gives the two sweeps' alerts concatenated |
| HealthService.ContiguousStep | server/src/health/health.service.ts:262-280 | contiguity from the newest log to index j+1 is contiguity of the newest log and of the rest to index j |
| HealthService.Skipped | server/src/health/health.service.ts:262-279 | the scan steps over exactly the logs with null or unparseable metadata, which carry no mode |
| HealthService.OldestInMode | server/src/health/health.service.ts:260-280 | the chosen log is in the mode, every log from the newest down to it is skipped or in the mode, and no older in-mode log has that property |
| HealthService.TrackedMode | server/src/health/health.service.ts:233-245 | no tracked mode without a latest log, with null or bad metadata, or with an empty, "Normal" or "Unknown" mode; otherwise the latest log's mode |
| HealthService.TrackedModeRunIsFound | server/src/health/health.service.ts:283 | whenever a mode is tracked the scan finds a log, so that null check never fails |
| HealthService.ModeAlert | server/src/health/health.service.ts:283-298 | an alert iff a mode is tracked and its run's oldest log is at least 24 hours old, carrying the time spent in the mode |
| HealthService.CheckNonNormalModes | server/src/health/health.service.ts:218-308 | one alert per booth whose mode alert fires, in query order: the j-th alert is the j-th firing booth's alert, every firing booth is alerted and nothing else is |
| HealthService.ModeAlertRefires | server/src/health/health.service.ts:289-298 | an alert that fires now fires at every later sweep while the logs are unchanged |
| HealthService.ModeRunExample | server/src/health/health.service.ts:262-280 | for logs A, A, B (newest first) the run of A starts at the second log and B bounds it |
| HealthService.CleanupOldHealthLogs | server/src/health/health.service.ts:310-333 | the kept logs are a subsequence of the old ones, all created at or after now minus three days, holding every such log as often as before; booths are untouched and the deleted count plus the kept count is the old count |
| HealthService.RetainedIsCutoff | server/src/health/health.service.ts:312-320 | a log is kept exactly when it was created at or after now minus three days |
| HealthService.CleanupCountsOldLogs | server/src/health/health.service.ts:316-323 | the deleted count is the number of logs created before the cutoff |
| HealthService.CleanupValidAndIdempotent | server/src/health/health.service.ts:310-323 | retention keeps the store valid, and a second run right after deletes nothing |
| HealthController.HandlePing | server/src/health/health.controller.ts:32-47 | an unset key gives BadRequest first, then a missing or wrong header gives Unauthorized, then a missing boothId or status gives BadRequest; otherwise the ping is ingested unchanged |
| HealthController.AuthenticationBeforeValidation | server/src/health/health.controller.ts:33-40 | without the right key the outcome does not depend on the body and is a rejection |
| HealthController.AcceptedPingIsIngested | server/src/health/health.controller.ts:47 | an accepted ping appends one log with its status to a store that stays valid |
| Dashboard.GetStatusColor | client/src/pages/Dashboard.tsx:155-166 | grey for offline outside hours; red iff stale inside hours or "error"; amber iff "warning" and not stale inside hours; green iff "healthy" and not stale inside hours |
| Dashboard.GetStatusLabel | client/src/pages/Dashboard.tsx:168-172 | "Offline (Expected)" when offline outside hours, else "Stale" when stale inside hours, else the status capitalised |
| Dashboard.Capitalize | client/src/pages/Dashboard.tsx:171 | same length, first character upper-cased, rest unchanged |
| Dashboard.CapitalizeOnlyChangesCase | client/src/pages/Dashboard.tsx:171 | lower-casing the capitalised status gives the lower-cased status |
| Dashboard.LabelAndColourAgree | client/src/pages/Dashboard.tsx:155-172 | the expected-offline label is grey, the stale label is red, and any other label is the status up to case, red iff "error" |
| Dashboard.IssuesAreColoured | client/src/pages/Dashboard.tsx:155-166 | a row needing attention is red or amber, a red row always needs attention, and an amber row that does not is a warning outside hours |
| Dashboard.AlertStatusesAreColoured | server/src/health/health.service.ts:64 | the statuses that notify immediately are exactly those painted red or amber for a fresh booth inside hours, and such a booth needs attention |
| Dashboard.HasIssue | client/src/pages/Dashboard.tsx:202-204 | an error always needs attention; outside hours only an error does |
| Dashboard.BoothHasIssue | client/src/pages/Dashboard.tsx:201-205 | a row with status "error" always needs attention; a row outside its hours needs attention only with status "error" |
| Dashboard.MatchesQuery | client/src/pages/Dashboard.tsx:193-195 | the empty query matches every row; a match is no longer than the id or the name it was found in |
| Dashboard.FilterBooths | client/src/pages/Dashboard.tsx:187-197 | a blank query keeps every row; otherwise a subsequence of the rows holding only rows whose id or non-empty name contains the lower-cased trimmed query, and every such row as often as it occurs (which determines the result) |
| Seqs.Filter | client/src/pages/Dashboard.tsx:192-196 | a subsequence of the input holding only selected elements, and every selected element as often as the input does |
| Seqs.FilterIsUnique | client/src/pages/Dashboard.tsx:192-196 | those three facts determine the filter: any sequence meeting them is the filter |
| Dashboard.FilterBoothsIdempotent | client/src/pages/Dashboard.tsx:187-197 | searching the search result again changes nothing |
| Dashboard.SearchIgnoresQueryCase | client/src/pages/Dashboard.tsx:188-191 | the query's case does not matter |
| Dashboard.BoothsWithIssues | client/src/pages/Dashboard.tsx:199-206 | a subsequence of the rows holding only rows needing attention, and with a blank query every such row as often as it occurs |
| Dashboard.IssuesOfSearchedList | client/src/pages/Dashboard.tsx:199-208 | the attention list is the searched full list restricted to rows needing attention |
| Dashboard.ServedAsWritten | server/src/booths/booths.service.ts:138-151 | the row the browser receives has no stale flag, which reads as false; nothing else differs |
| Dashboard.StaleBoothHiddenAsWritten | client/src/pages/Dashboard.tsx:199-206 | as written, a booth stale inside its hours is missing from the attention list and gets a grey "Stale" chip |
| Dashboard.StaleBoothsAreIssues | client/src/pages/Dashboard.tsx:199-206 | with the flag served, every booth stale inside hours needs attention, is red and is labelled "Stale" |
| Dashboard.IssueFromDerivation | client/src/pages/Dashboard.tsx:199-206 | with the stale flag served (corrected behaviour): outside hours nothing needs attention; inside hours and not in maintenance, a row needs attention iff it is stale or its raw status is "error" or "warning" |
| Dashboard.AddScheduleEntry | client/src/pages/Dashboard.tsx:128-136 | appends exactly Sunday 09:00-17:00 and keeps every earlier entry |
| Dashboard.RemoveScheduleEntry | client/src/pages/Dashboard.tsx:138-143 | drops only the entry at the index and keeps the rest in order; any other index changes nothing |
| Dashboard.RemoveUndoesAdd | client/src/pages/Dashboard.tsx:128-143 | removing the entry just added restores the schedule |
| Dashboard.ApplyField | client/src/pages/Dashboard.tsx:151 | writes exactly one field of an entry |
| Dashboard.UpdateScheduleEntry | client/src/pages/Dashboard.tsx:145-153 | same length; only the addressed entry changes, and only in the written field |
| Dashboard.UpdateScheduleEntryLaws | client/src/pages/Dashboard.tsx:145-153 | the last write to a day wins, writing the current value is a no-op, and writes to different entries commute |
| Dashboard.DayName | client/src/pages/Dashboard.tsx:649-653 | the day's entry of the Sun..Sat table for 0 to 6, and "undefined" for any other day |
| Dashboard.EntryText | client/src/pages/Dashboard.tsx:653 | a non-empty text starting with the day name's first letter |
| Dashboard.Join | client/src/pages/Dashboard.tsx:652-654 | empty for no parts; otherwise as long as the parts together plus one separator between neighbours |
| Dashboard.JoinLayout | client/src/pages/Dashboard.tsx:652-654 | the k-th part sits at the total length of the earlier parts plus k separators, directly after a separator unless it is the first |
| Dashboard.JoinStartsWithFirst | client/src/pages/Dashboard.tsx:652-654 | a join of several parts starts with the first part |
| Dashboard.ScheduleTexts | client/src/pages/Dashboard.tsx:652-654 | one "Day: start-end" text per entry, in order |
| Dashboard.OperatingHoursText | client/src/pages/Dashboard.tsx:651-655 | "Always on" for a disabled or empty schedule; otherwise its length is the entry texts' total plus two per ", " separator |
| Dashboard.AlwaysOnTextIffNoSchedule | client/src/pages/Dashboard.tsx:651-655 | "Always on" exactly for a disabled or empty schedule; an active schedule's line starts with its first entry |
| Dashboard.OperatingHoursTextLayout | client/src/pages/Dashboard.tsx:651-655 | an active schedule's line holds every entry's text in order, each after ", " except the first |
| Dashboard.LastPingText | client/src/pages/Dashboard.tsx:710-712 | "Just now" below one minute, otherwise a numeral followed by " min ago" |
| Dashboard.LastPingTextReadsBack | client/src/pages/Dashboard.tsx:710-712 | "Just now" exactly below one minute, and otherwise the numeral reads back as the minutes |
| Dashboard.ChipShowsExactlyOutsideHours | client/src/pages/Dashboard.tsx:723-732 | on a derived row the "Offline (Expected)" chip shows exactly outside hours, and the status is then "offline" or "maintenance" |
| Dashboard.OfflineExpectedChip | client/src/pages/Dashboard.tsx:723-725 | the chip implies outside hours and a line other than "Always on"; outside hours without the chip the line is "Always on" |

## Left out

- Slack transport and message formatting: alerts are returned as `Alert` values. Sending, the skip when no token is configured, and error swallowing do not affect any result.
- The IANA time-zone database behind `Intl.DateTimeFormat` is the injected `ZoneResolver`. The resolver's "24:00" midnight rendering and the weekday fallback to Sunday are its business.
- Prisma persistence: replaced by the in-memory `Store`. Generated ids are a counter, and `updatedAt` is not kept.
- `JSON.parse`: a stored schedule or metadata is a parse outcome (`StoredHours`, `StoredMetadata`). A parsed schedule object with no `schedule` array is not represented.
- Cron scheduling, sweep cadence, overlapping sweeps and concurrent pings are timing and concurrency, not logic.
- The source reads the clock several times within one operation; the model uses one `now` per operation.
- Shifting the threshold dates with `setMinutes` and `setDate` is modelled as exact millisecond subtraction, so daylight-saving shifts of `setDate` are not modelled.
- HealthService.ModeAlert: reports whole milliseconds in the mode rather than the floating-point `hoursInMode`. The 24-hour comparison is the same.
- `parseInt` of the stale-threshold setting: its outcome is an input (`IntParse`).
- Case folding and trimming are ASCII only: Unicode `toLowerCase`, and whitespace beyond ASCII, are not modelled.
- Text.LexLe: compares Unicode characters, where JavaScript compares UTF-16 code units; the two orders differ only for characters beyond the Basic Multilingual Plane, and a well-formed "HH:MM" time contains none.
- TimeZones.ConvertWindowsTimezoneToIana: inherited object keys such as "constructor" are not looked up in the table, unlike the JavaScript object lookup.
- Dashboard.UpdateScheduleEntry: requires an index inside the schedule. The editor only passes indices of rendered entries, and an out-of-range write would create a sparse array, which has no counterpart here.
- The `create` operation of the booths service, its controller routing, and authentication beyond the ping key are not part of this model.
- Request bodies whose `boothId` or `status` is not a string are not modelled; the model's request fields are optional strings.
- Metadata values that are not strings are not modelled: a numeric or object `mode` or `timezone`, and metadata that is not an object. Both are optional strings here.
- A booth created by a ping starts with no stored schedule, as the create branch of the upsert sets none; a database default for that column is not modelled.
- The receipt's constant "Health ping processed" message and ISO formatting of its timestamp are not modelled.
- JSX rendering, dialogs, polling and login are UI plumbing.

## Findings

| source | as written | input that shows it | evidently intended | confidence | as-written member | corrected member |
|---|---|---|---|---|---|---|
| server/src/booths/booths.service.ts:138-151 | the booth-list response computes `isStale` but does not include it, and the client's row type has no such field, so the dashboard's stale test reads an undefined, false flag | a booth with no schedule whose last ping is 20 minutes old, with the default 15-minute threshold: status "stale", not in the attention list, grey chip | serve `isStale`, so a booth stale inside its hours is listed as needing attention and shown red | not executed | Dashboard.StaleBoothHiddenAsWritten | Dashboard.StaleBoothsAreIssues |
