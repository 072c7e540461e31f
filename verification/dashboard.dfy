/** The dashboard's pure helpers: status colour and label, the search filter,
    the "needs attention" list, the schedule editor's list edits, and the
    texts and chip shown on each booth card. They read the rows the booth
    list returns. */
module Dashboard {
  import opened Wrappers
  import opened Text
  import opened Records
  import opened OperatingHours
  import opened BoothsService
  import HealthService
  import Seqs

  // ---------------------------------------------------------------------------
  // Status colour and label
  // ---------------------------------------------------------------------------

  datatype StatusColor = Error | Warning | Success | Default

  /** First match wins: expected offline, stale inside hours, then the raw
      status. */
  function GetStatusColor(status: string, isStale: bool, within: bool): (c: StatusColor)
    ensures status == "offline" && !within ==> c == Default
    ensures c == Error <==> (isStale && within) || status == "error"
    ensures c == Warning <==> status == "warning" && !(isStale && within)
    ensures c == StatusColor.Success <==> status == "healthy" && !(isStale && within)
  {
    if status == "offline" && !within then Default
    else if isStale && within then Error
    else if status == "error" then Error
    else if status == "warning" then Warning
    else if status == "healthy" then StatusColor.Success
    else Default
  }

  /** `charAt(0).toUpperCase() + slice(1)`. */
  function Capitalize(s: string): (r: string)
    ensures |r| == |s|
    ensures |s| > 0 ==> r[0] == UpperChar(s[0]) && r[1..] == s[1..]
  {
    if |s| == 0 then "" else [UpperChar(s[0])] + s[1..]
  }

  function GetStatusLabel(status: string, isStale: bool, within: bool): (shown: string)
    ensures status == "offline" && !within ==> shown == "Offline (Expected)"
    ensures !(status == "offline" && !within) && isStale && within ==> shown == "Stale"
    ensures !(status == "offline" && !within) && !(isStale && within) ==> shown == Capitalize(status)
  {
    if status == "offline" && !within then "Offline (Expected)"
    else if isStale && within then "Stale"
    else Capitalize(status)
  }

  /** Capitalising only changes case: lower-casing the label of a status
      that no special case applies to gives back the lower-cased status. */
  lemma CapitalizeOnlyChangesCase(s: string)
    ensures ToLower(Capitalize(s)) == ToLower(s)
  {
    var r := Capitalize(s);
    if |s| > 0 {
      assert LowerChar(UpperChar(s[0])) == LowerChar(s[0]);
      assert forall i :: 1 <= i < |s| ==> r[i] == s[i];
    }
  }

  /** Colour and label tell the same story: the expected-offline label is
      grey, the stale label is red, and any other label is the status itself
      up to case. */
  lemma LabelAndColourAgree(status: string, isStale: bool, within: bool)
    ensures var shown := GetStatusLabel(status, isStale, within);
            var c := GetStatusColor(status, isStale, within);
      && (status == "offline" && !within ==> shown == "Offline (Expected)" && c == Default)
      && (isStale && within ==> shown == "Stale" && c == Error)
      && (!(status == "offline" && !within) && !(isStale && within) ==>
            ToLower(shown) == ToLower(status) && (c == Error <==> status == "error"))
  {
    CapitalizeOnlyChangesCase(status);
  }

  // ---------------------------------------------------------------------------
  // Attention list
  // ---------------------------------------------------------------------------

  /** The dashboard's "needs attention" test: stale inside hours, any error,
      or a warning inside hours. */
  function HasIssue(isStale: bool, status: string, within: bool): (r: bool)
    ensures status == "error" ==> r
    ensures r && !within ==> status == "error"
  {
    (isStale && within) || status == "error" || (status == "warning" && within)
  }

  /** An issue is always shown red or amber; a red chip is always an issue,
      and an amber chip outside an issue is a warning from outside hours. */
  lemma IssuesAreColoured(status: string, isStale: bool, within: bool)
    ensures HasIssue(isStale, status, within) ==>
      GetStatusColor(status, isStale, within) in {Error, Warning}
    ensures GetStatusColor(status, isStale, within) == Error ==> HasIssue(isStale, status, within)
    ensures GetStatusColor(status, isStale, within) == Warning && !HasIssue(isStale, status, within) ==>
      status == "warning" && !within
  {
  }

  /** The statuses that send an immediate notification are exactly those the
      dashboard paints red or amber for a fresh booth inside its hours. */
  lemma AlertStatusesAreColoured(status: string)
    ensures HealthService.IsAlertStatus(status) <==> GetStatusColor(status, false, true) in {Error, Warning}
    ensures HealthService.IsAlertStatus(status) ==> HasIssue(false, status, true)
  {
  }

  /** A row of the booth list needs attention. */
  function BoothHasIssue(d: DerivedBooth): (r: bool)
    ensures d.status == "error" ==> r
    ensures r && !d.isWithinOperatingHours ==> d.status == "error"
  {
    HasIssue(d.isStale, d.status, d.isWithinOperatingHours)
  }

  function IssueFilter(): DerivedBooth -> bool {
    (d: DerivedBooth) => BoothHasIssue(d)
  }

  // ---------------------------------------------------------------------------
  // Search
  // ---------------------------------------------------------------------------

  /** A row matches a (lower-cased, trimmed) query when its external id or
      its non-empty name contains the query, ignoring case. */
  function MatchesQuery(d: DerivedBooth, q: string): (r: bool)
    ensures q == "" ==> r
    ensures r ==> |q| <= |d.boothId| || (d.name.Some? && |q| <= |d.name.value|)
  {
    assert q == "" ==> IsPrefix(q, ToLower(d.boothId)[0..]);
    Contains(ToLower(d.boothId), q) || (Truthy(d.name) && Contains(ToLower(d.name.value), q))
  }

  function QueryFilter(q: string): DerivedBooth -> bool {
    (d: DerivedBooth) => MatchesQuery(d, q)
  }

  /** The normalised query the filter compares against. */
  function NormalQuery(query: string): string {
    Trim(ToLower(query))
  }

  /** A blank query shows every row; otherwise exactly the matching rows, in
      their order and each as often as it occurs (`Seqs.FilterIsUnique`: these
      three facts determine the result). */
  function FilterBooths(rows: seq<DerivedBooth>, query: string): (r: seq<DerivedBooth>)
    ensures Trim(query) == "" ==> r == rows
    ensures Seqs.IsSubsequence(r, rows)
    ensures Trim(query) != "" ==>
      && (forall i :: 0 <= i < |r| ==> MatchesQuery(r[i], NormalQuery(query)))
      && (forall i :: 0 <= i < |rows| && MatchesQuery(rows[i], NormalQuery(query)) ==>
            multiset(r)[rows[i]] == multiset(rows)[rows[i]])
  {
    if Trim(query) == "" then
      Seqs.SubsequenceReflexive(rows);
      rows
    else
      Seqs.Filter(rows, QueryFilter(NormalQuery(query)))
  }

  /** Searching the result again with the same query changes nothing. */
  lemma FilterBoothsIdempotent(rows: seq<DerivedBooth>, query: string)
    ensures FilterBooths(FilterBooths(rows, query), query) == FilterBooths(rows, query)
  {
    if Trim(query) != "" {
      Seqs.FilterIdempotent(rows, QueryFilter(NormalQuery(query)));
    }
  }

  /** Lower-casing the query first gives the same result: the search is
      case-insensitive in the query as well as in the rows. */
  lemma SearchIgnoresQueryCase(rows: seq<DerivedBooth>, query: string)
    ensures FilterBooths(rows, ToLower(query)) == FilterBooths(rows, query)
  {
    TrimBlankIgnoresCase(query);
    ToLowerIdempotent(query);
    assert NormalQuery(ToLower(query)) == NormalQuery(query);
  }

  /** The attention list: the issue rows, narrowed by the search. It keeps the
      rows' order, holds issue rows only, and with a blank query holds every
      issue row as often as it occurs. */
  function BoothsWithIssues(rows: seq<DerivedBooth>, query: string): (r: seq<DerivedBooth>)
    ensures Seqs.IsSubsequence(r, rows)
    ensures forall i :: 0 <= i < |r| ==> BoothHasIssue(r[i])
    ensures Trim(query) == "" ==>
      forall i :: 0 <= i < |rows| && BoothHasIssue(rows[i]) ==> multiset(r)[rows[i]] == multiset(rows)[rows[i]]
  {
    var issues := Seqs.Filter(rows, IssueFilter());
    var r := FilterBooths(issues, query);
    Seqs.SubsequenceTransitive(r, issues, rows);
    Seqs.SubsequenceAll(r, issues, IssueFilter());
    r
  }

  /** The attention list is the searched full list restricted to issues: the
      two filters may be applied in either order. */
  lemma IssuesOfSearchedList(rows: seq<DerivedBooth>, query: string)
    ensures BoothsWithIssues(rows, query) == Seqs.Filter(FilterBooths(rows, query), IssueFilter())
  {
    if Trim(query) != "" {
      Seqs.FilterCommutes(rows, IssueFilter(), QueryFilter(NormalQuery(query)));
    }
  }

  // ---------------------------------------------------------------------------
  // The stale flag on the wire
  // ---------------------------------------------------------------------------

  /** The row as the browser sees it, as written: the response object omits
      `isStale`, so the dashboard reads an undefined, falsy flag. */
  function ServedAsWritten(d: DerivedBooth): (c: DerivedBooth)
    ensures !c.isStale
    ensures c.(isStale := d.isStale) == d
  {
    d.(isStale := false)
  }

  /** As written, a booth that the service marks stale inside its hours is
      neither in the attention list nor red: it shows a grey "Stale" chip. */
  lemma StaleBoothHiddenAsWritten(resolve: ZoneResolver)
    ensures var b := BoothWithLatest(Booth(0, "b1", None, None, NoHours, 0), None);
            var d := Derive(b, 20 * MinuteMs, DefaultStaleMinutes, resolve);
            var c := ServedAsWritten(d);
      && d.isStale && d.isWithinOperatingHours && d.status == "stale"
      && !BoothHasIssue(c)
      && GetStatusColor(c.status, c.isStale, c.isWithinOperatingHours) == Default
      && GetStatusLabel(c.status, c.isStale, c.isWithinOperatingHours) == "Stale"
  {
    var b := BoothWithLatest(Booth(0, "b1", None, None, NoHours, 0), None);
    var d := Derive(b, 20 * MinuteMs, DefaultStaleMinutes, resolve);
    assert d.mode == "Unknown";
    assert d.isWithinOperatingHours;
    assert Capitalize("stale") == "Stale";
  }

  /** With the flag carried to the browser, every row that the service marks
      stale inside hours (and not in maintenance) needs attention, is red and
      is labelled "Stale". */
  lemma StaleBoothsAreIssues(b: BoothWithLatest, now: int, thresholdMinutes: int, resolve: ZoneResolver)
    ensures var d := Derive(b, now, thresholdMinutes, resolve);
      d.isStale && d.isWithinOperatingHours ==>
        && BoothHasIssue(d)
        && GetStatusColor(d.status, d.isStale, d.isWithinOperatingHours) == Error
        && GetStatusLabel(d.status, d.isStale, d.isWithinOperatingHours) == "Stale"
  {
  }

  /** Which rows need attention, in terms of the service's inputs: the raw
      error status always (unless maintenance or outside hours rewrote it),
      and a stale booth or a raw warning only inside hours. */
  lemma IssueFromDerivation(b: BoothWithLatest, now: int, thresholdMinutes: int, resolve: ZoneResolver)
    ensures var d := Derive(b, now, thresholdMinutes, resolve);
      && (!d.isWithinOperatingHours ==> !BoothHasIssue(d))
      && (d.isWithinOperatingHours && !d.isMaintenance ==>
            (BoothHasIssue(d) <==> d.isStale || RawStatus(b.latest) == "error" || RawStatus(b.latest) == "warning"))
  {
  }

  // ---------------------------------------------------------------------------
  // Schedule editor
  // ---------------------------------------------------------------------------

  /** The entry the editor appends: Sunday 09:00 to 17:00. */
  const NewEntry: Entry := Entry(0, "09:00", "17:00")

  function AddScheduleEntry(h: Hours): (r: Hours)
    ensures r.enabled == h.enabled
    ensures |r.schedule| == |h.schedule| + 1
    ensures r.schedule[..|h.schedule|] == h.schedule
    ensures r.schedule[|h.schedule|] == Entry(0, "09:00", "17:00")
  {
    h.(schedule := h.schedule + [NewEntry])
  }

  /** Drop the entry at `index`; an index that is not a position of the
      schedule leaves it as it is. */
  function RemoveScheduleEntry(h: Hours, index: int): (r: Hours)
    ensures r.enabled == h.enabled
    ensures 0 <= index < |h.schedule| ==>
      && |r.schedule| == |h.schedule| - 1
      && (forall i :: 0 <= i < index ==> r.schedule[i] == h.schedule[i])
      && (forall i :: index <= i < |r.schedule| ==> r.schedule[i] == h.schedule[i + 1])
    ensures !(0 <= index < |h.schedule|) ==> r == h
  {
    if 0 <= index < |h.schedule| then h.(schedule := h.schedule[..index] + h.schedule[index + 1..])
    else h
  }

  /** Removing the entry just added restores the schedule. */
  lemma RemoveUndoesAdd(h: Hours)
    ensures RemoveScheduleEntry(AddScheduleEntry(h), |h.schedule|) == h
  {
    var a := AddScheduleEntry(h);
    assert a.schedule[..|h.schedule|] + a.schedule[|h.schedule| + 1..] == h.schedule;
  }

  /** The three fields the editor's inputs write. */
  datatype FieldUpdate = SetDay(day: int) | SetStart(start: string) | SetEnd(end: string)

  function ApplyField(e: Entry, u: FieldUpdate): (r: Entry)
    ensures u.SetDay? ==> r.day == u.day && r.start == e.start && r.end == e.end
    ensures u.SetStart? ==> r.start == u.start && r.day == e.day && r.end == e.end
    ensures u.SetEnd? ==> r.end == u.end && r.day == e.day && r.start == e.start
  {
    match u
    case SetDay(d) => e.(day := d)
    case SetStart(s) => e.(start := s)
    case SetEnd(t) => e.(end := t)
  }

  /** Write one field of the entry at `index`. */
  function UpdateScheduleEntry(h: Hours, index: int, u: FieldUpdate): (r: Hours)
    requires 0 <= index < |h.schedule|
    ensures r.enabled == h.enabled && |r.schedule| == |h.schedule|
    ensures r.schedule[index] == ApplyField(h.schedule[index], u)
    ensures forall i :: 0 <= i < |h.schedule| && i != index ==> r.schedule[i] == h.schedule[i]
  {
    h.(schedule := h.schedule[index := ApplyField(h.schedule[index], u)])
  }

  /** The editor's write laws: the last write to a field wins, writing the
      value already there changes nothing, and writes to different entries
      commute. */
  lemma UpdateScheduleEntryLaws(h: Hours, i: int, j: int, u: FieldUpdate, v: FieldUpdate)
    requires 0 <= i < |h.schedule| && 0 <= j < |h.schedule|
    ensures u.SetDay? && v.SetDay? ==>
      UpdateScheduleEntry(UpdateScheduleEntry(h, i, u), i, v) == UpdateScheduleEntry(h, i, v)
    ensures UpdateScheduleEntry(h, i, SetDay(h.schedule[i].day)) == h
    ensures UpdateScheduleEntry(h, i, SetStart(h.schedule[i].start)) == h
    ensures UpdateScheduleEntry(h, i, SetEnd(h.schedule[i].end)) == h
    ensures i != j ==>
      UpdateScheduleEntry(UpdateScheduleEntry(h, i, u), j, v)
        == UpdateScheduleEntry(UpdateScheduleEntry(h, j, v), i, u)
  {
    if i != j {
      var a := UpdateScheduleEntry(UpdateScheduleEntry(h, i, u), j, v);
      var b := UpdateScheduleEntry(UpdateScheduleEntry(h, j, v), i, u);
      assert a.schedule == b.schedule;
    }
  }

  // ---------------------------------------------------------------------------
  // Booth card texts
  // ---------------------------------------------------------------------------

  const DayNames: seq<string> := ["Sun", "Mon", "Tue", "Wed", "Thu", "Fri", "Sat"]

  /** `dayNames[day]`, which renders as "undefined" off the end of the table. */
  function DayName(day: int): (s: string)
    ensures 0 <= day < |DayNames| ==> s == DayNames[day]
    ensures !(0 <= day < |DayNames|) ==> s == "undefined"
    ensures |s| > 0 && s[0] != 'A'
  {
    if day == 0 then "Sun" else if day == 1 then "Mon" else if day == 2 then "Tue"
    else if day == 3 then "Wed" else if day == 4 then "Thu" else if day == 5 then "Fri"
    else if day == 6 then "Sat" else "undefined"
  }

  /** `${dayNames[entry.day]}: ${entry.start}-${entry.end}`. */
  function EntryText(e: Entry): (s: string)
    ensures |s| == |DayName(e.day)| + 3 + |e.start| + |e.end|
    ensures s[..|DayName(e.day)|] == DayName(e.day)
    ensures s[|DayName(e.day)|..|DayName(e.day)| + 2] == ": "
    ensures s[|DayName(e.day)| + 2..|DayName(e.day)| + 2 + |e.start|] == e.start
    ensures s[|DayName(e.day)| + 2 + |e.start|] == '-'
    ensures s[|DayName(e.day)| + 3 + |e.start|..] == e.end
    ensures |s| > 0 && s[0] == DayName(e.day)[0]
  {
    DayName(e.day) + ": " + e.start + "-" + e.end
  }

  /** The total length of the parts. */
  function SumLengths(parts: seq<string>): nat
    decreases |parts|
  {
    if |parts| == 0 then 0 else SumLengths(parts[..|parts| - 1]) + |parts[|parts| - 1]|
  }

  /** Where the `k`-th part starts in the joined string. */
  function Offset(parts: seq<string>, sep: string, k: int): nat
    requires 0 <= k <= |parts|
  {
    SumLengths(parts[..k]) + k * |sep|
  }

  /** `parts.join(sep)`: the parts with one separator between neighbours. */
  function Join(parts: seq<string>, sep: string): (r: string)
    ensures |parts| == 0 ==> r == ""
    ensures |parts| > 0 ==> |r| == SumLengths(parts) + (|parts| - 1) * |sep|
    decreases |parts|
  {
    if |parts| == 0 then ""
    else if |parts| == 1 then parts[0]
    else
      var init := parts[..|parts| - 1];
      var j := Join(init, sep);
      assert |j| + |sep| == SumLengths(init) + (|init| - 1) * |sep| + |sep| == SumLengths(init) + (|parts| - 1) * |sep|;
      j + sep + parts[|parts| - 1]
  }

  /** The layout of a join: the `k`-th part sits at `Offset(parts, sep, k)`,
      directly after a separator when it is not the first. */
  lemma {:induction false} JoinLayout(parts: seq<string>, sep: string, k: int)
    requires 0 <= k < |parts|
    ensures Offset(parts, sep, k) + |parts[k]| <= |Join(parts, sep)|
    ensures Join(parts, sep)[Offset(parts, sep, k)..Offset(parts, sep, k) + |parts[k]|] == parts[k]
    ensures k > 0 ==>
      && |sep| <= Offset(parts, sep, k)
      && Join(parts, sep)[Offset(parts, sep, k) - |sep|..Offset(parts, sep, k)] == sep
    decreases |parts|
  {
    var r := Join(parts, sep);
    var o := Offset(parts, sep, k);
    if |parts| == 1 {
      assert parts[..0] == [];
    } else {
      var init := parts[..|parts| - 1];
      var j := Join(init, sep);
      assert r == j + sep + parts[|parts| - 1];
      if k < |init| {
        JoinLayout(init, sep, k);
        assert parts[..k] == init[..k];
        assert Offset(init, sep, k) == o;
        assert r[o..o + |parts[k]|] == j[o..o + |parts[k]|];
        if k > 0 {
          assert r[o - |sep|..o] == j[o - |sep|..o];
        }
      } else {
        assert parts[..k] == init;
        assert o == |j| + |sep| by {
          assert (|parts| - 1) * |sep| == (|init| - 1) * |sep| + |sep|;
        }
      }
    }
  }

  /** A join of several parts starts with the first part. */
  lemma JoinStartsWithFirst(parts: seq<string>, sep: string)
    requires |parts| > 0
    ensures IsPrefix(parts[0], Join(parts, sep))
  {
    JoinLayout(parts, sep, 0);
    assert parts[..0] == [];
  }

  function ScheduleTexts(schedule: seq<Entry>): (r: seq<string>)
    ensures |r| == |schedule|
    ensures forall i :: 0 <= i < |schedule| ==> r[i] == EntryText(schedule[i])
  {
    seq(|schedule|, i requires 0 <= i < |schedule| => EntryText(schedule[i]))
  }

  /** The card's hours line. */
  function OperatingHoursText(h: Hours): (s: string)
    ensures !h.enabled || |h.schedule| == 0 ==> s == "Always on"
    ensures h.enabled && |h.schedule| > 0 ==>
      |s| == SumLengths(ScheduleTexts(h.schedule)) + 2 * (|h.schedule| - 1)
  {
    if h.enabled && |h.schedule| > 0 then Join(ScheduleTexts(h.schedule), ", ")
    else "Always on"
  }

  /** "Always on" is shown exactly for a disabled or empty schedule; an
      active schedule's line starts with its first entry's text. */
  lemma AlwaysOnTextIffNoSchedule(h: Hours)
    ensures OperatingHoursText(h) == "Always on" <==> !h.enabled || |h.schedule| == 0
    ensures h.enabled && |h.schedule| > 0 ==>
      IsPrefix(EntryText(h.schedule[0]), OperatingHoursText(h))
  {
    if h.enabled && |h.schedule| > 0 {
      var parts := ScheduleTexts(h.schedule);
      JoinStartsWithFirst(parts, ", ");
      var s := OperatingHoursText(h);
      assert s[0] == parts[0][0];
      assert s[0] != 'A';
    }
  }

  /** An active schedule's line lists every entry's text in order, each
      after a ", " except the first. */
  lemma OperatingHoursTextLayout(h: Hours, k: int)
    requires h.enabled && 0 <= k < |h.schedule|
    ensures var s := OperatingHoursText(h);
            var e := EntryText(h.schedule[k]);
            var o := Offset(ScheduleTexts(h.schedule), ", ", k);
      && o + |e| <= |s| && s[o..o + |e|] == e
      && (k > 0 ==> 2 <= o && s[o - 2..o] == ", ")
  {
    var parts := ScheduleTexts(h.schedule);
    JoinLayout(parts, ", ", k);
    JoinedPartIs(Join(parts, ", "), OperatingHoursText(h), parts[k], EntryText(h.schedule[k]),
                 Offset(parts, ", ", k));
  }

  /** Rewriting the layout facts of one join along equal strings. */
  lemma JoinedPartIs(joined: string, s: string, part: string, e: string, o: int)
    requires joined == s && part == e
    requires 0 <= o && o + |part| <= |joined| && joined[o..o + |part|] == part
    ensures o + |e| <= |s| && s[o..o + |e|] == e
  {
  }

  /** The card's last-ping line. */
  function LastPingText(minutes: int): (s: string)
    ensures minutes < 1 ==> s == "Just now"
    ensures minutes >= 1 ==> |s| > 8 && s[|s| - 8..] == " min ago"
  {
    if minutes < 1 then "Just now" else Decimal(minutes) + " min ago"
  }

  /** "Just now" exactly below one minute; otherwise the line reads back as
      the number of minutes. */
  lemma LastPingTextReadsBack(minutes: int)
    ensures LastPingText(minutes) == "Just now" <==> minutes < 1
    ensures minutes >= 1 ==>
      var s := LastPingText(minutes);
      var digits := s[..|s| - 8];
      && (forall i :: 0 <= i < |digits| ==> IsDigit(digits[i]))
      && DecimalValue(digits) == minutes
  {
    if minutes >= 1 {
      var s := LastPingText(minutes);
      assert s[|s| - 1] == 'o';
      assert s[..|s| - 8] == Decimal(minutes);
      DecimalRoundTrip(minutes);
    }
  }

  /** The "Offline (Expected)" chip. */
  function OfflineExpectedChip(h: Hours, within: bool): (r: bool)
    ensures r ==> !within && OperatingHoursText(h) != "Always on"
    ensures !r && !within ==> OperatingHoursText(h) == "Always on"
  {
    AlwaysOnTextIffNoSchedule(h);
    h.enabled && |h.schedule| > 0 && !within
  }

  /** On a row of the booth list the chip shows exactly when the booth is
      outside its hours, and then its status is "offline" unless it is in
      maintenance. */
  lemma ChipShowsExactlyOutsideHours(b: BoothWithLatest, now: int, thresholdMinutes: int, resolve: ZoneResolver)
    ensures var d := Derive(b, now, thresholdMinutes, resolve);
      && (OfflineExpectedChip(d.operatingHours, d.isWithinOperatingHours) <==> !d.isWithinOperatingHours)
      && (OfflineExpectedChip(d.operatingHours, d.isWithinOperatingHours) ==>
            d.status == (if d.isMaintenance then "maintenance" else "offline"))
  {
    OutsideHoursMeansScheduled(b, now, thresholdMinutes, resolve);
  }
}
