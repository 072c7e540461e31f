/** Normalisation of Windows time-zone names to IANA identifiers, applied by the
    health service before it resolves a booth's local time. */
module TimeZones {
  import opened Wrappers

  /** The fixed Windows-name to IANA-name table, in source order. */
  const WindowsZones: seq<(string, string)> := [
    ("Eastern Standard Time", "America/New_York"),
    ("Central Standard Time", "America/Chicago"),
    ("Mountain Standard Time", "America/Denver"),
    ("Pacific Standard Time", "America/Los_Angeles"),
    ("Alaska Standard Time", "America/Anchorage"),
    ("Hawaiian Standard Time", "Pacific/Honolulu"),
    ("Atlantic Standard Time", "America/Halifax"),
    ("Newfoundland Standard Time", "America/St_Johns"),
    ("Central European Standard Time", "Europe/Budapest"),
    ("GMT Standard Time", "Europe/London"),
    ("W. Europe Standard Time", "Europe/Berlin"),
    ("Romance Standard Time", "Europe/Paris"),
    ("Russian Standard Time", "Europe/Moscow"),
    ("Tokyo Standard Time", "Asia/Tokyo"),
    ("China Standard Time", "Asia/Shanghai"),
    ("India Standard Time", "Asia/Kolkata"),
    ("AUS Eastern Standard Time", "Australia/Sydney"),
    ("Cen. Australia Standard Time", "Australia/Adelaide"),
    ("AUS Central Standard Time", "Australia/Darwin"),
    ("E. Australia Standard Time", "Australia/Brisbane"),
    ("W. Australia Standard Time", "Australia/Perth")
  ]

  /** Every IANA name in the table has an area prefix, i.e. contains '/'. */
  lemma TableValuesAreIana()
    ensures forall i :: 0 <= i < |WindowsZones| ==> '/' in WindowsZones[i].1
  {
  }

  /** No Windows name in the table is as short as "UTC". */
  lemma TableKeysAreLong()
    ensures forall i :: 0 <= i < |WindowsZones| ==> |WindowsZones[i].0| > 3
  {
  }

  lemma UtcIsNotAWindowsName()
    ensures Lookup(WindowsZones, "UTC").None?
  {
    TableKeysAreLong();
    assert forall i :: 0 <= i < |WindowsZones| ==> WindowsZones[i].0 != "UTC";
  }

  /** The value of the first table row whose key is `name`. */
  function Lookup(table: seq<(string, string)>, name: string): (r: Option<string>)
    ensures r.None? <==> forall i :: 0 <= i < |table| ==> table[i].0 != name
    ensures r.Some? ==> exists i :: 0 <= i < |table| && table[i] == (name, r.value)
    decreases |table|
  {
    if |table| == 0 then None
    else if table[0].0 == name then Some(table[0].1)
    else
      var r := Lookup(table[1..], name);
      assert forall i :: 1 <= i < |table| ==> table[i] == table[1..][i - 1];
      r
  }

  /** A name that already contains '/' is taken to be IANA and kept; a known
      Windows name is translated; anything else becomes "UTC". */
  function ConvertWindowsTimezoneToIana(tz: string): (r: string)
    ensures '/' in tz ==> r == tz
    ensures '/' !in tz && (exists i :: 0 <= i < |WindowsZones| && WindowsZones[i].0 == tz) ==>
              exists i :: 0 <= i < |WindowsZones| && WindowsZones[i] == (tz, r)
    ensures '/' !in tz && (forall i :: 0 <= i < |WindowsZones| ==> WindowsZones[i].0 != tz) ==> r == "UTC"
  {
    if '/' in tz then tz
    else match Lookup(WindowsZones, tz)
      case Some(iana) => iana
      case None => "UTC"
  }

  /** The result of conversion is either an IANA-style name or "UTC". */
  lemma ConvertedIsIanaOrUtc(tz: string)
    ensures var r := ConvertWindowsTimezoneToIana(tz); '/' in r || r == "UTC"
  {
    TableValuesAreIana();
    if '/' !in tz && Lookup(WindowsZones, tz).Some? {
      var i :| 0 <= i < |WindowsZones| && WindowsZones[i] == (tz, Lookup(WindowsZones, tz).value);
    }
  }

  /** Conversion is idempotent: every table value contains '/' and "UTC" is
      not a table key. */
  lemma ConvertIdempotent(tz: string)
    ensures ConvertWindowsTimezoneToIana(ConvertWindowsTimezoneToIana(tz)) == ConvertWindowsTimezoneToIana(tz)
  {
    ConvertedIsIanaOrUtc(tz);
    UtcIsNotAWindowsName();
  }

  /** The zone the health service resolves: a falsy stored zone means "UTC",
      and a name without '/' goes through the Windows table. */
  function HealthZone(timezone: Option<string>): (r: string)
    ensures !Truthy(timezone) ==> r == "UTC"
    ensures Truthy(timezone) ==> r == ConvertWindowsTimezoneToIana(timezone.value)
  {
    if !Truthy(timezone) then "UTC"
    else if '/' !in timezone.value then ConvertWindowsTimezoneToIana(timezone.value)
    else timezone.value
  }

  /** The zone the booths service resolves: the stored name verbatim, or
      "UTC" when it is falsy. */
  function BoothsZone(timezone: Option<string>): (r: string)
    ensures Truthy(timezone) ==> r == timezone.value
    ensures !Truthy(timezone) ==> r == "UTC"
  {
    if Truthy(timezone) then timezone.value else "UTC"
  }

  /** The health service converts exactly what the booths service would
      resolve verbatim: "UTC" is not a Windows name, so converting the
      fallback changes nothing. */
  lemma HealthZoneIsConvertedBoothsZone(timezone: Option<string>)
    ensures HealthZone(timezone) == ConvertWindowsTimezoneToIana(BoothsZone(timezone))
  {
    UtcIsNotAWindowsName();
  }
}
