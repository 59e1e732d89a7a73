/**
 * `get_uptime` (main.py): the time since start-up, as whole days, hours and
 * minutes, rendered `f"{days}d {hours}h {minutes}m"`. The clock is not
 * modelled: the difference of the two clock readings is the input.
 */
module Uptime {

  import opened Base
  import Text

  const SecondsPerDay := 86400

  /** A `timedelta` in Python's normal form (its microseconds play no part here). */
  datatype Delta = Delta(days: int, seconds: int)

  predicate IsNormal(d: Delta) {
    0 <= d.seconds < SecondsPerDay
  }

  datatype Parts = Parts(days: int, hours: int, minutes: int)

  /**
   * `delta.days, delta.seconds // 3600, (delta.seconds // 60) % 60`: the
   * hours and minutes are the whole hours and the whole minutes left over in
   * the day's seconds.
   */
  function Split(d: Delta): (p: Parts)
    requires IsNormal(d)
    ensures p.days == d.days
    ensures 0 <= p.hours < 24 && 0 <= p.minutes < 60
    ensures p.hours * 3600 + p.minutes * 60 <= d.seconds < p.hours * 3600 + p.minutes * 60 + 60
  {
    Parts(d.days, d.seconds / 3600, (d.seconds / 60) % 60)
  }

  /** Hours and minutes in range that bracket the seconds like this are the ones `Split` gives. */
  lemma SplitIsUnique(d: Delta, hours: int, minutes: int)
    requires IsNormal(d)
    requires 0 <= hours < 24 && 0 <= minutes < 60
    requires hours * 3600 + minutes * 60 <= d.seconds < hours * 3600 + minutes * 60 + 60
    ensures Split(d) == Parts(d.days, hours, minutes)
  {
  }

  function Render(p: Parts): string {
    Text.IntToString(p.days) + "d " + Text.IntToString(p.hours) + "h " + Text.IntToString(p.minutes) + "m"
  }

  /** Reads days, hours and minutes back out of an uptime text, if it is one. */
  function ReadParts(text: string): Option<Parts> {
    match Text.Field(text, 'd')
    case None => None
    case Some((ds, rest)) => ReadHours(ds, rest)
  }

  /** The rest of an uptime text after the days: `" {hours}h {minutes}m"`. */
  function ReadHours(ds: string, rest: string): Option<Parts> {
    if rest == [] || rest[0] != ' ' then None
    else match Text.Field(rest[1..], 'h')
    case None => None
    case Some((hs, tail)) => ReadMinutes(ds, hs, tail)
  }

  /** The rest of an uptime text after the hours: `" {minutes}m"`. */
  function ReadMinutes(ds: string, hs: string, rest: string): Option<Parts> {
    if rest == [] || rest[0] != ' ' then None
    else match Text.Field(rest[1..], 'm')
    case None => None
    case Some((ms, tail)) =>
      if tail == [] && Text.IsIntNumeral(ds) && Text.IsIntNumeral(hs) && Text.IsIntNumeral(ms)
      then Some(Parts(Text.ParseInt(ds), Text.ParseInt(hs), Text.ParseInt(ms)))
      else None
  }

  /** The rendering loses nothing: the three numbers are read back from the text. */
  lemma RenderReadBack(p: Parts)
    ensures ReadParts(Render(p)) == Some(p)
  {
    var ds, hs, ms := Text.IntToString(p.days), Text.IntToString(p.hours), Text.IntToString(p.minutes);
    ReadNumerals(ds, hs, ms);
    Text.IntRoundTrip(p.days);
    Text.IntRoundTrip(p.hours);
    Text.IntRoundTrip(p.minutes);
  }

  /** Three numerals laid out as an uptime text are split off again by `ReadParts`. */
  lemma ReadNumerals(ds: string, hs: string, ms: string)
    requires Text.IsIntNumeral(ds) && Text.IsIntNumeral(hs) && Text.IsIntNumeral(ms)
    ensures ReadParts(ds + "d " + hs + "h " + ms + "m")
         == Some(Parts(Text.ParseInt(ds), Text.ParseInt(hs), Text.ParseInt(ms)))
  {
    var r1 := " " + hs + "h " + ms + "m";
    assert ds + "d " + hs + "h " + ms + "m" == ds + ['d'] + r1;
    Text.FieldAfterNumeral(ds, 'd', r1);
    ReadHoursOf(ds, hs, ms);
  }

  lemma ReadHoursOf(ds: string, hs: string, ms: string)
    requires Text.IsIntNumeral(ds) && Text.IsIntNumeral(hs) && Text.IsIntNumeral(ms)
    ensures ReadHours(ds, " " + hs + "h " + ms + "m")
         == Some(Parts(Text.ParseInt(ds), Text.ParseInt(hs), Text.ParseInt(ms)))
  {
    var r1 := " " + hs + "h " + ms + "m";
    var r2 := " " + ms + "m";
    assert r1[1..] == hs + ['h'] + r2;
    Text.FieldAfterNumeral(hs, 'h', r2);
    ReadMinutesOf(ds, hs, ms);
  }

  lemma ReadMinutesOf(ds: string, hs: string, ms: string)
    requires Text.IsIntNumeral(ds) && Text.IsIntNumeral(hs) && Text.IsIntNumeral(ms)
    ensures ReadMinutes(ds, hs, " " + ms + "m")
         == Some(Parts(Text.ParseInt(ds), Text.ParseInt(hs), Text.ParseInt(ms)))
  {
    var r2 := " " + ms + "m";
    assert r2[1..] == ms + ['m'] + [];
    Text.FieldAfterNumeral(ms, 'm', []);
  }

  /** `get_uptime()`: its text names the delta's days and the hours and minutes within the day. */
  function GetUptime(d: Delta): (text: string)
    requires IsNormal(d)
    ensures ReadParts(text).Some?
    ensures var p := ReadParts(text).value;
      && p.days == d.days
      && 0 <= p.hours < 24 && 0 <= p.minutes < 60
      && p.hours * 3600 + p.minutes * 60 <= d.seconds < p.hours * 3600 + p.minutes * 60 + 60
  {
    RenderReadBack(Split(d));
    Render(Split(d))
  }
}
