/**
  `convertTimeZoneToLocalTime`: the clock time the viewer sees when a zone is at
  its own midnight, computed as `00:00 + localOffset - zoneOffset` on a time of
  day, so the arithmetic wraps around midnight and never carries into a date.
 */
module ZoneKey {
  import opened Wrappers
  import opened Errors
  import opened OffsetParser
  import PlainTime

  /** The offset as a signed number of minutes. */
  function OffsetMinutes(o: UtcOffset): int {
    o.hours * 60 + o.minutes
  }

  /** The duration `{hours, minutes}` in seconds, as `PlainTime.add` balances it. */
  function DurationSeconds(o: UtcOffset): int {
    o.hours * 3600 + o.minutes * 60
  }

  lemma ModOfSum(a: int, b: int)
    ensures (a % PlainTime.SecondsPerDay + b) % PlainTime.SecondsPerDay == (a + b) % PlainTime.SecondsPerDay
  {
    var d := PlainTime.SecondsPerDay;
    var q := a / d;
    assert a == q * d + a % d;
    ModShift(a % d + b, q);
  }

  lemma ModShift(x: int, q: int)
    ensures (x + q * PlainTime.SecondsPerDay) % PlainTime.SecondsPerDay == x % PlainTime.SecondsPerDay
  {
    var d := PlainTime.SecondsPerDay;
    var y := x + q * d;
    assert y == (x / d + q) * d + x % d;
    ModUnique(y, y / d, y % d, x / d + q, x % d);
  }

  lemma ModUnique(y: int, q1: int, r1: int, q2: int, r2: int)
    requires y == q1 * PlainTime.SecondsPerDay + r1 && 0 <= r1 < PlainTime.SecondsPerDay
    requires y == q2 * PlainTime.SecondsPerDay + r2 && 0 <= r2 < PlainTime.SecondsPerDay
    ensures r1 == r2
  {
  }

  lemma MinutesToSeconds(x: int)
    ensures (60 * x) % PlainTime.SecondsPerDay == (x % 1440) * 60
  {
    var q := x / 1440;
    var r := x % 1440;
    assert 60 * x == q * PlainTime.SecondsPerDay + 60 * r;
    ModUnique(60 * x, (60 * x) / PlainTime.SecondsPerDay, (60 * x) % PlainTime.SecondsPerDay, q, 60 * r);
  }

  /**
    `00:00 + local - zone`.  The result is always a time of day in [00:00, 24:00),
    is a whole number of minutes, and equals the offset difference in minutes taken
    modulo one day.
   */
  function MidnightKey(local: UtcOffset, zone: UtcOffset): (t: PlainTime.Time)
    ensures t == ((OffsetMinutes(local) - OffsetMinutes(zone)) % 1440) * 60
    ensures t % 60 == 0
  {
    var t := PlainTime.Subtract(PlainTime.Add(PlainTime.Midnight, DurationSeconds(local)), DurationSeconds(zone));
    ModOfSum(DurationSeconds(local), -DurationSeconds(zone));
    assert DurationSeconds(local) - DurationSeconds(zone) == 60 * (OffsetMinutes(local) - OffsetMinutes(zone));
    MinutesToSeconds(OffsetMinutes(local) - OffsetMinutes(zone));
    t
  }

  /** A zone whose offset equals the viewer's maps to midnight. */
  lemma SameOffsetIsMidnight(local: UtcOffset, zone: UtcOffset)
    requires OffsetMinutes(local) == OffsetMinutes(zone)
    ensures MidnightKey(local, zone) == PlainTime.Midnight
  {
  }

  /**
    `convertTimeZoneToLocalTime` on the offset string the time zone database gives
    for the zone (`None` when it gives `undefined`): a missing or empty string is
    an error, an unparsable one is the parser's error, otherwise the key.
   */
  function ZoneLocalTime(local: UtcOffset, zone: string, offsetString: Option<string>): (r: Result<PlainTime.Time, Error>)
    ensures (offsetString.None? || offsetString == Some("")) ==> r == Failure(MissingOffset(zone))
    ensures offsetString.Some? && offsetString.value != "" ==>
              match ParseOffsetString(offsetString.value)
              case Failure(e) => r == Failure(e)
              case Success(o) => r == Success(MidnightKey(local, o))
    ensures r.Success? ==> r.value % 60 == 0
  {
    match offsetString
    case None => Failure(MissingOffset(zone))
    case Some(text) =>
      if text == "" then Failure(MissingOffset(zone))
      else
        match ParseOffsetString(text)
        case Failure(e) => Failure(e)
        case Success(o) => Success(MidnightKey(local, o))
  }

  /**
    The initial read of the viewer's own offset string: `undefined` makes `.match`
    throw a type error, any other string goes to the parser.
   */
  function LocalOffset(localOffsetString: Option<string>): (r: Result<UtcOffset, Error>)
    ensures localOffsetString.None? ==> r == Failure(LocalOffsetUnavailable)
    ensures localOffsetString.Some? ==> r == ParseOffsetString(localOffsetString.value)
  {
    match localOffsetString
    case None => Failure(LocalOffsetUnavailable)
    case Some(text) => ParseOffsetString(text)
  }
}
