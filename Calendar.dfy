/** The parts of `System.DateTime` the pipeline observes: calendar fields,
    the tick count (100-nanosecond intervals since 0001-01-01 00:00:00 in
    the proleptic Gregorian calendar) and the "yyyyMMddHHmmss" format. */
module Calendar {
  import opened Wrappers
  import opened Numerals

  const TicksPerSecond: nat := 10_000_000
  const TicksPerMinute: nat := 60 * TicksPerSecond
  const TicksPerDay: nat := 86_400 * TicksPerSecond

  predicate IsLeapYear(year: int) {
    year % 4 == 0 && (year % 100 != 0 || year % 400 == 0)
  }

  function DaysInMonth(year: int, month: int): (d: nat)
    requires 1 <= month <= 12
    ensures 28 <= d <= 31
  {
    if month == 2 then (if IsLeapYear(year) then 29 else 28)
    else if month == 4 || month == 6 || month == 9 || month == 11 then 30
    else 31
  }

  /** Days of `year` that precede the first of `month`. */
  function DaysBeforeMonth(year: int, month: int): nat
    requires 1 <= month <= 12
  {
    [0, 31, 59, 90, 120, 151, 181, 212, 243, 273, 304, 334][month - 1]
      + (if month > 2 && IsLeapYear(year) then 1 else 0)
  }

  /** A date and time of day; `fraction` counts the ticks below one second. */
  datatype DateTime = DateTime(year: int, month: int, day: int,
                               hour: int, minute: int, second: int, fraction: int)
  {
    /** The range `System.DateTime` can represent. */
    predicate Valid() {
      1 <= year <= 9999 && 1 <= month <= 12 && 1 <= day <= DaysInMonth(year, month) &&
      0 <= hour < 24 && 0 <= minute < 60 && 0 <= second < 60 &&
      0 <= fraction < TicksPerSecond
    }

    /** `DateTime.Ticks`. */
    function Ticks(): int
      requires Valid()
    {
      var y := year - 1;
      var days := 365 * y + y / 4 - y / 100 + y / 400 + DaysBeforeMonth(year, month) + day - 1;
      days * TicksPerDay + ((hour * 60 + minute) * 60 + second) * TicksPerSecond + fraction
    }
  }

  type ValidDateTime = d: DateTime | d.Valid() witness DateTime(1, 1, 1, 0, 0, 0, 0)

  /** `DateTime.Parse`/`DateTime.TryParse` with `AssumeUniversal |
      AdjustToUniversal`: culture-dependent, so the model takes it as a given
      function; `None` is a string it cannot read. */
  type DateParser = string -> Option<ValidDateTime>

  /** `t.ToString("yyyyMMddHHmmss")`: six zero-padded fields, no separators. */
  function Format14(t: ValidDateTime): (r: string)
    ensures |r| == 14 && AllDigits(r)
  {
    Pad(t.year, 4) + Pad(t.month, 2) + Pad(t.day, 2) +
    Pad(t.hour, 2) + Pad(t.minute, 2) + Pad(t.second, 2)
  }

  /** Reads the six fields back out of a fourteen-digit stamp. */
  function Parse14(s: string): (fields: seq<nat>)
    requires |s| == 14 && AllDigits(s)
  {
    [DigitsValue(s[0..4]), DigitsValue(s[4..6]), DigitsValue(s[6..8]),
     DigitsValue(s[8..10]), DigitsValue(s[10..12]), DigitsValue(s[12..14])]
  }

  /** The fourteen-digit stamp holds every field down to the second. */
  lemma Format14RoundTrip(t: ValidDateTime)
    ensures Parse14(Format14(t)) ==
            [t.year, t.month, t.day, t.hour, t.minute, t.second]
  {
    var y, mo, d, h, mi, se :=
      Pad(t.year, 4), Pad(t.month, 2), Pad(t.day, 2), Pad(t.hour, 2), Pad(t.minute, 2), Pad(t.second, 2);
    SplitFields(y, mo, d, h, mi, se);
    PadRoundTrip(t.year, 4);
    PadRoundTrip(t.month, 2);
    PadRoundTrip(t.day, 2);
    PadRoundTrip(t.hour, 2);
    PadRoundTrip(t.minute, 2);
    PadRoundTrip(t.second, 2);
  }

  /** Six fields of widths 4, 2, 2, 2, 2, 2 laid end to end are cut back
      out at offsets 0, 4, 6, 8, 10 and 12. */
  lemma SplitFields(y: string, mo: string, d: string, h: string, mi: string, se: string)
    requires |y| == 4 && |mo| == 2 && |d| == 2 && |h| == 2 && |mi| == 2 && |se| == 2
    ensures var r := y + mo + d + h + mi + se;
      r[0..4] == y && r[4..6] == mo && r[6..8] == d && r[8..10] == h &&
      r[10..12] == mi && r[12..14] == se
  {
    var r := y + mo + d + h + mi + se;
    var p := y + mo + d + h + mi;
    assert r[..12] == p && r[12..14] == se;
    var q := y + mo + d + h;
    assert p[..10] == q && p[10..12] == mi;
    var o := y + mo + d;
    assert q[..8] == o && q[8..10] == h;
    assert o[..6] == y + mo && o[6..8] == d;
    assert (y + mo)[..4] == y && (y + mo)[4..6] == mo;
    assert r[0..4] == p[0..4] == q[0..4] == o[0..4] == (y + mo)[0..4];
    assert r[4..6] == p[4..6] == q[4..6] == o[4..6] == (y + mo)[4..6];
    assert r[6..8] == p[6..8] == q[6..8] == o[6..8];
    assert r[8..10] == p[8..10] == q[8..10];
    assert r[10..12] == p[10..12];
  }

  /** Two instants with the same stamp lie less than one second apart: the
      stamp drops only the sub-second ticks. */
  lemma SameStampWithinOneSecond(a: ValidDateTime, b: ValidDateTime)
    requires Format14(a) == Format14(b)
    ensures -(TicksPerSecond as int) < a.Ticks() - b.Ticks() < TicksPerSecond
  {
    Format14RoundTrip(a);
    Format14RoundTrip(b);
    assert a.year == b.year && a.month == b.month && a.day == b.day;
    assert a.hour == b.hour && a.minute == b.minute && a.second == b.second;
  }
}
