/** Freshness: a timestamp is accepted when it can be read and lies at most
    five minutes, inclusive, before or after the server's clock. */
module TimeHelper {
  import opened Wrappers
  import opened Calendar

  /** Five minutes in ticks: 3,000,000,000. */
  const FiveMinutes: nat := 5 * TicksPerMinute

  /** `(a - b).Duration()` in ticks. */
  function Duration(a: int, b: int): (d: nat)
    ensures d == a - b || d == b - a
  {
    if a >= b then a - b else b - a
  }

  /** `IsTimestampValid(isoUtc)` read against the clock value `now`:
      `DateTime.TryParse` yields false for a null or unreadable string, and
      `diff.TotalMinutes <= 5` is a tick difference of at most five minutes. */
  predicate IsTimestampValid(isoUtc: Option<string>, now: ValidDateTime, parse: DateParser) {
    isoUtc.Some? && parse(isoUtc.value).Some? &&
    Duration(now.Ticks(), parse(isoUtc.value).value.Ticks()) <= FiveMinutes
  }

  /** A readable timestamp is fresh exactly when the clock is within five
      minutes of it, on either side, boundary included. */
  lemma FreshnessWindow(isoUtc: string, stamp: ValidDateTime, now: ValidDateTime, parse: DateParser)
    requires parse(isoUtc) == Some(stamp)
    ensures IsTimestampValid(Some(isoUtc), now, parse) <==>
            -3_000_000_000 <= now.Ticks() - stamp.Ticks() <= 3_000_000_000
  {
  }

  /** A null or unreadable timestamp is never fresh, whatever the clock says. */
  lemma UnreadableNeverFresh(isoUtc: Option<string>, now: ValidDateTime, parse: DateParser)
    requires isoUtc.None? || parse(isoUtc.value).None?
    ensures !IsTimestampValid(isoUtc, now, parse)
  {
  }

  /** A timestamp ahead of the clock and one behind it by the same amount
      get the same answer. */
  lemma WindowSymmetric(ahead: string, behind: string, now: ValidDateTime, parse: DateParser)
    requires parse(ahead).Some? && parse(behind).Some?
    requires parse(ahead).value.Ticks() - now.Ticks() == now.Ticks() - parse(behind).value.Ticks()
    ensures IsTimestampValid(Some(ahead), now, parse) == IsTimestampValid(Some(behind), now, parse)
  {
  }

  /** At 12:05:00 on 1 March 2024 a stamp of 12:00:00 is accepted, as are
      the clock readings 11:55:00 and 12:05:00 against it; one tick past
      12:05:00 it is refused. */
  lemma BoundaryInclusive(isoUtc: string, parse: DateParser)
    requires parse(isoUtc) == Some(DateTime(2024, 3, 1, 12, 0, 0, 0))
    ensures IsTimestampValid(Some(isoUtc), DateTime(2024, 3, 1, 12, 5, 0, 0), parse)
    ensures IsTimestampValid(Some(isoUtc), DateTime(2024, 3, 1, 11, 55, 0, 0), parse)
    ensures !IsTimestampValid(Some(isoUtc), DateTime(2024, 3, 1, 12, 5, 0, 1), parse)
    ensures !IsTimestampValid(Some(isoUtc), DateTime(2024, 3, 1, 11, 54, 59, 9_999_999), parse)
  {
  }
}
