/** The `java.time` values the listener produces and consumes. The calendar
    arithmetic and the zone rules stay outside the model; what is modelled is the
    shape of the values and the two `Instant` factories the listener calls. */
module JavaTime {

  const MILLIS_PER_SECOND: int := 1000
  const NANOS_PER_MILLI: int := 1_000_000
  const NANOS_PER_SECOND: int := 1_000_000_000

  /** A date-time without an offset or zone: a wall-clock reading. */
  datatype LocalDateTime = LocalDateTime(
    year: int, month: int, day: int,
    hour: int, minute: int, second: int, nano: int)

  datatype ZoneOffset = ZoneOffset(totalSeconds: int)

  /** A wall-clock reading together with the offset from UTC it was taken at. */
  datatype OffsetDateTime = OffsetDateTime(dateTime: LocalDateTime, offset: ZoneOffset) {

    /** `toLocalDateTime()`: the wall-clock reading, with the offset discarded
        rather than applied. */
    function ToLocalDateTime(): (r: LocalDateTime)
      ensures OffsetDateTime(r, offset) == this
    {
      dateTime
    }
  }

  /** A zone identifier such as the one `ZoneId.systemDefault()` returns. */
  datatype ZoneId = ZoneId(id: string)

  /** A point on the time line: seconds since 1970-01-01T00:00Z plus a
      nanosecond adjustment in `[0, 10^9)`. */
  datatype Instant = Instant(epochSecond: int, nano: int)

  /** `Instant.ofEpochMilli(ms)`: floor division of the millisecond count, so
      the nanosecond part is never negative. */
  function OfEpochMilli(ms: int): (r: Instant)
    ensures 0 <= r.nano < NANOS_PER_SECOND
    ensures r.nano % NANOS_PER_MILLI == 0
    ensures r.epochSecond * MILLIS_PER_SECOND + r.nano / NANOS_PER_MILLI == ms
  {
    Instant(ms / MILLIS_PER_SECOND, (ms % MILLIS_PER_SECOND) * NANOS_PER_MILLI)
  }

  /** `Instant.ofEpochSecond(s)`. */
  function OfEpochSecond(s: int): (r: Instant)
    ensures 0 <= r.nano < NANOS_PER_SECOND
    ensures r.epochSecond * NANOS_PER_SECOND + r.nano == s * NANOS_PER_SECOND
  {
    Instant(s, 0)
  }

  /** A whole number of seconds means the same instant in either unit. */
  lemma MillisOfWholeSeconds(s: int)
    ensures OfEpochMilli(s * MILLIS_PER_SECOND) == OfEpochSecond(s)
  {
    var r := OfEpochMilli(s * MILLIS_PER_SECOND);
    assert (r.epochSecond - s) * MILLIS_PER_SECOND + r.nano / NANOS_PER_MILLI == 0;
  }

  /** Reading a count as seconds and reading it as milliseconds give different
      instants for every count but zero. */
  lemma SecondsAndMillisDiffer(n: int)
    requires n != 0
    ensures OfEpochMilli(n) != OfEpochSecond(n)
  {
  }
}
