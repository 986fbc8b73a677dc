/** Properties of the listener model that relate several calls or hold for
    whole families of inputs. */
module ListenerProperties {
  import opened Wrappers
  import opened JavaLang
  import opened JavaTime
  import opened Payload
  import opened Entity
  import opened Storage
  import opened Listener

  // ----- userId -----

  /** Every `int` sent as its decimal string arrives unchanged, with no warning. */
  lemma UserIdFromDecimalString(k: Int32)
    ensures UserId(Str(IntToString(k))) == Logged(k, [])
  {
    ParseIntOfToString(k);
  }

  /** A missing `userId` key, a JSON null and any non-numeric, non-string value
      all store 0 and log one warning carrying the offending value. */
  lemma MissingUserIdIsZero(event: Event, rt: Runtime)
    requires USER_ID !in event || event[USER_ID].Null? || event[USER_ID].Other?
    ensures Normalize(event, rt).value.userId == 0
    ensures Normalize(event, rt).log[0] == UserIdMissingOrUnexpected(Get(event, USER_ID))
  {
  }

  // ----- eventType -----

  /** The `"unknown"` fallback is for an absent key only: a present null is
      stored as the text `"null"` and a present empty string stays empty. */
  lemma EventTypeDefaultOnlyWhenAbsent(event: Event)
    ensures EVENT_TYPE !in event ==> EventType(event) == "unknown"
    ensures EVENT_TYPE in event && event[EVENT_TYPE] == Null ==> EventType(event) == "null"
    ensures EVENT_TYPE in event && event[EVENT_TYPE] == Str("") ==> EventType(event) == ""
    ensures EventType(event) == UNKNOWN_EVENT_TYPE
            <==> EVENT_TYPE !in event || StringValueOf(event[EVENT_TYPE]) == UNKNOWN_EVENT_TYPE
  {
  }

  // ----- timestamp -----

  /** `OffsetDateTime.parse` and `LocalDateTime.parse` accept only text with the
      date/time separator `T` (either case, as the ISO formatters parse
      case-insensitively). */
  predicate HasTimeSeparator(s: string) {
    'T' in s || 't' in s
  }

  ghost predicate IsoParsersNeedSeparator(rt: Runtime) {
    && (forall s :: rt.parseOffsetDateTime(s).Some? ==> HasTimeSeparator(s))
    && (forall s :: rt.parseLocalDateTime(s).Some? ==> HasTimeSeparator(s))
  }

  /** An offset date-time keeps its wall-clock reading: the offset is dropped,
      not applied, so the result does not depend on the system zone. */
  lemma OffsetIsDroppedNotApplied(s: string, odt: OffsetDateTime, rt: Runtime, zone: ZoneId)
    requires rt.parseOffsetDateTime(s) == Some(odt)
    ensures ParseTimestamp(Str(s), rt) == Logged(odt.dateTime, [])
    ensures ParseTimestamp(Str(s), rt.(zone := zone)) == ParseTimestamp(Str(s), rt)
  {
  }

  /** A string no parser accepts falls back to now without any log line. */
  lemma GarbageTimestampIsSilent(s: string, rt: Runtime)
    requires rt.parseOffsetDateTime(s).None? && rt.parseLocalDateTime(s).None?
    requires ParseLong(s).None?
    ensures ParseTimestamp(Str(s), rt) == Logged(rt.now, [])
  {
  }

  /** Text `parseLong` accepts never reaches the ISO parsers' success paths. */
  lemma DecimalTextIsNotIso(s: string, rt: Runtime)
    requires IsoParsersNeedSeparator(rt)
    requires ParseLong(s).Some?
    ensures rt.parseOffsetDateTime(s).None? && rt.parseLocalDateTime(s).None?
  {
    SignedDecimalHasOnlyDigits(s, 'T');
    SignedDecimalHasOnlyDigits(s, 't');
  }

  /** The length heuristic on `Long.toString(n)`: milliseconds exactly when
      `n >= 10^10`, or when `n <= -10^9`, because the minus sign counts as
      one of the characters. */
  lemma EpochStringUnit(n: Int64, rt: Runtime)
    requires IsoParsersNeedSeparator(rt)
    ensures ParseTimestamp(Str(IntToString(n)), rt)
         == InSystemZone(
              if n >= Pow10(10) || n <= 0 - Pow10(9) then OfEpochMilli(n) else OfEpochSecond(n),
              Str(IntToString(n)), rt)
  {
    var s := IntToString(n);
    ParseLongOfToString(n);
    DecimalTextIsNotIso(s, rt);
    if n < 0 {
      var m: nat := 0 - n;
      NatToStringLength(m, 9);
      assert |s| == 1 + |NatToString(m)|;
    } else {
      NatToStringLength(n, 10);
    }
  }

  /** A JSON number is always epoch milliseconds, while the same digits sent as
      a string of at most ten characters are epoch seconds: the two readings
      name different instants for every non-zero count below 10^10. */
  lemma NumberAndStringReadDifferently(n: int, rt: Runtime)
    requires 0 < n < Pow10(10)
    requires IsoParsersNeedSeparator(rt)
    ensures ParseTimestamp(Num(n), rt) == InSystemZone(OfEpochMilli(n), Num(n), rt)
    ensures ParseTimestamp(Str(IntToString(n)), rt) == InSystemZone(OfEpochSecond(n), Str(IntToString(n)), rt)
    ensures OfEpochMilli(n) != OfEpochSecond(n)
  {
    EpochStringUnit(n, rt);
    SecondsAndMillisDiffer(n);
  }

  /** The heuristic agrees with itself across units: a count of seconds from
      10^7 to 10^10 and the same moment in milliseconds give the same time. */
  lemma SecondsAndMillisStringsAgree(n: int, rt: Runtime)
    requires Pow10(7) <= n < Pow10(10)
    requires IsoParsersNeedSeparator(rt)
    ensures ParseTimestamp(Str(IntToString(n * 1000)), rt).value
         == ParseTimestamp(Str(IntToString(n)), rt).value
  {
    EpochStringUnit(n, rt);
    EpochStringUnit(n * 1000, rt);
    MillisOfWholeSeconds(n);
  }

  /** One step of reading a timestamp string. */
  datatype Attempt = Parsed(t: LocalDateTime) | NoMatch | Threw

  /** The first attempt that did not decline; `NoMatch` when all declined. */
  function FirstSuccess(attempts: seq<Attempt>): (r: Attempt)
    ensures r.NoMatch? <==> forall i :: 0 <= i < |attempts| ==> attempts[i].NoMatch?
    ensures !r.NoMatch? ==> exists i :: 0 <= i < |attempts| && attempts[i] == r
                                      && forall j :: 0 <= j < i ==> attempts[j].NoMatch?
  {
    if attempts == [] then NoMatch
    else if attempts[0].NoMatch? then
      var r := FirstSuccess(attempts[1..]);
      assert !r.NoMatch? ==> exists i :: 0 < i < |attempts| && attempts[i] == r
                                      && forall j :: 0 <= j < i ==> attempts[j].NoMatch? by {
        if !r.NoMatch? {
          var k :| 0 <= k < |attempts[1..]| && attempts[1..][k] == r
                   && forall j :: 0 <= j < k ==> attempts[1..][j].NoMatch?;
          assert attempts[k + 1] == r;
          assert forall j :: 0 <= j < k + 1 ==> attempts[j].NoMatch? by {
            forall j | 0 <= j < k + 1 ensures attempts[j].NoMatch? {
              if j > 0 { assert attempts[1..][j - 1] == attempts[j]; }
            }
          }
        }
      }
      r
    else attempts[0]
  }

  function Converted(instant: Instant, rt: Runtime): Attempt {
    match rt.ofInstant(instant, rt.zone)
    case Some(t) => Parsed(t)
    case None => Threw
  }

  /** The three readings of a string, in the order the listener tries them. */
  function StringAttempts(s: string, rt: Runtime): seq<Attempt> {
    [ match rt.parseOffsetDateTime(s) case Some(odt) => Parsed(odt.ToLocalDateTime()) case None => NoMatch,
      match rt.parseLocalDateTime(s) case Some(t) => Parsed(t) case None => NoMatch,
      match ParseLong(s) case Some(e) => Converted(EpochInstant(s, e), rt) case None => NoMatch ]
  }

  /** What an attempt leaves in the record and in the log. */
  function Outcome(a: Attempt, raw: Value, rt: Runtime): Logged<LocalDateTime> {
    match a
    case Parsed(t) => Logged(t, [])
    case NoMatch => Logged(rt.now, [])
    case Threw => Logged(rt.now, [UnparsableTimestamp(raw)])
  }

  /** `parseTimestamp` on a non-null, non-numeric value is the first success
      of the ordered attempts on its rendering. */
  lemma ParseTimestampTriesInOrder(ts: Value, rt: Runtime)
    requires !ts.Null? && !ts.Num?
    ensures ParseTimestamp(ts, rt)
         == Outcome(FirstSuccess(StringAttempts(StringValueOf(ts), rt)), ts, rt)
  {
    var a := StringAttempts(StringValueOf(ts), rt);
    assert a[1..][1..] == [a[2]];
  }

  // ----- metadata -----

  /** Absent or null metadata is stored as SQL NULL, never as an empty text;
      present metadata is never dropped. */
  lemma MetadataAbsentIsNotEmpty(event: Event, rt: Runtime)
    ensures METADATA !in event ==> Normalize(event, rt).value.metadata == None
    ensures Normalize(event, rt).value.metadata != Some("") || (METADATA in event && !event[METADATA].Null?)
    ensures METADATA in event && !event[METADATA].Null? ==> Normalize(event, rt).value.metadata.Some?
  {
  }

  // ----- the whole record -----

  /** Keys other than the four the listener reads do not affect the record or the log. */
  lemma NormalizeReadsOnlyItsKeys(event: Event, key: string, v: Value, rt: Runtime)
    requires key !in {USER_ID, EVENT_TYPE, TIMESTAMP, METADATA}
    ensures Normalize(event[key := v], rt) == Normalize(event, rt)
  {
    assert Get(event[key := v], USER_ID) == Get(event, USER_ID);
    assert Get(event[key := v], TIMESTAMP) == Get(event, TIMESTAMP);
    assert Get(event[key := v], METADATA) == Get(event, METADATA);
  }

  /** Replacing the metadata changes only the metadata field. */
  lemma MetadataIsIndependent(event: Event, v: Value, rt: Runtime)
    ensures var before := Normalize(event, rt);
            var after := Normalize(event[METADATA := v], rt);
            && after.value == before.value.(metadata := Metadata(v, rt))
            && after.log == before.log
  {
    assert Get(event[METADATA := v], USER_ID) == Get(event, USER_ID);
    assert Get(event[METADATA := v], TIMESTAMP) == Get(event, TIMESTAMP);
  }

  /** The empty message gives userId 0, eventType `"unknown"`, the current time
      and no metadata; only the userId fallback is logged. */
  lemma EmptyEvent(rt: Runtime)
    ensures Normalize(map[], rt)
         == Logged(UserActivity(0, "unknown", rt.now, None), [UserIdMissingOrUnexpected(Null)])
  {
  }

  /** A well-formed message: numeric-string userId, local ISO timestamp and an
      object as metadata. */
  lemma WellFormedEvent(rt: Runtime, when: LocalDateTime, metadata: Value, json: string)
    requires rt.parseOffsetDateTime("2026-02-06T12:34:56").None?
    requires rt.parseLocalDateTime("2026-02-06T12:34:56") == Some(when)
    requires metadata.Other? && rt.writeValueAsString(metadata) == Some(json)
    ensures Normalize(
              map[USER_ID := Str("42"), EVENT_TYPE := Str("click"),
                  TIMESTAMP := Str("2026-02-06T12:34:56"), METADATA := metadata], rt)
         == Logged(UserActivity(42, "click", when, Some(json)), [])
  {
    var event := map[USER_ID := Str("42"), EVENT_TYPE := Str("click"),
                     TIMESTAMP := Str("2026-02-06T12:34:56"), METADATA := metadata];
    assert Get(event, USER_ID) == Str("42");
    assert "42"[1..] == "2" && "42"[..1] == "4";
    assert Decimal("42") == 42;
    assert ParseInt("42") == Some(42);
    assert Get(event, TIMESTAMP) == Str("2026-02-06T12:34:56");
    assert Get(event, METADATA) == metadata;
  }
}
