/** The consumer side of the queue: `ActivityListener.receiveMessage`, which
    turns an untyped event into a `UserActivity` (every field has a fallback, so
    this never fails) and saves it (which may fail, and then the failure is
    rethrown to the listener container).

    Everything the JVM supplies is a parameter: the clock reading, the system
    zone, the two ISO-8601 parsers, the epoch-to-local conversion and the JSON
    serializer, each answering `None` where the Java call throws. */
module Listener {
  import opened Wrappers
  import opened JavaLang
  import opened JavaTime
  import opened Payload
  import opened Entity
  import opened Storage

  const USER_ID: string := "userId"
  const EVENT_TYPE: string := "eventType"
  const TIMESTAMP: string := "timestamp"
  const METADATA: string := "metadata"
  const UNKNOWN_EVENT_TYPE: string := "unknown"

  /** Strings longer than this many characters are epoch milliseconds, the
      others epoch seconds. */
  const EPOCH_SECONDS_MAX_LENGTH: nat := 10

  /** The environment of one invocation.
      - `now`: `LocalDateTime.now()`;
      - `zone`: `ZoneId.systemDefault()`;
      - `parseOffsetDateTime`: `OffsetDateTime.parse` (ISO offset date-time);
      - `parseLocalDateTime`: `LocalDateTime.parse` (ISO local date-time);
      - `ofInstant`: `LocalDateTime.ofInstant` (`None`: a `DateTimeException`);
      - `writeValueAsString`: Jackson (`None`: a `JsonProcessingException`). */
  datatype Runtime = Runtime(
    now: LocalDateTime,
    zone: ZoneId,
    parseOffsetDateTime: string -> Option<OffsetDateTime>,
    parseLocalDateTime: string -> Option<LocalDateTime>,
    ofInstant: (Instant, ZoneId) -> Option<LocalDateTime>,
    writeValueAsString: Value -> Option<string>)

  /** The log lines the listener writes. */
  datatype LogEntry =
    | InvalidUserId(text: string)                 // warn: a userId string parseInt rejects
    | UserIdMissingOrUnexpected(raw: Value)       // warn: userId null, absent or of another type
    | UnparsableTimestamp(raw: Value)             // warn: an unexpected exception while reading the timestamp
    | SavedEvent(userId: Int32, eventType: string) // info: the record was written
    | ProcessingError(message: string)            // error: the message failed

  predicate IsWarning(e: LogEntry) {
    e.InvalidUserId? || e.UserIdMissingOrUnexpected? || e.UnparsableTimestamp?
  }

  /** A value together with the log lines written while computing it. */
  datatype Logged<+T> = Logged(value: T, log: seq<LogEntry>)

  // ----- userId -----

  /** The `userId` field: a number is narrowed by `intValue()`, a string is
      given to `Integer.parseInt`, and anything else becomes 0 with a warning. */
  function UserId(uid: Value): (r: Logged<Int32>)
    ensures uid.Num? ==> r.log == [] && (uid.n - r.value) % TWO_32 == 0
    ensures uid.Num? ==> (r.value == uid.n <==> INT_MIN <= uid.n <= INT_MAX)
    ensures uid.Str? ==> (r.log == [] <==> ParseInt(uid.s).Some?)
    ensures uid.Str? && ParseInt(uid.s).Some? ==> r.value == ParseInt(uid.s).value
    ensures uid.Str? && ParseInt(uid.s).None? ==> r == Logged(0, [InvalidUserId(uid.s)])
    ensures !uid.Num? && !uid.Str? ==> r == Logged(0, [UserIdMissingOrUnexpected(uid)])
  {
    match uid
    case Num(n) => Logged(IntValue(n), [])
    case Str(s) =>
      (match ParseInt(s)
       case Some(k) => Logged(k, [])
       case None => Logged(0, [InvalidUserId(s)]))
    case _ => Logged(0, [UserIdMissingOrUnexpected(uid)])
  }

  // ----- eventType -----

  /** The `eventType` field: the text of whatever the key holds, null included,
      with `"unknown"` standing in only for a missing key. */
  function EventType(event: Event): (r: string)
    ensures EVENT_TYPE !in event ==> r == UNKNOWN_EVENT_TYPE
    ensures EVENT_TYPE in event ==> r == StringValueOf(event[EVENT_TYPE])
  {
    StringValueOf(GetOrDefault(event, EVENT_TYPE, Str(UNKNOWN_EVENT_TYPE)))
  }

  // ----- timestamp -----

  /** `LocalDateTime.ofInstant(instant, ZoneId.systemDefault())`; when the
      conversion throws, the outer handler warns and falls back to now. */
  function InSystemZone(instant: Instant, raw: Value, rt: Runtime): (r: Logged<LocalDateTime>)
    ensures rt.ofInstant(instant, rt.zone).Some? ==> r == Logged(rt.ofInstant(instant, rt.zone).value, [])
    ensures rt.ofInstant(instant, rt.zone).None? ==> r == Logged(rt.now, [UnparsableTimestamp(raw)])
  {
    match rt.ofInstant(instant, rt.zone)
    case Some(t) => Logged(t, [])
    case None => Logged(rt.now, [UnparsableTimestamp(raw)])
  }

  /** How a string that `Long.parseLong` accepted is read: by its length in
      characters (a sign included), milliseconds when longer than ten,
      seconds otherwise. */
  function EpochInstant(s: string, epoch: int): (r: Instant)
    ensures 0 <= r.nano < NANOS_PER_SECOND
    ensures r.nano % NANOS_PER_MILLI == 0
    ensures |s| > EPOCH_SECONDS_MAX_LENGTH ==> r.epochSecond * MILLIS_PER_SECOND + r.nano / NANOS_PER_MILLI == epoch
    ensures |s| <= EPOCH_SECONDS_MAX_LENGTH ==> r.epochSecond == epoch && r.nano == 0
  {
    if |s| > EPOCH_SECONDS_MAX_LENGTH then OfEpochMilli(epoch) else OfEpochSecond(epoch)
  }

  /** `parseTimestamp`: null gives now; a number is epoch milliseconds; any other
      object is rendered with `toString()` and tried as an offset ISO date-time,
      then a local ISO date-time, then a `long` of epoch seconds or
      milliseconds; a string none of these accept gives now, silently. */
  function ParseTimestamp(ts: Value, rt: Runtime): (r: Logged<LocalDateTime>)
    ensures r.log == [] || r.log == [UnparsableTimestamp(ts)]
    ensures r.log != [] ==> r.value == rt.now
    ensures ts.Null? ==> r == Logged(rt.now, [])
    ensures ts.Num? ==> r == InSystemZone(OfEpochMilli(LongValue(ts.n)), ts, rt)
  {
    if ts.Null? then
      Logged(rt.now, [])
    else if ts.Num? then
      InSystemZone(OfEpochMilli(LongValue(ts.n)), ts, rt)
    else
      var s := StringValueOf(ts);
      match rt.parseOffsetDateTime(s)
      case Some(odt) => Logged(odt.ToLocalDateTime(), [])
      case None =>
        match rt.parseLocalDateTime(s)
        case Some(t) => Logged(t, [])
        case None =>
          match ParseLong(s)
          case Some(epoch) => InSystemZone(EpochInstant(s, epoch), ts, rt)
          case None => Logged(rt.now, [])
  }

  // ----- metadata -----

  /** The `metadata` field: absent or null stays null; otherwise the JSON text,
      or `String.valueOf` of the value when serialization fails. */
  function Metadata(raw: Value, rt: Runtime): (r: Option<string>)
    ensures r.None? <==> raw.Null?
    ensures !raw.Null? && rt.writeValueAsString(raw).Some? ==> r == rt.writeValueAsString(raw)
    ensures !raw.Null? && rt.writeValueAsString(raw).None? ==> r == Some(StringValueOf(raw))
  {
    if raw.Null? then None
    else
      match rt.writeValueAsString(raw)
      case Some(json) => Some(json)
      case None => Some(StringValueOf(raw))
  }

  // ----- the whole record -----

  /** The record `receiveMessage` builds before saving it, with the warnings
      written on the way (userId first, then timestamp). */
  function Normalize(event: Event, rt: Runtime): (r: Logged<UserActivity>)
    ensures r.value.userId == UserId(Get(event, USER_ID)).value
    ensures r.value.eventType == EventType(event)
    ensures r.value.timestamp == ParseTimestamp(Get(event, TIMESTAMP), rt).value
    ensures r.value.metadata == Metadata(Get(event, METADATA), rt)
    ensures r.log == UserId(Get(event, USER_ID)).log + ParseTimestamp(Get(event, TIMESTAMP), rt).log
    ensures |r.log| <= 2 && forall i :: 0 <= i < |r.log| ==> IsWarning(r.log[i])
  {
    var uid := UserId(Get(event, USER_ID));
    var ts := ParseTimestamp(Get(event, TIMESTAMP), rt);
    Logged(
      UserActivity(uid.value, EventType(event), ts.value, Metadata(Get(event, METADATA), rt)),
      uid.log + ts.log)
  }

  // ----- receiveMessage -----

  /** What the listener container sees: the call returned, or it threw the
      wrapping `RuntimeException` whose cause is the storage failure. */
  datatype Delivery = Acknowledged(id: int) | Rejected(cause: string)

  /** `receiveMessage`: normalize, save exactly once, log the outcome. A storage
      failure is logged at error level and rethrown, so the message is not
      acknowledged and the table is left as it was. */
  method ReceiveMessage(
    event: Event, rt: Runtime, table: Table, storage: (Table, UserActivity) -> Option<string>)
    returns (table': Table, delivery: Delivery, log: seq<LogEntry>)
    ensures var n := Normalize(event, rt);
      && (delivery.Acknowledged? <==> storage(table, n.value).None?)
      && (delivery.Acknowledged? ==>
            && table'.rows == table.rows + [Row(delivery.id, n.value)]
            && log == n.log + [SavedEvent(n.value.userId, n.value.eventType)])
      && (delivery.Rejected? ==>
            && table' == table
            && delivery.cause == storage(table, n.value).value
            && log == n.log + [ProcessingError(delivery.cause)])
    ensures forall i :: 0 <= i < |log| ==> (log[i].SavedEvent? <==> delivery.Acknowledged? && i == |log| - 1)
    ensures WellFormed(table) ==> WellFormed(table')
    ensures WellFormed(table) && delivery.Acknowledged? ==>
              forall i :: 0 <= i < |table.rows| ==> table.rows[i].id != delivery.id
  {
    var normalized := Normalize(event, rt);
    var activity := normalized.value;
    match Save(table, activity, storage(table, activity))
    case Success((saved, id)) =>
      if WellFormed(table) {
        SaveKeepsIdsUnique(table, activity);
      }
      table' := saved;
      delivery := Acknowledged(id);
      log := normalized.log + [SavedEvent(activity.userId, activity.eventType)];
    case Failure(cause) =>
      table' := table;
      delivery := Rejected(cause);
      log := normalized.log + [ProcessingError(cause)];
  }
}
