# User-activity tracker: the event listener, modelled in Dafny

The consumer service of the user-activity tracker reads events from a message
queue and stores one `UserActivity` row per event. The listener
(`ActivityListener.receiveMessage`) is the only part of the system with
decision logic. It receives an untyped `Map<String, Object>` and builds a
record with four fields: `userId`, `eventType`, `timestamp` and `metadata`.
Every field has a fallback, so building the record never fails. Saving the
record can fail, and that failure is logged and rethrown to the listener
container.

The model is functional:

- `Payload`: the decoded message. It is a map from keys to a `Value` (`Null`,
  an integral `Num`, `Str`, or `Other` with its `toString()` text). An absent key
  differs from a present `Null`.
- `Entity`: the `UserActivity` record, without the storage-assigned `id`.
- `JavaLang`: the Java library behaviour the listener depends on:
  - `intValue()` / `longValue()` narrowing, as two's-complement wrap-around;
  - `Integer.parseInt` / `Long.parseLong`, as a specification and as Java's own
    negative-accumulation algorithm, proved to agree;
  - `Long.toString`.
- `JavaTime`: `LocalDateTime`, `OffsetDateTime`, `Instant` and `ZoneId` values, and
  `Instant.ofEpochMilli` / `Instant.ofEpochSecond`.
- `Storage`: the repository, as an append-only table with an identity column.
  Whether a write fails is an input.
- `Listener`: the field coercions, `parseTimestamp`, the whole record
  (`Normalize`) and `receiveMessage` (`ReceiveMessage`).
- `ListenerProperties`: lemmas relating several calls. They include an
  independent "ordered list of attempts" reading of `parseTimestamp`.

Parameters of a `Listener.Runtime` replace what the JVM supplies:

- the clock reading (`LocalDateTime.now()`) and the system zone;
- `OffsetDateTime.parse` and `LocalDateTime.parse`;
- `LocalDateTime.ofInstant`;
- Jackson's `writeValueAsString`.

Each of these answers `None` where the Java call throws. Log output is modelled
as a list of `LogEntry` values returned next to the result.

Behaviours a reader might not expect:

- An offset ISO string keeps its wall-clock reading. The offset is dropped
  (`toLocalDateTime`), not converted to the system zone.
- A missing timestamp or an unparseable timestamp string falls back to now
  without any log line. Only an exception from the epoch-to-local conversion
  is logged.
- A present empty `eventType` is stored as the empty string. A present null is
  stored as `"null"`. `"unknown"` is used only when the key is absent.
- JSON numbers are always epoch milliseconds. The seconds/milliseconds length
  heuristic applies to strings only, and there a leading sign counts toward the
  length.

## Model

| member | source | states |
|---|---|---|
| JavaLang.IntValue | consumer-service/src/main/java/com/tracker/consumer_service/listener/ActivityListener.java:34-36 | `intValue()` keeps a value that fits in an int and otherwise wraps it: the result is in int range, congruent to the input modulo 2^32, and equal to it exactly when the input fits |
| JavaLang.LongValue | consumer-service/src/main/java/com/tracker/consumer_service/listener/ActivityListener.java:82-83 | `longValue()` of a numeric timestamp: in long range, congruent modulo 2^64, equal to the input exactly when it fits |
| JavaLang.ParseInt | consumer-service/src/main/java/com/tracker/consumer_service/listener/ActivityListener.java:39 | `Integer.parseInt` only accepts values within int range |
| JavaLang.ParseLong | consumer-service/src/main/java/com/tracker/consumer_service/listener/ActivityListener.java:99 | `Long.parseLong` only accepts values within long range |
| JavaLang.ParseSigned | consumer-service/src/main/java/com/tracker/consumer_service/listener/ActivityListener.java:39 | Java's parse loop accumulates negatively and checks `multmin` and `limit + digit`; its result equals the specification (optional sign, one or more digits, within range), including every rejection |
| JavaLang.ParseIntJava | consumer-service/src/main/java/com/tracker/consumer_service/listener/ActivityListener.java:38-43 | the int instance of the loop agrees with `ParseInt` on every string |
| JavaLang.ParseLongJava | consumer-service/src/main/java/com/tracker/consumer_service/listener/ActivityListener.java:98-106 | the long instance of the loop agrees with `ParseLong` on every string |
| JavaLang.ParseIntOfToString | consumer-service/src/main/java/com/tracker/consumer_service/listener/ActivityListener.java:37-40 | every int written in decimal is read back by `parseInt` as itself |
| JavaLang.ParseLongOfToString | consumer-service/src/main/java/com/tracker/consumer_service/listener/ActivityListener.java:99 | every long written in decimal is read back by `parseLong` as itself |
| JavaLang.NatToStringLength | consumer-service/src/main/java/com/tracker/consumer_service/listener/ActivityListener.java:100-101 | the decimal rendering of n has at most k characters exactly when n < 10^k, which is what the `length() > 10` test measures |
| JavaLang.SignedDecimalHasOnlyDigits | consumer-service/src/main/java/com/tracker/consumer_service/listener/ActivityListener.java:99 | a string `parseLong` accepts contains no character other than signs and digits |
| JavaLang.IntToString | consumer-service/src/main/java/com/tracker/consumer_service/listener/ActivityListener.java:49 | `Long.toString` renders every integer as text that the decimal parser reads back as that integer: a minus sign exactly for negatives, never `+`, and no leading zeros |
| Payload.Get | consumer-service/src/main/java/com/tracker/consumer_service/listener/ActivityListener.java:34 | `Map.get` returns the stored value for a present key and null for an absent one |
| Payload.GetOrDefault | consumer-service/src/main/java/com/tracker/consumer_service/listener/ActivityListener.java:49 | `Map.getOrDefault` returns the stored value for a present key, null included, and the default only for an absent key |
| Payload.StringValueOf | consumer-service/src/main/java/com/tracker/consumer_service/listener/ActivityListener.java:86 | `String.valueOf` / `toString()`: `"null"` for null, the canonical decimal text of a number (as `Long.toString`), the string itself, or the object's own rendering |
| JavaTime.OffsetDateTime.ToLocalDateTime | consumer-service/src/main/java/com/tracker/consumer_service/listener/ActivityListener.java:89-90 | `toLocalDateTime` keeps the wall-clock reading: re-attaching the original offset gives back the parsed value |
| JavaTime.OfEpochSecond | consumer-service/src/main/java/com/tracker/consumer_service/listener/ActivityListener.java:104 | `Instant.ofEpochSecond` is the instant exactly that many whole seconds after the epoch |
| Listener.InSystemZone | consumer-service/src/main/java/com/tracker/consumer_service/listener/ActivityListener.java:102-109 | a successful epoch-to-local conversion is stored without a log line; a throwing one falls back to now with one warning carrying the raw value |
| Listener.EpochInstant | consumer-service/src/main/java/com/tracker/consumer_service/listener/ActivityListener.java:100-105 | a string longer than ten characters is read as epoch milliseconds (whole milliseconds, no sub-millisecond part), any other as epoch seconds |
| JavaTime.OfEpochMilli | consumer-service/src/main/java/com/tracker/consumer_service/listener/ActivityListener.java:84 | `Instant.ofEpochMilli` splits a millisecond count into seconds and a non-negative nanosecond part that add back to the count |
| JavaTime.MillisOfWholeSeconds | consumer-service/src/main/java/com/tracker/consumer_service/listener/ActivityListener.java:100-105 | n seconds and n*1000 milliseconds are the same instant |
| JavaTime.SecondsAndMillisDiffer | consumer-service/src/main/java/com/tracker/consumer_service/listener/ActivityListener.java:101-104 | reading a non-zero count as milliseconds and as seconds gives different instants |
| Storage.Save | consumer-service/src/main/java/com/tracker/consumer_service/listener/ActivityListener.java:68 | a save either fails with the storage's cause and changes nothing, or appends exactly one row holding the record |
| Storage.SaveKeepsIdsUnique | consumer-service/src/main/java/com/tracker/consumer_service/entity/UserActivity.java:10-12 | the identity column stays increasing, and a new row's id differs from every stored id |
| Listener.UserId | consumer-service/src/main/java/com/tracker/consumer_service/listener/ActivityListener.java:33-47 | a number is stored as its `intValue()` with no warning; a string is stored as its `parseInt` value, or as 0 with one `Invalid userId` warning when rejected; null, absent or any other type is stored as 0 with one warning carrying the value |
| Listener.EventType | consumer-service/src/main/java/com/tracker/consumer_service/listener/ActivityListener.java:49 | an absent key gives exactly `"unknown"`; a present key gives `String.valueOf` of its value |
| Listener.ParseTimestamp | consumer-service/src/main/java/com/tracker/consumer_service/listener/ActivityListener.java:77-112 | null gives now with no log; a number is epoch milliseconds of its `longValue()`; at most one warning is logged, and only together with the fallback to now |
| Listener.Metadata | consumer-service/src/main/java/com/tracker/consumer_service/listener/ActivityListener.java:55-66 | the field is absent exactly when the value is null or missing; otherwise it is the serializer's text, or `String.valueOf` of the value when serialization fails |
| Listener.Normalize | consumer-service/src/main/java/com/tracker/consumer_service/listener/ActivityListener.java:31-66 | each record field comes from its own key through its coercion; the log holds at most two lines, all warnings, userId's before timestamp's |
| Listener.ReceiveMessage | consumer-service/src/main/java/com/tracker/consumer_service/listener/ActivityListener.java:28-75 | the message is acknowledged exactly when the save succeeds; then exactly one row equal to the normalized record is appended and the info line is last in the log; otherwise the table is unchanged, the storage cause is rethrown, the error line is logged, and no saved line appears; the table keeps unique identifiers |
| ListenerProperties.UserIdFromDecimalString | consumer-service/src/main/java/com/tracker/consumer_service/listener/ActivityListener.java:37-39 | every int sent as its decimal string arrives unchanged and without a warning |
| ListenerProperties.MissingUserIdIsZero | consumer-service/src/main/java/com/tracker/consumer_service/listener/ActivityListener.java:44-47 | a missing key, a null or another type gives userId 0 and a warning carrying the value |
| ListenerProperties.EventTypeDefaultOnlyWhenAbsent | consumer-service/src/main/java/com/tracker/consumer_service/listener/ActivityListener.java:49 | `"unknown"` replaces an absent key only; a present null becomes `"null"` and a present `""` stays `""`; the stored text is `"unknown"` exactly when the key is absent or its value renders as `"unknown"` |
| ListenerProperties.OffsetIsDroppedNotApplied | consumer-service/src/main/java/com/tracker/consumer_service/listener/ActivityListener.java:88-91 | an offset date-time is stored at its own wall-clock time, whatever the system zone |
| ListenerProperties.GarbageTimestampIsSilent | consumer-service/src/main/java/com/tracker/consumer_service/listener/ActivityListener.java:86-111 | a string that neither ISO parser nor `parseLong` accepts gives now and no log line |
| ListenerProperties.DecimalTextIsNotIso | consumer-service/src/main/java/com/tracker/consumer_service/listener/ActivityListener.java:86-99 | when the ISO parsers need a `T`, text that `parseLong` accepts always reaches the epoch branch |
| ListenerProperties.EpochStringUnit | consumer-service/src/main/java/com/tracker/consumer_service/listener/ActivityListener.java:97-105 | `Long.toString(n)` as a timestamp is read as milliseconds exactly when n >= 10^10 or n <= -10^9, because the sign counts toward the length; otherwise it is read as seconds |
| ListenerProperties.NumberAndStringReadDifferently | consumer-service/src/main/java/com/tracker/consumer_service/listener/ActivityListener.java:82-105 | a JSON number is always milliseconds; the same digits as a string of at most ten characters are seconds, which gives a different instant |
| ListenerProperties.SecondsAndMillisStringsAgree | consumer-service/src/main/java/com/tracker/consumer_service/listener/ActivityListener.java:100-105 | a count of seconds from 10^7 to 10^10, and the same moment as a millisecond string, give the same time |
| ListenerProperties.FirstSuccess | consumer-service/src/main/java/com/tracker/consumer_service/listener/ActivityListener.java:86-106 | the first attempt that does not decline decides; the result is `NoMatch` exactly when every attempt declines |
| ListenerProperties.ParseTimestampTriesInOrder | consumer-service/src/main/java/com/tracker/consumer_service/listener/ActivityListener.java:85-111 | for a non-null, non-numeric value, `parseTimestamp` is the first success among offset ISO, local ISO and epoch parsing of its text |
| ListenerProperties.MetadataAbsentIsNotEmpty | consumer-service/src/main/java/com/tracker/consumer_service/listener/ActivityListener.java:56-66 | absent metadata is stored as NULL, never as empty text; present non-null metadata is never dropped |
| ListenerProperties.NormalizeReadsOnlyItsKeys | consumer-service/src/main/java/com/tracker/consumer_service/listener/ActivityListener.java:34-56 | keys other than the four read ones change neither the record nor the log |
| ListenerProperties.MetadataIsIndependent | consumer-service/src/main/java/com/tracker/consumer_service/listener/ActivityListener.java:56-66 | replacing the metadata value changes only the metadata field |
| ListenerProperties.EmptyEvent | consumer-service/src/main/java/com/tracker/consumer_service/listener/ActivityListener.java:29-66 | `{}` gives userId 0, eventType `"unknown"`, now, and no metadata, with only the userId warning logged |
| ListenerProperties.WellFormedEvent | consumer-service/src/main/java/com/tracker/consumer_service/listener/ActivityListener.java:29-66 | `{userId:"42", eventType:"click", timestamp:"2026-02-06T12:34:56", metadata:{...}}` gives 42, `"click"`, the parsed local time and the serialized metadata, with no warnings |

## Left out

- The producer service is not part of this model. This covers the HTTP endpoint (`TrackingController`), the publisher (`EventPublisher`, a call into the RabbitMQ client) and the validated submission type (`ActivityEvent`, whose checks run inside the Bean Validation framework).
- `UserActivity` column constraints (lengths, NOT NULL) are enforced by the database and are not modelled. `UserActivityRepository` is not part of this model. It is stood in for by an append-only table, and whether a write fails is an input.
- The ISO-8601 grammar, the calendar, time-zone rules and the real clock are parameters. Some lemmas assume only that both ISO parsers need the date/time separator `T` (either case).
- Jackson serialization is a parameter returning the JSON text or nothing.
- JavaLang.ParseSigned: accepts ASCII digits only. Java's `Character.digit` also accepts other Unicode decimal digits. The same holds for JavaLang.ParseInt and JavaLang.ParseLong.
- Non-integral numbers (`Double`, `BigDecimal`) as userId or timestamp are not modelled, because their `intValue`/`longValue` is floating-point truncation.
- Exceptions other than a storage failure are not modelled, for example a null message or a serializer throwing an unchecked exception.
- Log text formats and the exception objects logged with them are not modelled. A log line is a constructor carrying the logged value.
- `Instant.ofEpochSecond` range checks are left to the conversion parameter. A string of at most ten characters never reaches that range.
- Listener concurrency and redelivery belong to the message broker.
