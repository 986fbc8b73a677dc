/** The untyped message the listener receives: a JSON object decoded into a
    `Map<String, Object>`. A key that is absent is different from a key that is
    present with a JSON `null`. */
module Payload {
  import opened JavaLang

  /** A decoded JSON field.
      - `Num`: an integral number (Integer, Long or BigInteger, by magnitude);
      - `Str`: a string;
      - `Other`: any other object (Boolean, nested object, array), carrying the
        text its `toString()` renders. */
  datatype Value = Null | Num(n: int) | Str(s: string) | Other(rendering: string)

  type Event = map<string, Value>

  /** `Map.get(key)`: an absent key reads as `null`. */
  function Get(event: Event, key: string): (v: Value)
    ensures key in event ==> v == event[key]
    ensures key !in event ==> v == Null
  {
    if key in event then event[key] else Null
  }

  /** `Map.getOrDefault(key, d)`: the default replaces an absent key only; a
      key present with `null` yields `null`. */
  function GetOrDefault(event: Event, key: string, d: Value): (v: Value)
    ensures key in event ==> v == event[key]
    ensures key !in event ==> v == d
  {
    if key in event then event[key] else d
  }

  /** `String.valueOf(Object)`: `"null"` for null, otherwise `toString()`. */
  function StringValueOf(v: Value): (r: string)
    ensures v.Null? ==> r == "null"
    ensures v.Num? ==> r == IntToString(v.n)
    ensures v.Str? ==> r == v.s
    ensures v.Other? ==> r == v.rendering
  {
    match v
    case Null => "null"
    case Num(n) => IntToString(n)
    case Str(s) => s
    case Other(text) => text
  }
}
