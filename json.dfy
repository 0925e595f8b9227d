/**
 * JSON values as the core sees them once a library has decoded the bytes, and the
 * verdict a decoder gives when it is asked for one particular shape.
 */
module Json {
  import opened Wrappers

  /** A decoded JSON value; numbers and booleans are not inspected by the core. */
  datatype Json =
    | JNull
    | JStr(s: string)
    | JArr(items: seq<Json>)
    | JObj(fields: map<string, Json>)
    | JScalar

  /** What a typed deserializer returns for a whole document. */
  datatype Decoded<+T> =
    | Malformed // the decoder throws JsonException
    | Null      // the document is the literal `null`
    | Value(value: T)

  /** `TryGetStringValue(key)` on a JSON object: the string stored under `key`, if any. */
  function StringField(fields: map<string, Json>, key: string): (r: Option<string>)
    ensures r.Some? <==> key in fields && fields[key].JStr?
    ensures r.Some? ==> fields[key] == JStr(r.value)
  {
    if key in fields && fields[key].JStr? then Some(fields[key].s) else None
  }

  /** `TryGetArrayValue(key)` on a JSON object. */
  function ArrayField(fields: map<string, Json>, key: string): (r: Option<seq<Json>>)
    ensures r.Some? <==> key in fields && fields[key].JArr?
    ensures r.Some? ==> fields[key] == JArr(r.value)
  {
    if key in fields && fields[key].JArr? then Some(fields[key].items) else None
  }

  /** `TryGetStringValue(i)` on a JSON array. */
  function StringAt(items: seq<Json>, i: int): (r: Option<string>)
    ensures r.Some? <==> 0 <= i < |items| && items[i].JStr?
    ensures r.Some? ==> items[i] == JStr(r.value)
  {
    if 0 <= i < |items| && items[i].JStr? then Some(items[i].s) else None
  }

  /** A nullable string written as a JSON value. */
  function FromString(s: Option<string>): Json {
    if s.Some? then JStr(s.value) else JNull
  }
}
