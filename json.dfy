/**
 * A JSON value, standing for `serde_json::Value`, with the accessors the
 * server uses on it.  Parsing and serialising are left to the frame codec's
 * caller; numbers carry an integer because the server never reads one.
 */
module Json {
  import opened Wrappers

  datatype Json =
    | JNull
    | JBool(b: bool)
    | JNumber(n: int)
    | JString(s: string)
    | JArray(items: seq<Json>)
    | JObject(fields: map<string, Json>)

  /** `Value::get(key)`: the field of an object, None for a missing key or a value that is not an object. */
  function Get(v: Json, key: string): Option<Json> {
    if v.JObject? && key in v.fields then Some(v.fields[key]) else None
  }

  /** `v[key]`: the field of an object, or null. */
  function Index(v: Json, key: string): Json {
    if v.JObject? && key in v.fields then v.fields[key] else JNull
  }

  /** `as_str().unwrap_or("")`. */
  function StrOrEmpty(v: Json): string {
    if v.JString? then v.s else ""
  }
}
