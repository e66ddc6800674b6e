/**
 * Decoded JSON documents, as Python's `json` module hands them to the script
 * (objects become dicts, arrays lists, strings str), and the two Python
 * operations the script applies to them. An operation that raises in Python
 * returns `None` here.
 */
module Json {
  import opened Wrappers

  datatype Json =
    | JNull
    | JBool(b: bool)
    | JNumber(n: int)
    | JString(s: string)
    | JArray(items: seq<Json>)
    | JObject(fields: map<string, Json>)

  /** `v` is a dict with an entry for `key`, so `v[key]` does not raise. */
  predicate HasField(v: Json, key: string) {
    v.JObject? && key in v.fields
  }

  /**
   * `v.get(key, default)`: only a dict has `get` (anything else raises
   * AttributeError); a missing key gives the default.
   */
  function Get(v: Json, key: string, default: Json): Option<Json> {
    match v
    case JObject(fields) => Some(if key in fields then fields[key] else default)
    case _ => None
  }

  /**
   * `v[key]` with a string key: a dict without the key raises KeyError, and
   * lists, strings, numbers, booleans and None raise TypeError.
   */
  function Subscript(v: Json, key: string): Option<Json> {
    if HasField(v, key) then Some(v.fields[key]) else None
  }
}
