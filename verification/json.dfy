/** The JSON values the credential builders produce. An object maps each key
    to one value, as serde_json's map does; key order is not modelled. */
module Json {
  import opened Wrappers

  datatype Json =
    | JNull
    | JBool(b: bool)
    | JString(s: string)
    | JArray(items: seq<Json>)
    | JObject(fields: map<string, Json>)

  /** The value under `key`; `None` on a missing key or a value that is not an object. */
  function Get(j: Json, key: string): (r: Option<Json>)
    ensures r.Some? <==> j.JObject? && key in j.fields
    ensures r.Some? ==> r.value == j.fields[key]
  {
    if j.JObject? && key in j.fields then Some(j.fields[key]) else None
  }

  /** A string field's text, when the field is present and holds a string. */
  function GetString(j: Json, key: string): (r: Option<string>)
    ensures r.Some? <==> Get(j, key).Some? && Get(j, key).value.JString?
    ensures r.Some? ==> Get(j, key) == Some(JString(r.value))
  {
    match Get(j, key)
    case Some(JString(s)) => Some(s)
    case _ => None
  }

  /** A boolean field's value, when the field is present and holds a boolean. */
  function GetBool(j: Json, key: string): (r: Option<bool>)
    ensures r.Some? <==> Get(j, key).Some? && Get(j, key).value.JBool?
    ensures r.Some? ==> Get(j, key) == Some(JBool(r.value))
  {
    match Get(j, key)
    case Some(JBool(b)) => Some(b)
    case _ => None
  }
}
