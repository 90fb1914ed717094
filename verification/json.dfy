/** The decoded JSON values a source-hosting API returns, and Python's truthiness on them. */
module Json {

  /** A decoded JSON value. Numbers are integral; fractional numbers are not modelled. */
  datatype JsonValue =
    | JNull
    | JBool(b: bool)
    | JNumber(n: int)
    | JString(s: string)
    | JArray(items: seq<JsonValue>)
    | JObject(fields: map<string, JsonValue>)

  /** A JSON object as Python's `json` module decodes it: a dict keyed by strings. */
  type Payload = map<string, JsonValue>

  /** `bool(v)` in Python for the value `json.loads` produces from `v`:
      `None`, `False`, `0`, `""`, `[]` and `{}` are false, everything else is true. */
  predicate Truthy(v: JsonValue)
  {
    match v
    case JNull => false
    case JBool(b) => b
    case JNumber(n) => n != 0
    case JString(s) => s != ""
    case JArray(items) => items != []
    case JObject(fields) => fields != map[]
  }
}
