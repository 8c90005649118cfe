/** The Python values json.loads produces from a JSON text (RFC 8259), as far
    as the core inspects them. */
module Json {
  import opened Wrappers

  datatype JsonValue =
    | JNull
    | JBool(b: bool)
    | JInt(i: int)
    | JString(s: string)
    | JArray(items: seq<JsonValue>)
    | JObject(fields: map<string, JsonValue>)

  /** Python truthiness of the decoded value (what `if not x` tests). */
  predicate Truthy(v: JsonValue) {
    match v
    case JNull => false
    case JBool(b) => b
    case JInt(i) => i != 0
    case JString(s) => s != ""
    case JArray(items) => items != []
    case JObject(fields) => fields != map[]
  }

  /** dict.get(key) on a decoded object. */
  function Get(fields: map<string, JsonValue>, key: string): Option<JsonValue> {
    if key in fields then Some(fields[key]) else None
  }

  /** type(v).__name__ of the decoded value, as Python's error messages print it. */
  function PyTypeName(v: JsonValue): string {
    match v
    case JNull => "NoneType"
    case JBool(_) => "bool"
    case JInt(_) => "int"
    case JString(_) => "str"
    case JArray(_) => "list"
    case JObject(_) => "dict"
  }
}
