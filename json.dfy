/** JSON values as the request body deserialises them, and the few
    operations of Python's `dict` that the tenant gate applies to them. */
module Json {

  /** Python's `None` where it stands for "no value" (a missing key, an unset attribute). */
  datatype Option<+T> = None | Some(value: T)

  /** A deserialised JSON document.  `JNull` is JSON `null` (Python `None`);
      objects are dictionaries from keys to values. */
  datatype Json =
    | JNull
    | JBool(b: bool)
    | JInt(n: int)
    | JString(s: string)
    | JArray(items: seq<Json>)
    | JObject(fields: map<string, Json>)

  /** The request body: either it could not be parsed as JSON at all
      (absent, empty, plain text, malformed), or it is a JSON value. */
  datatype Body = Unparsable | Parsed(value: Json)

  /** `d.get(key)`: `None` both for a missing key and for a key bound to
      JSON `null`, since the two are the same Python value. */
  function Get(fields: map<string, Json>, key: string): (r: Option<Json>)
    ensures r != Some(JNull)
    ensures r == None <==> key !in fields || fields[key] == JNull
    ensures key in fields && fields[key] != JNull ==> r == Some(fields[key])
  {
    if key in fields && fields[key] != JNull then Some(fields[key]) else None
  }

  /** `d.get(key, default)`: the default only for a missing key; a key bound
      to `null` yields `JNull`. */
  function GetOr(fields: map<string, Json>, key: string, default: Json): (r: Json)
    ensures key !in fields ==> r == default
    ensures key in fields ==> Get(fields, key) == if r == JNull then None else Some(r)
  {
    if key in fields then fields[key] else default
  }

  /** Python truthiness of a value that may be `None`: `None`, `False`, `0`,
      the empty string, the empty list and the empty dict are false. */
  predicate Truthy(v: Option<Json>)
    ensures Truthy(v) ==> v.Some? && v.value != JNull
    ensures v.Some? && v.value.JString? ==> (Truthy(v) <==> v.value.s != "")
  {
    match v
    case None => false
    case Some(j) =>
      match j
      case JNull => false
      case JBool(b) => b
      case JInt(n) => n != 0
      case JString(s) => s != ""
      case JArray(items) => items != []
      case JObject(fields) => fields != map[]
  }
}
