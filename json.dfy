/**
 * Values produced by Python's `json.loads`: `None`, booleans, integers,
 * floats, strings, lists and dicts. An object's members keep the order of the
 * text and, as in any dict `json.loads` returns, distinct keys.
 */
module Json {
  import opened Wrappers
  import opened Dicts

  datatype Json =
    | JNull
    | JBool(b: bool)
    | JInt(i: int)
    | JFloat(r: real)
    | JString(s: string)
    | JArray(items: seq<Json>)
    | JObject(members: Dict<string, Json>)

  /** Python truthiness: `None`, `False`, zero, and empty strings, lists and
      dicts are false. */
  predicate Truthy(v: Json) {
    match v
    case JNull => false
    case JBool(b) => b
    case JInt(i) => i != 0
    case JFloat(r) => r != 0.0
    case JString(s) => s != ""
    case JArray(items) => items != []
    case JObject(members) => members != []
  }

  /** `r.get(k)` on a record: the member's value, `None` when it is absent. */
  function Field(members: Dict<string, Json>, k: string): (v: Json)
    ensures k !in Keys(members) ==> v == JNull
    ensures k in Keys(members) ==> Get(members, k) == Some(v)
  {
    Get(members, k).GetOr(JNull)
  }
}
