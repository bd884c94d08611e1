/** The JSON values a Flask handler receives from request.get_json(), with Python's view of them. */
module Json {
  import opened Wrappers

  datatype Json =
    | JNull
    | JBool(b: bool)
    | JNum(n: real)
    | JStr(s: string)
    | JArr(items: seq<Json>)
    | JObj(fields: map<string, Json>)

  /** Python truthiness: None, False, 0, "", [] and {} are false, everything else true. */
  predicate Truthy(j: Json)
    ensures Truthy(j) <==> j != JNull && j != JBool(false) && j != JNum(0.0) && j != JStr("")
                           && j != JArr([]) && j != JObj(map[])
  {
    match j
    case JNull => false
    case JBool(b) => b
    case JNum(n) => n != 0.0
    case JStr(s) => s != ""
    case JArr(items) => items != []
    case JObj(fields) => fields != map[]
  }

  /** dict.get: the value under key, or None when the key is absent. */
  function Get(obj: map<string, Json>, key: string): (r: Json)
    ensures key in obj ==> r == obj[key]
    ensures r != JNull ==> key in obj
  {
    if key in obj then obj[key] else JNull
  }

  /** The number Python sees in a JSON value that takes part in arithmetic comparison (bool is 0 or 1). */
  function AsNumber(j: Json): (r: Option<real>)
    ensures r.Some? <==> j.JNum? || j.JBool?
    ensures j.JNum? ==> r == Some(j.n)
  {
    match j
    case JNum(n) => Some(n)
    case JBool(b) => Some(if b then 1.0 else 0.0)
    case _ => None
  }
}
