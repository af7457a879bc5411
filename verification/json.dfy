/** An already-parsed JSON value and JavaScript truthiness over it. */
module Json {

  /** The values `JSON.parse` can produce. Numbers are kept as exact reals. */
  datatype Json =
    | JNull
    | JBool(b: bool)
    | JNum(n: real)
    | JStr(s: string)
    | JArr(elems: seq<Json>)
    | JObj(fields: map<string, Json>)

  /** JavaScript truthiness: `null`, `false`, `0` and `""` are falsy. */
  predicate Truthy(v: Json) {
    match v
    case JNull => false
    case JBool(b) => b
    case JNum(n) => n != 0.0
    case JStr(s) => |s| > 0
    case JArr(_) => true
    case JObj(_) => true
  }

  /** Property access `v.key` on a non-null value. A missing property, and any
      property of a non-object, reads as `undefined`, represented here by `JNull`
      (both are falsy and both are stored as SQL NULL). */
  function Get(v: Json, key: string): (r: Json)
    ensures Truthy(r) ==> v.JObj? && key in v.fields && r == v.fields[key]
  {
    if v.JObj? && key in v.fields then v.fields[key] else JNull
  }
}
