/**
 * JavaScript values as `JSON.parse` produces them, with the two JavaScript
 * tests the routes apply to them: truthiness (`!x`) and `typeof x === 'number'`.
 */
module JsonValues {
  import opened Wrappers

  /** A parsed JSON value. Numbers are integral here (see README "Left out"). */
  datatype Json =
    | JNull
    | JBool(b: bool)
    | JNumber(n: int)
    | JString(s: string)
    | JArray(items: seq<Json>)
    | JObject(members: map<string, Json>)

  /** JavaScript truthiness: `null`, `false`, `0` and `""` are falsy. */
  predicate Truthy(v: Json) {
    match v
    case JNull => false
    case JBool(b) => b
    case JNumber(n) => n != 0
    case JString(s) => s != []
    case JArray(_) => true
    case JObject(_) => true
  }

  /** A present and truthy property; an absent one (`undefined`) is falsy. */
  predicate IsTruthy(v: Option<Json>) {
    v.Some? && Truthy(v.value)
  }

  /** `typeof v === 'number'`; `undefined` is not a number. */
  predicate IsNumber(v: Option<Json>) {
    v.Some? && v.value.JNumber?
  }

  /**
   * Property access `v.key` on a value that is not `null`: the member of an
   * object, `undefined` on every other kind of value.
   */
  function Member(v: Json, key: string): Option<Json>
    requires !v.JNull?
  {
    match v
    case JObject(members) => if key in members then Some(members[key]) else None
    case _ => None
  }
}
