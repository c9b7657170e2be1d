/**
 * Parsed JSON values, as `JSON.parse` hands them to the server: the control
 * messages a client sends and the credential list are both such values.
 */
module Json {
  import opened Base

  /** A parsed JSON value. Numbers are modelled as integers. */
  datatype Json =
    | JNull
    | JBool(b: bool)
    | JNum(n: int)
    | JStr(s: string)
    | JArr(items: seq<Json>)
    | JObj(fields: map<string, Json>)

  /** JavaScript's `typeof v === "object"`: true of objects, arrays and of `null`. */
  predicate TypeofObject(v: Json) {
    v.JNull? || v.JArr? || v.JObj?
  }

  /**
   * Property access `v[key]` on a non-null value, `None` standing for
   * `undefined`. Arrays and primitives carry none of the keys the server reads.
   */
  function Prop(v: Json, key: string): (r: Option<Json>)
    ensures r.Some? <==> v.JObj? && key in v.fields
    ensures r.Some? ==> r.value == v.fields[key]
  {
    if v.JObj? && key in v.fields then Some(v.fields[key]) else None
  }

  /** The string held by `v[key]`, if the property exists and `typeof` is "string". */
  function StringProp(v: Json, key: string): (r: Option<string>)
    ensures r.Some? <==> Prop(v, key).Some? && Prop(v, key).value.JStr?
    ensures r.Some? ==> Prop(v, key) == Some(JStr(r.value))
  {
    match Prop(v, key)
    case Some(JStr(s)) => Some(s)
    case _ => None
  }
}
