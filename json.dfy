/**
 * JSON values as the API handlers receive them from `request.json()` and hand them to
 * the store, with the bits of JavaScript semantics the handlers apply to them:
 * truthiness (`!x`, `x || y`), property access on a parsed body, and `String(x)`.
 */
module Json {
  import opened Wrappers
  import JsString

  /** A parsed JSON value. Numbers are integral. */
  datatype Json =
    | JNull
    | JBool(b: bool)
    | JNum(n: int)
    | JStr(s: string)
    | JArr(items: seq<Json>)
    | JObj(fields: map<string, Json>)

  /**
   * JavaScript truthiness of a property that may be `undefined` (`None`): the falsy values
   * are `undefined`, `null`, `false`, `0` and the empty string.
   */
  predicate Truthy(v: Option<Json>)
    ensures Truthy(v) <==> v.Some? && v.value !in {JNull, JBool(false), JNum(0), JStr("")}
  {
    match v
    case None => false
    case Some(JNull) => false
    case Some(JBool(b)) => b
    case Some(JNum(n)) => n != 0
    case Some(JStr(s)) => s != ""
    case Some(_) => true
  }

  /**
   * `v[key]` for a value that is not `null` (reading a property of `null` throws).
   * Only objects carry the properties the handlers read.
   */
  function Prop(v: Json, key: string): (r: Option<Json>)
    requires !v.JNull?
    ensures r.Some? <==> v.JObj? && key in v.fields
    ensures r.Some? ==> r.value == v.fields[key]
  {
    if v.JObj? && key in v.fields then Some(v.fields[key]) else None
  }

  /**
   * `String(v)`, also what `v.toString()` gives for a non-null value: arrays are joined
   * with commas (null elements as empty strings), and an object without its own `toString`
   * key becomes "[object Object]". An object with such a key makes JavaScript throw; the
   * model does not tell it apart.
   */
  function ToStr(v: Json): (r: string)
    ensures v.JNum? ==> r == JsString.IntToString(v.n) && JsString.ParseInt(r) == Some(v.n)
    ensures v.JStr? ==> r == v.s
    ensures v.JObj? ==> r == "[object Object]"
  {
    match v
    case JNull => "null"
    case JBool(b) => if b then "true" else "false"
    case JNum(n) =>
      JsString.ParseIntOfDecimal(n);
      JsString.IntToString(n)
    case JStr(s) => s
    case JArr(items) => Join(seq(|items|, i requires 0 <= i < |items| => if items[i].JNull? then "" else ToStr(items[i])))
    case JObj(_) => "[object Object]"
  }

  /** Array.prototype.join with ",". */
  function Join(parts: seq<string>): string {
    if parts == [] then ""
    else if |parts| == 1 then parts[0]
    else parts[0] + "," + Join(parts[1..])
  }
}
