/** The JavaScript values the extension stores, reads back and tests for
    truthiness: settings entries, stored feature data and parsed records. */
module JsValues {
  import Decimal

  /** A JSON-like value. Numbers are integral (NaN and fractions are not modelled). */
  datatype JsValue =
    | Undefined
    | Null
    | Bool(b: bool)
    | Num(n: int)
    | Str(s: string)
    | Obj(props: map<string, JsValue>)

  /** `if (v)`: false exactly for undefined, null, false, 0 and the empty string. */
  predicate Truthy(v: JsValue) {
    match v
    case Undefined => false
    case Null => false
    case Bool(b) => b
    case Num(n) => n != 0
    case Str(s) => s != ""
    case Obj(_) => true
  }

  /** `v == null`: loose equality with null holds for null and undefined only. */
  predicate IsNullish(v: JsValue) {
    v.Undefined? || v.Null?
  }

  /** `v?.[key]`: an own property of an object, undefined otherwise.
      Properties of primitives (a string's characters, `length`) are not modelled. */
  function Get(v: JsValue, key: string): (r: JsValue)
    ensures v.Obj? && key in v.props ==> r == v.props[key]
    ensures !(v.Obj? && key in v.props) ==> r == Undefined
  {
    if v.Obj? && key in v.props then v.props[key] else Undefined
  }

  /** `String(v)`. */
  function ToJsString(v: JsValue): string {
    match v
    case Undefined => "undefined"
    case Null => "null"
    case Bool(b) => if b then "true" else "false"
    case Num(n) => Decimal.IntToString(n)
    case Str(s) => s
    case Obj(_) => "[object Object]"
  }

  /** An empty object literal `{}`. */
  const EmptyObject: JsValue := Obj(map[])

  lemma ObjectsAreTruthy(props: map<string, JsValue>)
    ensures Truthy(Obj(props))
  {
  }
}
