/** The scalar values a decoded JSON record can hold in a task field, and the three
    JavaScript coercions the import applies to them: truthiness (`||`, `!!`, `?:`),
    `String(v)` and `Number(v)`. A field the record lacks reads as `Undefined`. */
module JsValues {

  import opened Optional
  import opened JsStrings

  datatype JsValue = Undefined | Null | Bool(b: bool) | Num(n: int) | Str(s: string)

  /** JavaScript truthiness: `undefined`, `null`, `false`, `0` and `""` are falsy. */
  predicate Truthy(v: JsValue) {
    match v
    case Undefined => false
    case Null => false
    case Bool(b) => b
    case Num(n) => n != 0
    case Str(s) => s != ""
  }

  /** `String(v)`. */
  function ToJsString(v: JsValue): string {
    match v
    case Undefined => "undefined"
    case Null => "null"
    case Bool(b) => if b then "true" else "false"
    case Num(n) => IntToDecimal(n)
    case Str(s) => s
  }

  /** `Number(v)`; `None` stands for `NaN`. */
  function ToNumber(v: JsValue): Option<int> {
    match v
    case Undefined => None
    case Null => Some(0)
    case Bool(b) => Some(if b then 1 else 0)
    case Num(n) => Some(n)
    case Str(s) => ParseNumber(s)
  }

  /** A truthy value is never turned into the empty string by `String(v)`. */
  lemma TruthyStringNonEmpty(v: JsValue)
    requires Truthy(v)
    ensures ToJsString(v) != ""
  {
  }
}
