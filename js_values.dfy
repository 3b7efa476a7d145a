/** The JavaScript values a parsed JSON request body hands to the route
    handlers, reduced to the primitives the handlers look at. A field that
    is absent from the body reads as `Undefined`. Numbers are integers
    here; fractional numbers and NaN are not modelled. */
module JsValues {

  datatype JsValue =
    | Undefined
    | Null
    | Bool(b: bool)
    | Num(n: int)
    | Str(s: string)

  /** JavaScript truthiness: `!v` is false exactly for these values.
      `false`, `0`, `""`, `null` and `undefined` are the falsy ones. */
  function Truthy(v: JsValue): (t: bool)
    ensures !t <==> v == Undefined || v == Null || v == Bool(false) || v == Num(0) || v == Str("")
  {
    match v
    case Undefined => false
    case Null => false
    case Bool(b) => b
    case Num(n) => n != 0
    case Str(s) => s != ""
  }

  /** `typeof v === 'number' && v > 0`, the only `count` the assign route
      accepts. `undefined`, strings, booleans and `null` all fail the
      `typeof` test. */
  function IsPositiveNumber(v: JsValue): (ok: bool)
    ensures !v.Num? ==> !ok
    ensures ok ==> Truthy(v)
    ensures v.Num? ==> (ok <==> v.n >= 1)
  {
    v.Num? && v.n > 0
  }
}
