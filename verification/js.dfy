/** JavaScript values as they reach the service from a request body, a query
    string or a token payload, with the coercions the service relies on. */
module Js {

  /** A JavaScript value. Numbers are integers: NaN and fractions never reach
      the modelled code paths as inputs. */
  datatype Value =
    | Undefined
    | Null
    | Bool(b: bool)
    | Num(n: int)
    | Str(s: string)
    | Object

  /** JavaScript's ToBoolean: what `if (v)` and `!v` test. */
  predicate Truthy(v: Value) {
    match v
    case Undefined => false
    case Null => false
    case Bool(b) => b
    case Num(n) => n != 0
    case Str(s) => s != ""
    case Object => true
  }

  /** The guard pair `if (!v) …; if (typeof (v) != 'string') …` passes exactly
      for the non-empty strings. */
  predicate IsFilledString(v: Value) {
    Truthy(v) && v.Str?
  }
}
