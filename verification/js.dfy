/** The small slice of JavaScript value semantics the components rely on:
    optional values and truthiness (`if (x)`, `x || fallback`, `Boolean(x)`). */
module Js {

  datatype Option<+T> = None | Some(value: T)

  /** A JSON-shaped value as found in form state and stored blobs. Numbers
      are integers; NaN is not modelled. */
  datatype Value =
    | Undefined
    | Null
    | Bool(b: bool)
    | Num(n: int)
    | Str(s: string)
    | Arr(items: seq<Value>)

  /** JavaScript truthiness: `undefined`, `null`, `false`, `0` and `''` are
      falsy; every array (even an empty one) is truthy. */
  predicate Truthy(v: Value) {
    match v
    case Undefined => false
    case Null => false
    case Bool(b) => b
    case Num(n) => n != 0
    case Str(s) => s != []
    case Arr(_) => true
  }

  /** `a || b` on strings: the first operand unless it is empty. */
  function Or(a: string, b: string): string
  {
    if a != [] then a else b
  }
}
