/**
 * The JavaScript values the sampler widget keeps in its `state` dictionary,
 * and JavaScript's truthiness rule, which the widget's `if (!x)` guards and
 * `!!x` completion checks apply to them.
 */
module JsValues {

  /** A JavaScript value, as far as the widget distinguishes them. Numbers are
      exact; NaN is kept apart because it is the one falsy number besides 0. */
  datatype JsValue =
    | Undefined
    | Null
    | Bool(b: bool)
    | Num(n: real)
    | NaN
    | Str(s: string)
    | Arr(items: seq<JsValue>)
    | Obj(ref: nat)

  /** JavaScript's ToBoolean: undefined, null, false, 0, NaN and "" are falsy;
      every array and object, even an empty one, is truthy. */
  predicate Truthy(v: JsValue)
  {
    match v
    case Undefined => false
    case Null => false
    case Bool(b) => b
    case Num(n) => n != 0.0
    case NaN => false
    case Str(s) => s != []
    case Arr(_) => true
    case Obj(_) => true
  }
}
