/** The few JavaScript values the viewer's index arithmetic produces. */
module JsValues {

  datatype Option<+T> = None | Some(value: T)

  /** A JavaScript number as the viewer's index code sees it: an integer, NaN
      (what `parseInt` gives for a token without digits, and `NaN - 1`), or
      `undefined` (what a typed array or a buffer attribute gives for an index
      outside it). */
  datatype Value = Num(n: int) | NaN | Undefined

  /** `x - 1` in JavaScript: NaN and undefined both give NaN. */
  function Pred(x: Value): Value {
    match x
    case Num(n) => Num(n - 1)
    case _ => NaN
  }

  /** The value a `Float32Array` holds after `a[i] = x`: undefined is stored as NaN. */
  function StoreFloat32(x: Value): Value {
    if x.Undefined? then NaN else x
  }

  /** A list of numbers and NaN, with no `undefined` in it. */
  predicate Defined(xs: seq<Value>) {
    forall k :: 0 <= k < |xs| ==> !xs[k].Undefined?
  }

  /** `buf[i]` (or `attribute.getX(i)`) on a buffer of values: undefined outside it. */
  function Lookup(buf: seq<Value>, i: int): Value {
    if 0 <= i < |buf| then buf[i] else Undefined
  }
}
