/**
 * Values shared by the glyphboard modules: an optional value and the
 * JavaScript numbers the components compare.
 */
module Base {

  datatype Option<T> = None | Some(value: T)

  /**
   * A JavaScript number. `NaN` is kept apart from the finite values because
   * every ordering comparison with it is false; the infinities are not modelled.
   */
  datatype JsNumber = NaN | Num(value: real)

  /** JavaScript `a <= b`. */
  predicate AtMost(a: JsNumber, b: JsNumber)
  {
    a.Num? && b.Num? && a.value <= b.value
  }

  /** JavaScript `a < b`. */
  predicate Below(a: JsNumber, b: JsNumber)
  {
    a.Num? && b.Num? && a.value < b.value
  }

  /** `Math.max` of two finite numbers: the larger of the two. */
  function Max(a: real, b: real): (r: real)
    ensures r >= a && r >= b && (r == a || r == b)
  {
    if a >= b then a else b
  }
}
