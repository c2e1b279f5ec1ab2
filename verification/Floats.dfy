/** The f64 values the gates see: exact reals, and the non-finite values they must refuse. */
module Floats {
  datatype Float = Finite(value: real) | NaN | PositiveInfinity | NegativeInfinity

  /** IEEE 754 `<`: false as soon as either side is not a number. */
  predicate Less(a: Float, b: Float) {
    match (a, b)
    case (Finite(x), Finite(y)) => x < y
    case (NegativeInfinity, Finite(_)) => true
    case (NegativeInfinity, PositiveInfinity) => true
    case (Finite(_), PositiveInfinity) => true
    case _ => false
  }

  /** IEEE 754 `==`. */
  predicate Same(a: Float, b: Float) {
    a == b && !a.NaN?
  }

  predicate AtMost(a: Float, b: Float) {
    Less(a, b) || Same(a, b)
  }

  /** IEEE 754 `+`, on values whose sum does not overflow. */
  function Plus(a: Float, b: Float): Float {
    match (a, b)
    case (Finite(x), Finite(y)) => Finite(x + y)
    case (NaN, _) => NaN
    case (_, NaN) => NaN
    case (Finite(_), _) => b
    case (_, Finite(_)) => a
    case _ => if a == b then a else NaN
  }

  function Half(a: Float): Float {
    match a
    case Finite(x) => Finite(x / 2.0)
    case _ => a
  }

  predicate AreFinite(s: seq<Float>) {
    forall i :: 0 <= i < |s| ==> s[i].Finite?
  }

  function Values(s: seq<Float>): (values: seq<real>)
    requires AreFinite(s)
    ensures |values| == |s|
  {
    seq(|s|, i requires 0 <= i < |s| => s[i].value)
  }

  /** The total order of `total_cmp`, with one NaN above everything. */
  predicate TotalAtMost(a: Float, b: Float) {
    b.NaN? || AtMost(a, b)
  }
}
