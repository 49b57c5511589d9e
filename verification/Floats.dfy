/** The source's floating-point values where an infinity or a NaN can reach the code; rounding is not modelled. */
module Floats {
  datatype Float = Finite(value: real) | Infinite(positive: bool) | NaN

  function Plus(a: Float, b: real): Float {
    match a
    case Finite(v) => Finite(v + b)
    case _ => a
  }

  /** `a > b`; every comparison with a NaN is false. */
  predicate Above(a: Float, b: real) {
    match a
    case Finite(v) => v > b
    case Infinite(positive) => positive
    case NaN => false
  }

  /** `a <= b` */
  predicate AtMost(a: Float, b: real) {
    match a
    case Finite(v) => v <= b
    case Infinite(positive) => !positive
    case NaN => false
  }

  function Abs(r: real): real { if r < 0.0 then -r else r }

  /** `abs(b - a)` */
  function Distance(a: Float, b: real): Float {
    match a
    case Finite(v) => Finite(Abs(b - v))
    case Infinite(_) => Infinite(true)
    case NaN => NaN
  }
}
