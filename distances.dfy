/** Distance bounds that may be the JavaScript value `Infinity`. */
module Distances {

  /** A distance bound: a real number, or `Infinity`, which is above every real. */
  datatype Bound = Finite(r: real) | Infinity

  /** `d < b`, reading `Infinity` as larger than every real. */
  predicate Below(d: real, b: Bound) {
    b.Infinity? || d < b.r
  }

  /** `d <= b`, reading `Infinity` as larger than every real. */
  predicate AtMost(d: real, b: Bound) {
    b.Infinity? || d <= b.r
  }
}
