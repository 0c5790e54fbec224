/** Floating-point numbers as far as the models look at them. */
module Floats {

  /** A float, with its infinities and NaN. */
  datatype Floating = Number(x: real) | Infinite(positive: bool) | NaN
}
