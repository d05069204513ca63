/** Rounding to one decimal, as Python's `round(x, 1)` and C's `%.1f` do it. */
module Rounding {

  /** `x` in tenths: the nearest integer, ties to even. */
  function RoundTenths(x: real): (t: int)
    ensures -0.5 <= t as real - 10.0 * x <= 0.5
    ensures t as real - 10.0 * x == 0.5 || t as real - 10.0 * x == -0.5 ==> t % 2 == 0
  {
    var low := (10.0 * x).Floor;
    var rest := 10.0 * x - low as real;
    if rest < 0.5 || (rest == 0.5 && low % 2 == 0) then low else low + 1
  }

  /** `x` in units, as `%.0f` rounds it. */
  function RoundUnits(x: real): (n: int)
    ensures -0.5 <= n as real - x <= 0.5
    ensures n as real - x == 0.5 || n as real - x == -0.5 ==> n % 2 == 0
  {
    var low := x.Floor;
    var rest := x - low as real;
    if rest < 0.5 || (rest == 0.5 && low % 2 == 0) then low else low + 1
  }
}
