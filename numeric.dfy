/** Exact decimal arithmetic on temperatures (degrees Celsius as `real`).
    Every temperature the engine stores passes through `toFixed(1)` or
    `formatSetpoint`; both round half up to one decimal, which is RoundTenth. */
module Numeric {

  /** x is a whole number of tenths of a degree. */
  predicate OnTenths(x: real) {
    (x * 10.0).Floor as real == x * 10.0
  }

  /** Rounding to one decimal, half up (`Math.round(v * 10) / 10`). */
  function RoundTenth(x: real): (r: real)
    ensures x - 0.05 < r <= x + 0.05
    ensures OnTenths(r)
  {
    ((x * 10.0 + 0.5).Floor as real) / 10.0
  }

  /** `Math.max(min, Math.min(max, value))`. */
  function Clamp(value: real, min: real, max: real): (r: real)
    ensures min <= max ==> min <= r <= max
    ensures min <= value <= max ==> r == value
    ensures value <= min ==> r == min
    ensures min <= max <= value ==> r == max
  {
    if value > max then (if max > min then max else min)
    else if value > min then value
    else min
  }

  lemma RoundTenthFixesTenths(x: real)
    requires OnTenths(x)
    ensures RoundTenth(x) == x
  {
    var n := (x * 10.0).Floor;
    assert (x * 10.0 + 0.5).Floor == n;
  }

  lemma RoundTenthMonotone(x: real, y: real)
    requires x <= y
    ensures RoundTenth(x) <= RoundTenth(y)
  {
    assert (x * 10.0 + 0.5).Floor <= (y * 10.0 + 0.5).Floor;
  }

  lemma TenthsDifference(a: real, b: real)
    requires OnTenths(a) && OnTenths(b)
    ensures OnTenths(a - b)
  {
    var m, n := (a * 10.0).Floor, (b * 10.0).Floor;
    assert (a - b) * 10.0 == (m - n) as real;
  }

  lemma ClampMonotone(x: real, y: real, min: real, max: real)
    requires x <= y
    ensures Clamp(x, min, max) <= Clamp(y, min, max)
  {
  }

  /** Rounding a value between two whole-tenth bounds stays between them. */
  lemma RoundTenthWithin(x: real, lo: real, hi: real)
    requires OnTenths(lo) && OnTenths(hi) && lo <= x <= hi
    ensures lo <= RoundTenth(x) <= hi
  {
    RoundTenthMonotone(lo, x);
    RoundTenthMonotone(x, hi);
    RoundTenthFixesTenths(lo);
    RoundTenthFixesTenths(hi);
  }
}
