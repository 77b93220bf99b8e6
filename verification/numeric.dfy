/**
  Numeric helpers shared by the detector model. Single-precision floats are
  modelled as `real`; the conversions the C++ code performs implicitly
  (`ceil` stored into an `int`, `static_cast<int>`) are written out here.
 */
module Numeric {

  /** The file-local `Clip(x, y)` macro of the detector. It tests the lower
      bound 0 FIRST, so when the upper bound is negative the result is either
      0 (for a negative argument) or that negative bound. */
  function Clip(x: real, hi: real): (r: real)
    ensures x < 0.0 ==> r == 0.0
    ensures 0.0 <= hi ==> 0.0 <= r <= hi
    ensures 0.0 <= x <= hi ==> r == x
    ensures hi < 0.0 ==> r == 0.0 || r == hi
  {
    if x < 0.0 then 0.0 else if x > hi then hi else x
  }

  /** `ceil(v)` converted to an integer. */
  function Ceil(v: real): (n: int)
    ensures v <= n as real < v + 1.0
  {
    -((-v).Floor)
  }

  /** `static_cast<int>(v)`: truncation toward zero (the int range is not modelled). */
  function Trunc(v: real): (n: int)
    ensures 0.0 <= v ==> 0 <= n && n as real <= v < n as real + 1.0
    ensures v < 0.0 ==> n <= 0 && v <= n as real && (n as real) - 1.0 < v
  {
    if 0.0 <= v then v.Floor else -((-v).Floor)
  }

  /** OpenCV's `MAX` on integers. */
  function Max(a: int, b: int): (m: int)
    ensures a <= m && b <= m
    ensures m == a || m == b
  {
    if a < b then b else a
  }

  function MaxReal(a: real, b: real): real
  {
    if a < b then b else a
  }

  function MinReal(a: real, b: real): real
  {
    if a < b then a else b
  }
}
