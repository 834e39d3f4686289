/** Numeric helpers shared by the effects: RGB colours and Python's int() on a float. */
module Numeric {

  /** An RGB colour as the effects hand it to the drawing calls. */
  datatype Colour = Colour(r: int, g: int, b: int)

  predicate IsChannel(v: int) {
    0 <= v <= 255
  }

  /** Every channel is a displayable byte value. */
  predicate ValidColour(c: Colour) {
    IsChannel(c.r) && IsChannel(c.g) && IsChannel(c.b)
  }

  /** Python's int() applied to a float: truncation toward zero. */
  function Trunc(x: real): (n: int)
    ensures 0.0 <= x ==> 0 <= n && n as real <= x < n as real + 1.0
    ensures x < 0.0 ==> n <= 0 && x <= n as real < x + 1.0
  {
    if x >= 0.0 then x.Floor else -((-x).Floor)
  }

  /** Truncation never reverses the order of its arguments. */
  lemma TruncMonotone(a: real, b: real)
    requires a <= b
    ensures Trunc(a) <= Trunc(b)
  {
  }
}
