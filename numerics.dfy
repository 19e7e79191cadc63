/** Float comparison of fa.py (equal_double) and the extended length used
    for an incumbent that does not exist yet (the source's float('inf')). */
module Numerics {

  /** Default tolerance of equal_double. */
  const EPSILON: real := 0.000001

  function Abs(x: real): (r: real)
    ensures r >= 0.0 && (r == x || r == -x)
  {
    if x < 0.0 then -x else x
  }

  /** equal_double: a and b are equal up to the tolerance epsilon. */
  function EqualDouble(a: real, b: real, epsilon: real := EPSILON): (r: bool)
    ensures r <==> a - epsilon < b < a + epsilon
  {
    Abs(a - b) < epsilon
  }

  /** The comparison does not depend on the order of its arguments. */
  lemma EqualDoubleSymmetric(a: real, b: real, epsilon: real)
    ensures EqualDouble(a, b, epsilon) == EqualDouble(b, a, epsilon)
  {
  }

  /** A tour length as Python holds it: a finite float, or float('inf'). */
  datatype Length = Infinity | Finite(value: real)

  /** The order of lengths: every finite length is below infinity. */
  predicate AtMost(a: Length, b: Length) {
    b.Infinity? || (a.Finite? && a.value <= b.value)
  }

  /** Python's round for a non-negative x: halves go away from zero. */
  function Round(x: real): (r: int)
    requires x >= 0.0
    ensures r >= 0 && x - 0.5 < r as real <= x + 0.5
  {
    (x + 0.5).Floor
  }
}
