/** The .NET exceptions the rendering core can raise, as values. */
module Outcomes {

  /** Exception kinds thrown by the two view models. */
  datatype Fault =
    | IndexOutOfRange    // IndexOutOfRangeException: an array index outside its bounds
    | Overflow           // OverflowException: an array allocated with a negative length
    | DivideByZero       // DivideByZeroException: integer division by zero
    | DimensionMismatch  // ArgumentException thrown by MatrixMultiply
    | NullReference      // NullReferenceException: a method called on an array slot never written

  /** A computation that either returns a value or throws. */
  datatype Result<T> = Success(value: T) | Failure(error: Fault)

  /** A state-changing step that either completes or throws. */
  datatype Outcome = Completed | Thrown(fault: Fault)
}

/** Numeric conversions of C#, stated on exact reals. */
module Arith {

  /** The C# cast `(int)d`: rounds toward zero (unlike Math.Floor for negative values). */
  function Trunc(d: real): (t: int)
    ensures d >= 0.0 ==> t as real <= d < t as real + 1.0
    ensures d < 0.0 ==> t as real - 1.0 < d <= t as real
  {
    if d >= 0.0 then d.Floor else -((-d).Floor)
  }

  /** The C# cast `(byte)d` in an unchecked context: truncate toward zero and keep the low 8 bits.
      In range it is plain truncation. */
  function ByteOf(d: real): (b: int)
    ensures 0 <= b < 256
    ensures 0.0 <= d < 256.0 ==> b == d.Floor
  {
    Trunc(d) % 256
  }

  /** Multiplication by a non-negative number is monotonic. */
  lemma MulLe(a: int, b: int, c: int)
    requires a <= b && 0 <= c
    ensures a * c <= b * c
  {
    assert b * c - a * c == (b - a) * c;
  }
}
