/** The few Kotlin/JVM semantics the modelled code relies on. */
module Kotlin {

  /** Kotlin's `Byte`: a signed 8-bit integer, as stored in a `ByteArray`. */
  newtype Byte = x: int | -128 <= x < 128

  /** The JVM exceptions that the modelled code can raise. */
  datatype Exception =
    | IllegalArgument     // `require(...)` failed, or an enum lookup found nothing
    | Arithmetic          // integer division or remainder by zero
    | NegativeArraySize   // `ByteArray(n)` or `IntArray(n)` with n < 0
    | IndexOutOfBounds    // an array access or `System.arraycopy` out of range
    | UninitializedPropertyAccess  // a property read before it was first set

  /** A Kotlin nullable type `T?`. */
  datatype Nullable<+T> = Null | NonNull(value: T)

  /** A call that either returns a value or throws one of the exceptions above. */
  datatype Result<+T> = Ok(value: T) | Err(error: Exception)

  /** Kotlin's `/` on `Int` for a positive divisor: the quotient is truncated
      toward zero (Dafny's own `/` rounds toward negative infinity instead). */
  function Div(a: int, b: int): (q: int)
    requires b > 0
    ensures a >= 0 ==> q * b <= a < q * b + b
    ensures a < 0 ==> q * b - b < a <= q * b
  {
    if a >= 0 then a / b else -((-a) / b)
  }

  /** A `ByteArray(n)` or `IntArray(n)`: every element starts as zero. */
  function Zeros(n: nat): (s: seq<Byte>)
    ensures |s| == n
    ensures forall k :: 0 <= k < n ==> s[k] == 0
  {
    seq(n, _ => 0)
  }
}
