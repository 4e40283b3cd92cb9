/** Values and failures shared by the classifier's operations.

    The Kotlin code reports failure only by throwing: an array index out of
    range, a `lateinit` table read before it was loaded, or a negative
    neighbour count passed to `take`. Each throw is a
    `Failure` here, carried out of the operation by `Result`. */
module Outcomes {

  datatype Option<+T> = None | Some(value: T)

  /** The exceptions the classifier can raise on the Android runtime. */
  datatype Failure =
    | IndexOutOfBounds(index: int, length: int)  // ArrayIndexOutOfBoundsException
    | Uninitialized(property: string)            // UninitializedPropertyAccessException
    | NegativeCount(count: int)                  // IllegalArgumentException from `take`

  datatype Result<+T> = Ok(value: T) | Err(failure: Failure)

  function DigitChar(d: nat): char
    requires d < 10
  {
    ('0' as int + d) as char
  }

  /** Decimal spelling of a natural number, most significant digit first. */
  function Decimal(n: nat): string
    decreases n
  {
    if n < 10 then [DigitChar(n)] else Decimal(n / 10) + [DigitChar(n % 10)]
  }

  function IntToString(i: int): string {
    if i < 0 then "-" + Decimal(-i) else Decimal(i)
  }

  /** The exception's message text, as `e.message` yields it. */
  function Message(f: Failure): (m: string)
    ensures |m| > 0
  {
    match f
    case IndexOutOfBounds(index, length) =>
      "length=" + IntToString(length) + "; index=" + IntToString(index)
    case Uninitialized(property) =>
      "lateinit property " + property + " has not been initialized"
    case NegativeCount(count) =>
      "Requested element count " + IntToString(count) + " is less than zero."
  }
}
