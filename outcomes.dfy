/** The exceptions the edit overlay can raise, and the result types that carry them. */
module Outcomes {

  /** One constructor per Java exception class the overlay's code can throw. */
  datatype Error =
    | IllegalState       // IllegalStateException: multiple definitions, unknown variable on read, same-platform conversion
    | IllegalArgument    // IllegalArgumentException: unknown variable or block on write, negative buffer size
    | NumberFormat       // NumberFormatException: a numeric write to a variable of another type
    | NullPointer        // NullPointerException: a missing map entry or a null value dereferenced
    | IndexOutOfBounds   // IndexOutOfBoundsException: get(0) on an empty list
    | ClassCast          // ClassCastException: a non-integer value cast to int
    | BufferOverflow     // java.nio.BufferOverflowException: a put past the end of a ByteBuffer
    | BufferUnderflow    // java.nio.BufferUnderflowException: a getInt on fewer than 4 bytes

  /** A nullable Java reference: None stands for null. */
  datatype Option<+T> = None | Some(value: T)

  /** The value a Java method returns, or the exception it throws. */
  datatype Result<+T> = Success(value: T) | Failure(error: Error) {
    predicate IsFailure() { Failure? }
    function PropagateFailure<U>(): Result<U> requires Failure? { Failure(error) }
    function Extract(): T requires Success? { value }
  }

  /** The outcome of a void Java method: it returns, or it throws. */
  datatype Outcome = Pass | Fail(error: Error)
}
