/** The exceptions the modelled java.nio calls throw, as values. */
module NioResult {

  /** One constructor per exception class a buffer or channel call can throw here. */
  datatype Error =
    | IllegalArgument    // IllegalArgumentException
    | BufferOverflow     // BufferOverflowException
    | BufferUnderflow    // BufferUnderflowException
    | InvalidMark        // InvalidMarkException
    | IndexOutOfBounds   // IndexOutOfBoundsException

  /** The value of a call that returns something, or the exception it throws. */
  datatype Result<+T> = Ok(value: T) | Err(error: Error)

  /** The outcome of a call that returns nothing useful (Java returns `this`). */
  datatype Outcome = Pass | Fail(error: Error)
}
