/** The exceptions the bit engine and the array transports raise, as values. */
module Outcomes {

  /** One constructor per exception class the core throws. */
  datatype Error =
    | IllegalArgument   // IllegalArgumentException: a length, scale, range, offset or value check failed
    | EndOfFile         // EOFException: the byte input reported -1 (end of data)
    | IllegalState      // IllegalStateException: ArrayByteOutput's index reached its limit
    | IndexOutOfBounds  // IndexOutOfBoundsException and ArrayIndexOutOfBoundsException
    | NullPointer       // NullPointerException
    | NullTarget        // the exception requireNonNullTarget raises for a missing target array

  /** The result of a Java method that returns a value or throws. */
  datatype Result<T> = Ok(value: T) | Err(error: Error)

  /** The result of a `void` Java method: it returns normally or throws. */
  datatype Outcome = Pass | Fail(error: Error)

  /** Whether a value-returning call returned normally, forgetting the value. */
  function Status<T>(r: Result<T>): Outcome
  {
    if r.Ok? then Pass else Fail(r.error)
  }
}
