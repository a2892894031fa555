/** The exceptions the modelled C# code can raise, as values. A method that
    throws in the source returns `Failure(e)` / `Fail(e)` here and leaves the
    state as it was. */
module Exceptions {

  /** The .NET exception types the modelled code raises; an `InvalidOperation` carries
      the message the source passes to `InvalidOperationException`. */
  datatype Exception =
    | InvalidOperation(message: string)
    | KeyNotFound        // a dictionary indexer given a missing key
    | IndexOutOfRange    // an array or string indexer given a bad index

  /** The outcome of an operation that returns a value or throws. */
  datatype Result<T> = Success(value: T) | Failure(error: Exception)

  /** The outcome of a `void` operation that may throw. */
  datatype Outcome = Pass | Fail(error: Exception)
}
