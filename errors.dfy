/** The exceptions the three containers raise, modelled as values. */
module Errors {

  /** Why an IndexError was raised. */
  datatype IndexFault =
    | OutOfRange(index: int)  // an index outside [-size, size), carried as the caller gave it
    | PopFromEmpty            // removing the last element of an empty list or stack

  datatype Error =
    | IndexError(fault: IndexFault)
    | ReferenceError          // peeking at or removing from an empty queue

  /** The outcome of an operation that may raise: its value, or the exception. */
  datatype Result<T> = Ok(value: T) | Err(error: Error)
}
