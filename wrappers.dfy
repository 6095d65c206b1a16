/** Failure-carrying values shared by the other modules. */
module Wrappers {

  /** A value that may be absent: JavaScript's `undefined` for a missing
      array element, or a failed decode. */
  datatype Option<T> = None | Some(value: T)

  /** The outcome of an operation that throws in the original program. */
  datatype Result<T, E> = Success(value: T) | Failure(error: E)
}
