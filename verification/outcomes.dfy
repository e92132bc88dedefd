/** The result of a request: the value it produced or the error it reported. */
module Outcomes {

  /** Either the value an operation produced or the error it reported. */
  datatype Result<+T, +E> = Success(value: T) | Failure(error: E)
}
