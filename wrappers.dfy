/** The outcome of an operation that the program lets raise an exception. */
module Wrappers {

  /** Either the value the operation returns, or the error it raises. */
  datatype Result<+T, +E> = Ok(value: T) | Err(error: E)
}
