/** Failure-carrying datatypes used across the model in place of the
    C++ exceptions and null pointers of krabby. */
module Wrappers {

  /** A value that may be absent (a null pointer, `std::string::npos`,
      a missing map entry). */
  datatype Option<+T> = None | Some(value: T)

  /** The outcome of an operation that either succeeds with a value or
      throws; the thrown error is carried as data. */
  datatype Result<+R, +E> = Success(value: R) | Failure(error: E)
}
