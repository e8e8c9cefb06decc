/** Failure-carrying result types shared by the model. */
module Wrappers {

  /** A value that may be missing: `std::string::npos` from a search, or "no candidate". */
  datatype Option<+T> = None | Some(value: T)

  /** A computed value or the error that `open` throws instead. */
  datatype Result<+T, +E> = Ok(value: T) | Err(error: E)

  /** The outcome of a `void` operation that may throw. */
  datatype Outcome<+E> = Pass | Fail(error: E)
}
