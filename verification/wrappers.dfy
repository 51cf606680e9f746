/** The optional-value and success-or-error wrappers shared by the parsers. */
module Wrappers {

  /** A value that may be absent (a header that was not found). */
  datatype Option<+T> = None | Some(value: T)

  /** The outcome of a parse that can fail with an error of type E. */
  datatype Result<+T, +E> = Success(value: T) | Failure(error: E)
}
