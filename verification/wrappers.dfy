/** Failure-compatible wrappers shared by every module of the model. */
module Wrappers {

  /** A value that may be absent: Python's `None`, a JavaScript `null`, a regex search that found nothing. */
  datatype Option<+T> = None | Some(value: T)

  /** The outcome of an operation that can abort, such as a `KeyError` raised while reading a CSV row. */
  datatype Result<+T, +E> = Success(value: T) | Failure(error: E)
}
