/** Failure-carrying datatypes: a missing value (pandas NaN, Python None) and the
    outcome of an operation that can raise. */
module Wrappers {

  /** A value that may be missing. */
  datatype Option<+T> = None | Some(value: T)

  /** The outcome of an operation that either returns a value or raises an error. */
  datatype Result<+T, +E> = Success(value: T) | Failure(error: E)

  /** The Python exceptions the string helpers raise: a `ValueError` from
      `float()` and an `IndexError` from indexing past the end of a list.
      `is_price` and `size_string_to_bytes` share this one type. */
  datatype PyError = ValueError | IndexError
}
