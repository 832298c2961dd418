/** Option and Result values for absent results and raised errors. */
module Wrappers {

  /** A value that may be missing (Python's None). */
  datatype Option<T> = None | Some(value: T)

  /** A computed value, or the error the computation raised instead. */
  datatype Result<T> = Success(value: T) | Failure(error: string)
}
