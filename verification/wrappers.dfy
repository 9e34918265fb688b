/** Option and Result, the failure-carrying values the editor's routines return. */
module Wrappers {

  /** A value that may be absent: the model of a C pointer result that may be NULL. */
  datatype Option<+T> = None | Some(value: T)

  /** Either a successful value or an error. */
  datatype Result<+R, +E> = Success(value: R) | Failure(error: E)
}
