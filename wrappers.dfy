/** Failure-carrying return values shared by every module of the model. */
module Wrappers {

  datatype Option<+T> = None | Some(value: T)

  /** The result of an operation that either produces a value or fails with
      the error the editor or converter throws (or returns) at that point. */
  datatype Result<+T, +E> = Ok(value: T) | Err(error: E)
}
