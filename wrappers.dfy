/** Failure-carrying datatypes shared by every module of the model. */
module Wrappers {

  /** A value that may be missing (Python's `None`). */
  datatype Option<+T> = None | Some(value: T)

  /** The outcome of a Python call that may raise: the value it returned, or
      the text of the exception it raised (`str(e)`). */
  datatype Result<+T> = Ok(value: T) | Err(error: string)
}
