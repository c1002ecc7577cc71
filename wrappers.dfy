/** Result types shared by every module of the model. */
module Wrappers {

  datatype Option<+T> = None | Some(value: T)

  /** The value of a computation that may fail with an error of type E. */
  datatype Result<+R, +E> = Ok(value: R) | Err(error: E)

  /** The outcome of a step that changes state and may fail. */
  datatype Outcome<+E> = Pass | Fail(error: E)
}
