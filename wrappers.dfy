/** The `Option` and `Result` value wrappers shared by the modules of this model. */
module Wrappers {

  /** An optional value: the model of "a bool result plus an out-parameter
      that is only written when the result is true". */
  datatype Option<+T> = None | Some(value: T)

  /** A value or an error: the model of a call that may throw. */
  datatype Result<+T, +E> = Success(value: T) | Failure(error: E)
}
