/** Option and Result, the two failure-carrying outcomes used throughout the model. */
module Wrappers {

  datatype Option<+T> = None | Some(value: T)

  /** A Go `(value, error)` pair: either a value, or a non-nil error. The model does not
      distinguish error messages, so every error is the same `Err`. */
  datatype Result<+T> = Ok(value: T) | Err
}
