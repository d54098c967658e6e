/** Option and Result values used throughout the model. */
module Wrappers {

  /** A value that may be absent (a JavaScript property that is `undefined`). */
  datatype Option<+T> = None | Some(value: T)

  /** The outcome of a computation that can fail; `Err` stands for a thrown TypeError. */
  datatype Result<+T> = Ok(value: T) | Err(error: string)
}
