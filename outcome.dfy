/** Results of operations that may throw, and optional values. */
module Outcome {

  /** The error path of operations that throw in the source. */
  datatype Result<T> = Ok(value: T) | Error(message: string)

  datatype Option<T> = None | Some(value: T)
}
