/** The two failure-carrying return types of the Rust source. */
module Outcomes {

  /** `Option<T>`. */
  datatype Option<+T> = None | Some(value: T)

  /** `Result<T, E>`. */
  datatype Result<+T, +E> = Ok(value: T) | Err(error: E)
}
