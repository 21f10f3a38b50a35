/** Option and Result, the two failure-carrying types the Rust code returns. */
module Wrappers {

  datatype Option<+T> = None | Some(value: T)

  datatype Result<+T, +E> = Ok(value: T) | Err(error: E)

  /** The unit value `()` of Rust, for `Result<(), E>`. */
  datatype Unit = Unit
}
