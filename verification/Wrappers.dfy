/** The two carriers of failure used throughout the model. */
module Wrappers {

  datatype Option<+T> = None | Some(value: T)

  /** A Rust `Result` whose error is the message the loader logs. */
  datatype Result<+T> = Ok(value: T) | Err(message: string)
}
