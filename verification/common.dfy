/** Small failure-carrying datatypes shared by every other module. */
module Common {

  /** A value that may be absent, like Rust's `Option`. */
  datatype Option<+T> = None | Some(value: T)

  /** The outcome of an operation that can fail with a message, like Rust's `Result`. */
  datatype Result<+T> = Ok(value: T) | Err(message: string)
}
