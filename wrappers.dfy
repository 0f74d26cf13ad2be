/** Result wrappers and the byte type used throughout the model. */
module Wrappers {

  datatype Option<+T> = None | Some(value: T)

  /** The outcome of code that may `panic!`: Rust aborts the thread, the model
      returns `Panic` with the message. */
  datatype Outcome<+T> = Done(value: T) | Panic(msg: string)

  /** Rust's `Result<T, E>`. */
  datatype Result<+T, +E> = Ok(value: T) | Err(error: E)

  newtype byte = b: int | 0 <= b < 256
}
