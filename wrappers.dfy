/** Failure-carrying values shared by every module of the model. */
module Wrappers {

  /** Rust's `Option<T>`. */
  datatype Option<+T> = None | Some(value: T)

  /** Rust's `Result<T, E>`: the recoverable error path. */
  datatype Result<+T, +E> = Ok(value: T) | Err(error: E)

  /** What a call does when it may panic (an `unwrap` or `expect` on a failure, an `assert!`, a slice index
      out of range): it either returns normally with a value or aborts with a panic message. */
  datatype Exec<+T> = Done(value: T) | Panic(message: string)
}
