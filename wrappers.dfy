/** The optional-value datatype shared by the server and the pool models. */
module Wrappers {

  /** Rust's `Option<T>`: `None` or `Some(value)`. */
  datatype Option<+T> = None | Some(value: T)
}
