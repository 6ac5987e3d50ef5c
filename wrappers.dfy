/** Option and Result, the shapes of Rust's `Option<T>` (used by the
    `?`-chained closures of the prefix-and-parse fallbacks) and of the
    `Result<T, E>` every codec returns. */
module Wrappers {

  datatype Option<+T> = None | Some(value: T)

  datatype Result<+T, +E> = Ok(value: T) | Err(error: E)
}
