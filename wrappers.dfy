/** Option and Result, the shapes of Rust's `Option<T>` and `anyhow::Result<T>`.
    An `anyhow` error is modelled by its message. */
module Wrappers {

  datatype Option<+T> = None | Some(value: T)

  datatype Result<+T> = Ok(value: T) | Err(error: string)
}
