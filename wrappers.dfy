/** Failure-carrying return types shared by the model: the source's std::optional and
    tl::expected / Rust Result. */
module Wrappers {
  datatype Option<+T> = None | Some(value: T)

  datatype Result<+T, +E> = Ok(value: T) | Err(error: E)
}
