/** Optional values and results that stand in for C# nulls and thrown exceptions. */
module Wrappers {

  /** A value that may be absent: `None` models a C# `null`. */
  datatype Option<+T> = None | Some(value: T)

  /** The outcome of a call that either returns a value or throws. */
  datatype Result<+T, +E> = Ok(value: T) | Err(error: E)
}
