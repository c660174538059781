/** Option and Result, the two failure-compatible wrappers the model uses for
    pandas' missing values (NaN / NaT) and for raised exceptions. */
module Wrappers {

  /** A value that may be missing: `None` stands for NaN, NaT or None. */
  datatype Option<+T> = None | Some(value: T)

  /** The outcome of an operation that may raise. */
  datatype Result<+T, +E> = Ok(value: T) | Err(error: E)
}
