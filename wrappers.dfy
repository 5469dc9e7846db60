/** Optional values and error results shared by the other modules. */
module Wrappers {

  /** A value that may be absent. In the running averages, `None` stands for Java's NaN. */
  datatype Option<+T> = None | Some(value: T)

  /** The outcome of an operation that can fail in the source (an exception). */
  datatype Result<+T, +E> = Ok(value: T) | Err(error: E)
}
