/** Absent links and calls that fail. */
module Wrappers {

  /** A link that may be absent: a null `Node*`. */
  datatype Option<+T> = None | Some(value: T)

  /** The outcome of a call that may throw instead of returning. */
  datatype Result<+T, +E> = Ok(value: T) | Err(error: E)
}
