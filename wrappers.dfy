/** Failure-carrying values used in place of Go's `(value, error)` pairs. */
module Wrappers {

  datatype Option<+T> = None | Some(value: T)

  /** The outcome of a call into the metrics library: a value, or an error whose
      contents the monitor never inspects. */
  datatype Result<+T> = Ok(value: T) | Err
}
