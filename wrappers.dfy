/** Optional values and results with a failure case, shared by the other modules. */
module Wrappers {

  /** A value that may be absent: a JSON field that was left out, or JavaScript's `null`. */
  datatype Option<+T> = None | Some(value: T)

  /** The outcome of a step that can throw. */
  datatype Result<+T> = Ok(value: T) | Err
}
