// Optional values and results, used where the source has a regular
// expression that may not match (`String.prototype.match` returns null) or a
// conversion that may throw.
module Outcomes {

  datatype Option<T> = None | Some(value: T)

  datatype Result<T, E> = Ok(value: T) | Err(error: E)
}
