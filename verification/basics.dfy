/** Small shared vocabulary: optional values, operation outcomes and absolute value. */
module Basics {

  /** A value that may be missing (Python's `None`). */
  datatype Option<+T> = None | Some(value: T)

  /** The outcome of an operation that either succeeds with a receipt or is rejected with an error. */
  datatype Result<+T, +E> = Ok(value: T) | Err(error: E)

  function Abs(x: int): (r: nat)
    ensures r == x || r == -x
  {
    if x < 0 then -x else x
  }
}
