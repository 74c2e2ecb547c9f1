/** Failure-compatible wrappers and small helpers shared by the other modules. */
module Wrappers {

  /** Python's `None` or a value. */
  datatype Option<+T> = None | Some(value: T)

  /** A value, or the exception that the Python code would raise instead. */
  datatype Result<+R, +E> = Ok(value: R) | Err(error: E)

  /** Python's `min` on two integers. */
  function Min(a: int, b: int): int { if a <= b then a else b }
}
