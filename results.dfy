/** Option and Result values standing in for Python's `None` and for raised exceptions. */
module Results {

  datatype Option<+T> = None | Some(value: T)

  /** `Ok(value)` is a normal return; `Err(error)` is an exception the source raises. */
  datatype Result<+T, +E> = Ok(value: T) | Err(error: E)

  /** A step that returns nothing on success (a Python procedure returning `None`). */
  datatype Outcome<+E> = Pass | Fail(error: E)
}
