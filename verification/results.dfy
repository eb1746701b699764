/** Failure-carrying results shared by both puzzle cores. The Python scripts
    signal failure by raising (KeyError, IndexError, RecursionError, ...) or by
    returning None; the model returns one of these values instead. */
module Results {

  /** Either a value or the reason the computation stopped. */
  datatype Result<+T, +E> = Ok(value: T) | Err(error: E)

  /** A value that may be absent (Python's `None`). */
  datatype Option<+T> = None | Some(value: T)
}
