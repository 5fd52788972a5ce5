/** Optional values and results shared by the whole model. */
module Common {

  /** An optional value; `None` stands for Java's `null` return. */
  datatype Option<+T> = None | Some(value: T)

  /** A value or an error; `Err` stands for an exception thrown before any state change. */
  datatype Result<+T, +E> = Ok(value: T) | Err(error: E)
}
