/** Optional values and results with an error, as used throughout the model. */
module Results {

  /** An optional value: `None` stands for Python's `None`. */
  datatype Option<T> = None | Some(value: T)

  /** A value or the exception that was raised instead of returning it. */
  datatype Result<T, E> = Ok(value: T) | Err(error: E)

  /** Python truthiness of an optional string: both `None` and `""` are false. */
  predicate Present(s: Option<string>)
  {
    s.Some? && s.value != ""
  }
}
