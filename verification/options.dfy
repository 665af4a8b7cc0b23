/** The two outcome shapes the model uses for Python code that either returns
    a value or raises. */
module Options {

  /** A value that may be absent. */
  datatype Option<T> = None | Some(value: T)

  /** Either a value or the exception the Python code raises instead. */
  datatype Result<T, E> = Ok(value: T) | Err(error: E)
}
