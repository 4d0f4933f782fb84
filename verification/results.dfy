/** Failure-carrying values shared by every module of the model: an optional
    value (Python's `None` or a value) and a result that is either a value or
    the exception the Python code would raise. */
module Results {

  datatype Option<+T> = None | Some(value: T)

  datatype Result<+T, +E> = Success(value: T) | Failure(error: E)
}
