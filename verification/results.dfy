/** Optional values and success-or-error values, standing for Python's
    `None` returns and for `sys.exit` paths. */
module Results {

  datatype Option<+T> = None | Some(value: T)

  datatype Result<+T, +E> = Success(value: T) | Failure(error: E)
}
