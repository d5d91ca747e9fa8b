/** Optional values and success-or-error results, used where the Python code
    reads a possibly missing dictionary key or raises an exception. */
module Results {

  datatype Option<+T> = None | Some(value: T)

  datatype Result<+T, +E> = Ok(value: T) | Err(error: E)
}
