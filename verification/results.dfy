/** Optional values and results with an error, for the scripts' `None`
    arguments and their early exits. */
module Results {

  datatype Option<+T> = None | Some(value: T)

  datatype Result<+T, +E> = Ok(value: T) | Err(error: E)
}
