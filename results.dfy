/** Optional values and results carrying an error, used where the program
    either returns a value or reports (and recovers from) a failure. */
module Results {

  datatype Option<+T> = None | Some(value: T)

  datatype Result<+T, +E> = Ok(value: T) | Err(error: E)
}
