/** The outcome of a fallible operation, after the standard `Result` of the
    program's language: either a value or an error. */
module Results {

  datatype Result<+T, +E> = Ok(value: T) | Err(error: E)
}
