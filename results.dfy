/** Failure-carrying values: the model's stand-in for JavaScript's `undefined`
    and for exceptions that escape an async function. */
module Results {

  datatype Option<+T> = None | Some(value: T)

  datatype Result<+T, +E> = Success(value: T) | Failure(error: E)
}
