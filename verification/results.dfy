/** Success/failure carriers shared by the code generator and the code store.
    Go's `(value, error)` pairs become `Result`, a bare `error` return becomes
    `Outcome`, and an optional value becomes `Option`. */
module Results {

  datatype Option<+T> = None | Some(value: T)

  datatype Result<+T, +E> = Ok(value: T) | Err(error: E)

  /** A Go function that returns only an `error`: `Pass` is a nil error. */
  datatype Outcome<+E> = Pass | Fail(error: E)
}
