/** Failure-carrying values shared by every module of the model.
    A Python exception is modelled as a `PyError`; a call that may raise
    returns a `Result`. */
module Results {

  /** Python's `None` or a present value. */
  datatype Option<+T> = None | Some(value: T)

  /** The exception classes the modelled code can raise. Only the distinction
      between `ValueError` and everything else is observable at the HTTP layer. */
  datatype PyError =
    | ValueError      // duplicate or missing LSH key, wrong signature length, bad JSON, zero range step
    | IndexError      // `pair.split('|')[1]` on a key without a separator
    | TypeError       // `None not in pair`
    | AttributeError  // `None.lower()`, `.get` on a JSON value that is not an object
    | OSError         // stop-word list requested for a language the corpus does not have

  /** The value returned by a Python call, or the exception it raised. */
  datatype Result<+T> = Success(value: T) | Failure(error: PyError)
}
