/** Failure-carrying values used in place of the scripts' `assert` aborts. */
module Results {

  datatype Option<+T> = None | Some(value: T)

  /** `Failure` stands for an `AssertionError` that ends the script, with
      assertions enabled. */
  datatype Result<+R, +E> = Success(value: R) | Failure(error: E)
}
