/** Small failure-carrying datatypes shared by the model. */
module Results {

  /** A value that may be absent; `None` stands for Java's `null`. */
  datatype Option<+T> = None | Some(value: T)

  /** The outcome of a step that can fail; `Failure` stands for a failed
      defensive `assert` in the job (assertions are taken to be enabled). */
  datatype Result<+T, +E> = Success(value: T) | Failure(error: E)
}
