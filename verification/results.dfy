/** Outcome types shared by the codec and the statement compiler. */
module Results {

  /** A value that may be absent; `None` stands for C#'s `null`. */
  datatype Option<+T> = None | Some(value: T)

  /** The value of an operation, or the error it reports instead of throwing. */
  datatype Result<+T, +E> = Success(value: T) | Failure(error: E)
}
