module Results {
  datatype Option<+T> = None | Some(value: T)

  /** Failure stands for the exceptions and failed assertions of the sources. */
  datatype Result<+T> = Success(value: T) | Failure
}
