/** Failure-carrying wrappers used throughout the model. */
module Results {

  /** An optional value; `None` stands for "absent" or "did not parse". */
  datatype Option<+T> = None | Some(value: T)

  /** Either a value or the error that stopped the computation
      (an exception propagating out of the job, in the source). */
  datatype Result<+T, +E> = Success(value: T) | Failure(error: E)
}
