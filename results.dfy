/** Option and Result values: a missing value, and a computation that either
    succeeds or aborts with a message. */
module Results {

  datatype Option<+T> = None | Some(value: T)

  datatype Result<+T> = Success(value: T) | Failure(error: string)
}
