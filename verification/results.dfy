/** Failure-carrying wrappers used throughout the model: `Option` stands for a
    value that may be `null`/`undefined`, `Result` for a computation that either
    resolves with a value or rejects with an error. */
module Results {

  datatype Option<+T> = None | Some(value: T)

  datatype Result<+T, +E> = Success(value: T) | Failure(error: E)
}
