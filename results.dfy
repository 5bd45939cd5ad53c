/** Failure-compatible wrappers used by the model: Rust's `Option` and the
    error path of operations that panic in the source. */
module Results {

  datatype Option<T> = None | Some(value: T)

  datatype Result<T, E> = Success(value: T) | Failure(error: E)
}
