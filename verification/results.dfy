/** Failure-carrying values used throughout the model: Go's `(value, error)`
    pairs and nil-able pointers become `Result` and `Option`. */
module Results {

  /** A nil-able value: `None` stands for Go's `nil`. */
  datatype Option<+T> = None | Some(value: T)

  /** A Go `(value, error)` pair where exactly one side is meaningful. */
  datatype Result<+T, +E> = Success(value: T) | Failure(error: E)
}
