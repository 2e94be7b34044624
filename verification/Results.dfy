/** The two shapes in which Kargo's functions report absence and failure:
    a nil pointer becomes an Option, an (value, error) pair becomes a Result. */
module Results {

  datatype Option<+T> = None | Some(value: T)

  datatype Result<+T, +E> = Success(value: T) | Failure(error: E)
}
