/** Failure-compatible wrappers used throughout the model: an optional value
    (Python's `None` or a value) and the result of a step that may raise. */
module Wrappers {

  /** A value that may be absent; `None` stands for Python's `None` and for
      pandas' missing value alike. */
  datatype Option<+T> = None | Some(value: T)

  /** The outcome of a step that either yields a value or raises. */
  datatype Result<+R, +E> = Success(value: R) | Failure(error: E) {

    predicate IsFailure() {
      Failure?
    }

    function PropagateFailure<U>(): Result<U, E>
      requires Failure?
    {
      Failure(error)
    }

    function Extract(): R
      requires Success?
    {
      value
    }
  }
}

/** The exceptions the report pipeline can raise, named after the step that
    raises them. */
module Errors {

  datatype Error =
    /** A truthy GPS latitude or longitude that is not a degrees/minutes/seconds
        triple: unpacking it into `d, m, s` raises. */
    | MalformedCoordinate(tag: string)
      /** An image whose metadata slot still holds the `None` placeholder when
          the rows are flattened: subscripting `None` raises. */
    | MissingMetadata(image: string)
      /** A column looked up in the table that the table does not have. */
    | MissingColumn(column: string)
}
