/** Option and Result values for lookups that may find nothing and for
    operations that report an error instead of a value. */
module Wrappers {

  datatype Option<+T> = None | Some(value: T)

  /** A storage or validation outcome: a value, or the error text the
      system reports. */
  datatype Result<+T> = Ok(value: T) | Err(message: string)

  /** The outcome of a statement that returns no value. */
  datatype Outcome = Success | Failure(message: string)
}
