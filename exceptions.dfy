/**
 * The failures an operation of the student service can end in: the two
 * domain exceptions and the storage-level constraint violation.
 */
module Exceptions {
  import opened Wrappers

  datatype Kind =
    | ResourceNotFound        // ResourceNotFoundException
    | UserAlreadyExists       // UserAlreadyExistsException
    | DataIntegrityViolation  // a `nullable = false` column left null on save

  /** A thrown exception: its class and what `getMessage()` returns. */
  datatype Failure = Failure(kind: Kind, message: Option<string>)
}
