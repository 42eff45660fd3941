/** Failure-carrying datatypes shared by the whole model, and the error kinds
    that the table, its indexes and its constraint checks report. */
module Wrappers {

  datatype Option<+T> = None | Some(value: T)

  datatype Result<+R, +E> = Success(value: R) | Failure(error: E)

  /** The error kinds a caller of the table can tell apart. */
  datatype Error =
    | DocumentNotFound      // point lookup, Delete or Replace on an absent key
    | DuplicateDocument     // Insert of a key that is already stored
    | DuplicateValue        // a unique index already holds the value for another document
    | IndexEntryNotFound    // an index has no entry to remove
    | IndexAlreadyExists    // an index with that name or on that path already exists
    | NotNullViolation      // a not-null path is missing or Null
    | IncompatibleType      // a value cannot be converted to the declared type
    | PrimaryKeyNotFound    // the primary-key path is missing or its key is empty
}
