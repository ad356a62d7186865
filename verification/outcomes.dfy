/** Failure-compatible results and the error kinds the blog services raise. */
module Outcomes {

  /** A value that may be absent; stands for a nullable Java reference. */
  datatype Option<+T> = None | Some(value: T)

  /** The value an error reports for the lookup that failed: a numeric id or a text key. */
  datatype Key = IdKey(id: int) | TextKey(text: string)

  /** The error kinds of the core. */
  datatype Error =
    /** ResourceNotFoundException(resource, field, value) */
    | NotFound(resource: string, field: string, value: Key)
    /** DuplicateResourceException(resource, field, value) */
    | DuplicateResource(resource: string, field: string, value: Key)
    /** A write the relational store itself refuses (a unique or foreign-key constraint). */
    | ConstraintViolation(table: string, column: string, value: Key)
    /** A page index below zero or a page size below one, refused by the paging request. */
    | InvalidPageRequest(page: int, size: int)

  /** Either a value or the error that aborted the operation. */
  datatype Result<+T> = Ok(value: T) | Err(error: Error) {

    predicate IsFailure() {
      Err?
    }

    function PropagateFailure<U>(): Result<U>
      requires Err?
    {
      Err(error)
    }

    function Extract(): T
      requires Ok?
    {
      value
    }
  }
}
