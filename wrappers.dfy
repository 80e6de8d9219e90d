/** Option and Result, with the HTTP statuses the handlers answer with. */
module Wrappers {

  datatype Option<+T> = None | Some(value: T)

  /** The statuses the acronym API produces: the two success statuses
      (200 for tagging, 204 for deletion) and the three failures. */
  datatype Status = OK | NoContent | BadRequest | Unauthorized | NotFound

  /** A handler's outcome: a value, or the failure status it aborts with. */
  datatype Result<+T> = Success(value: T) | Failure(status: Status)
}
