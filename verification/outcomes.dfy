/** Error kinds and result wrappers shared by both student stores.
    The services signal failures by raising HTTP errors; the model returns them as values. */
module Outcomes {

  /** The domain errors the two services raise: an absent key (404), a duplicate
      key on creation (400), and a path id that differs from the body id (400). */
  datatype Error = NotFound | Conflict | IdMismatch

  datatype Result<T> = Ok(value: T) | Err(error: Error)

  /** What one operation on a store produces: the reply sent to the caller and
      the store as it is afterwards. */
  datatype Step<T, S> = Step(reply: Result<T>, after: S)
}
