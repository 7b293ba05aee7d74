/** The outcome vocabulary shared by every store operation. */
module Results {

  datatype Option<+T> = None | Some(value: T)

  /** The failures a request can end in. `IntegrityError` is the database's
      own unique-index violation, which the views do not catch. */
  datatype Error =
    | ValidationFailed
    | DuplicateTitle
    | MissingIdentifier
    | NotFound
    | InvalidInput
    | UpstreamUnavailable
    | IntegrityError

  datatype Outcome<+T> = Ok(value: T) | Err(error: Error)
}
