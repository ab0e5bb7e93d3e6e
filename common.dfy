/** Failure-carrying values shared by every service.

    The Java services signal failure by throwing NotFoundException,
    BadRequestException or ConflictException; the model returns the
    corresponding `Error` inside a `Result` instead. */
module Common {

  /** A possibly-absent value: `None` stands for Java's `null`. */
  datatype Option<T> = None | Some(value: T)

  /** The three business exceptions the services throw. */
  datatype Error = NotFound | BadRequest | Conflict

  datatype Result<T> = Ok(value: T) | Err(error: Error)
}
