/** Values shared by every service: optional values, the service exceptions and
    results that either carry a value or one of those exceptions. */
module Common {

  datatype Option<+T> = None | Some(value: T)

  /** The exceptions the services throw (NotFoundException, ForbiddenException,
      ConflictException, BookingException). */
  datatype Error = NotFound | Forbidden | Conflict | BookingError

  /** The outcome of a service call: a value, or the exception it throws. */
  datatype Result<+T> = Ok(value: T) | Err(error: Error)

  /** Timestamps (LocalDateTime values) as points on an integer time line. */
  type Time = int
}
