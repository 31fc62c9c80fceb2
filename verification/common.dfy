/** Small vocabulary shared by every part of the model. */
module Common {

  /** A value that may be absent: a C# `null`, a search that found nothing. */
  datatype Option<+T> = None | Some(value: T)

  /** A computation that either yields a value or fails with a reason. */
  datatype Result<+T, +E> = Success(value: T) | Failure(error: E)

  /** The outcome of a blocking call into code outside the model (an HTTP
      round trip to the timesheet site): it either returns a boolean or
      raises an exception that the caller may or may not catch. */
  datatype Remote = Returned(ok: bool) | Raised
}
