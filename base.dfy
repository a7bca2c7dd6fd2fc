/** Shared value wrappers: optional JSON fields and the handlers' HTTP replies. */
module Base {

  /** A JSON field that may be missing or null. */
  datatype Option<+T> = None | Some(value: T)

  /** What an endpoint sends back: a 200 body, or an error status with its `error` message. */
  datatype Reply<+T> = Ok(body: T) | Error(status: int, message: string)
}
