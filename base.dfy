/**
 * Shared vocabulary: optional values, results, identifiers, time.
 *
 * Time is an integer count of milliseconds since the epoch; every service
 * call receives the current time as an explicit parameter.
 */
module Base {

  datatype Option<+T> = None | Some(value: T)

  datatype Result<+T, +E> = Success(value: T) | Failure(error: E)

  type UserId = string
  type SessionId = string

  /** Milliseconds since the epoch. */
  type Time = int

  const MinuteMs: int := 60000
  const DayMs: int := 86400000
}
