/** The entities of the event-registration service and its error kinds. */
module Domain {

  type EventId = int
  type UserId = int

  /** A row of the `events` table without its id. `datetime` is a timestamp
      in milliseconds. */
  datatype Event = Event(title: string, datetime: int, location: string, capacity: int)

  /** A row of the `events` table together with its id. */
  datatype EventRow = EventRow(id: EventId, event: Event)

  /** A row of the `registrations` table. */
  datatype Registration = Registration(user: UserId, event: EventId)

  /** The failures the controllers report, one per early return. */
  datatype ErrorKind =
    | InvalidTitle
    | InvalidDateTime
    | InvalidLocation
    | InvalidCapacity
    | InvalidUserId
    | EventNotFound
    | EventInPast
    | AlreadyRegistered
    | EventFull
    | NotRegistered

  datatype Option<T> = None | Some(value: T)

  datatype Result<T> = Ok(value: T) | Err(error: ErrorKind)

  datatype Outcome = Pass | Fail(error: ErrorKind)
}
