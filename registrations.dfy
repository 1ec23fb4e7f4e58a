/** The guard chain of `POST /events/:id/register`
    (controllers/eventControllers.js, lines 66-88) as a function of the two
    tables, and what it guarantees about them. */
module Registrations {
  import opened JsValues
  import opened Domain
  import opened Tables
  import opened Validation

  /** The outcome of a registration request: the first failing guard, in the
      source's order (userId shape, event exists, event not past, not already
      registered, not full), or Pass when the row may be inserted. */
  function RegisterVerdict(events: map<EventId, Event>, rows: seq<Registration>,
                           eventId: EventId, userId: Value, now: int): (r: Outcome)
    ensures !(userId.Number? && userId.n != 0) ==> r == Fail(InvalidUserId)
    ensures userId.Number? && userId.n != 0 && eventId !in events ==> r == Fail(EventNotFound)
    ensures userId.Number? && userId.n != 0 && eventId in events
            && events[eventId].datetime < now
            ==> r == Fail(EventInPast)
    ensures userId.Number? && userId.n != 0 && eventId in events
            && now <= events[eventId].datetime && Registration(userId.n, eventId) in rows
            ==> r == Fail(AlreadyRegistered)
    ensures userId.Number? && userId.n != 0 && eventId in events
            && now <= events[eventId].datetime && Registration(userId.n, eventId) !in rows
            && |UsersOf(rows, eventId)| >= events[eventId].capacity
            ==> r == Fail(EventFull)
    ensures r == Pass <==>
              && userId.Number? && userId.n != 0 && eventId in events
              && now <= events[eventId].datetime
              && Registration(userId.n, eventId) !in rows
              && |UsersOf(rows, eventId)| < events[eventId].capacity
  {
    if !UserIdOk(userId) then Fail(InvalidUserId)
    else if eventId !in events then Fail(EventNotFound)
    else if events[eventId].datetime < now then Fail(EventInPast)
    else if Registration(userId.n, eventId) in rows then Fail(AlreadyRegistered)
    else if CountFor(rows, eventId) >= events[eventId].capacity then Fail(EventFull)
    else Pass
  }

  /** Inserting the pair that the guards let through keeps both tables
      consistent: in particular no duplicate pair (`Distinct`) and no event
      over its capacity (`WithinCapacity`). */
  lemma RegisterKeepsConsistent(events: map<EventId, Event>, rows: seq<Registration>,
                                eventId: EventId, userId: Value, now: int)
    requires Consistent(events, rows)
    requires RegisterVerdict(events, rows, eventId, userId, now) == Pass
    ensures Consistent(events, rows + [Registration(userId.n, eventId)])
  {
    var p := Registration(userId.n, eventId);
    DistinctAppend(rows, p);
    forall e | e in events ensures CountFor(rows + [p], e) <= events[e].capacity {
      CountAppend(rows, p, e);
    }
  }

  /** Registering the same pair a second time is a conflict. */
  lemma SecondRegistrationConflicts(events: map<EventId, Event>, rows: seq<Registration>,
                                    eventId: EventId, userId: Value, now: int)
    requires RegisterVerdict(events, rows, eventId, userId, now) == Pass
    ensures RegisterVerdict(events, rows + [Registration(userId.n, eventId)], eventId, userId, now)
         == Fail(AlreadyRegistered)
  {
  }

  /** Once an event holds as many registrations as its capacity, every further
      request that reaches the capacity guard is refused as full. */
  lemma FullEventRefusesNewcomers(events: map<EventId, Event>, rows: seq<Registration>,
                                  eventId: EventId, user: UserId, now: int)
    requires eventId in events && CountFor(rows, eventId) == events[eventId].capacity
    requires user != 0 && now <= events[eventId].datetime
    requires Registration(user, eventId) !in rows
    ensures RegisterVerdict(events, rows, eventId, Number(user), now) == Fail(EventFull)
  {
  }

  /** Cancelling keeps both tables consistent. */
  lemma CancelKeepsConsistent(events: map<EventId, Event>, rows: seq<Registration>, p: Registration)
    requires Consistent(events, rows)
    ensures Consistent(events, Without(rows, p))
  {
    DistinctWithout(rows, p);
    forall e | e in events ensures CountFor(Without(rows, p), e) <= events[e].capacity {
      CountWithout(rows, p, e);
    }
  }

  /** Right after a cancellation, the same user can register again for the
      same event unless it has started: the pair is gone and a place is free. */
  lemma ReRegisterAfterCancel(events: map<EventId, Event>, rows: seq<Registration>,
                              eventId: EventId, user: UserId, now: int)
    requires Distinct(rows)
    requires Registration(user, eventId) in rows
    requires user != 0 && eventId in events && now <= events[eventId].datetime
    requires CountFor(rows, eventId) <= events[eventId].capacity
    ensures RegisterVerdict(events, Without(rows, Registration(user, eventId)), eventId, Number(user), now) == Pass
  {
    CountWithout(rows, Registration(user, eventId), eventId);
  }
}
