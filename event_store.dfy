/** The two tables behind the controllers and the three controllers that
    change them: createEvent, registerForEvent and cancelRegistration
    (controllers/eventControllers.js, lines 3-38 and 62-110). Requests are
    handled one at a time. */
module EventService {
  import opened JsValues
  import opened Domain
  import opened Tables
  import opened Validation
  import opened Registrations

  class EventStore {
    /** The `events` table, keyed by id. */
    var events: map<EventId, Event>
    /** The `registrations` table, in storage order. */
    var registrations: seq<Registration>
    /** The next id the table's generator hands out. */
    var nextId: EventId

    ghost predicate Valid()
      reads this
    {
      && Consistent(events, registrations)
      && 1 <= nextId
      && forall id :: id in events ==> id < nextId
    }

    constructor ()
      ensures Valid()
      ensures events == map[] && registrations == []
    {
      events := map[];
      registrations := [];
      nextId := 1;
    }

    /** `POST /events`: the field checks in order, then one INSERT under a
        fresh id. */
    method CreateEvent(req: CreateRequest, parsed: Option<int>, now: int) returns (r: Result<EventId>)
      requires Valid()
      modifies this
      ensures Valid()
      ensures registrations == old(registrations)
      ensures ValidateEvent(req, parsed, now).Err? ==>
                r == Err(ValidateEvent(req, parsed, now).error) && events == old(events) && nextId == old(nextId)
      ensures ValidateEvent(req, parsed, now).Ok? ==>
                && r.Ok? && r.value !in old(events)
                && events == old(events)[r.value := ValidateEvent(req, parsed, now).value]
    {
      var validated := ValidateEvent(req, parsed, now);
      if validated.Err? {
        return Err(validated.error);
      }
      var id := nextId;
      var ev := validated.value;
      assert forall u :: Registration(u, id) !in registrations;
      events := events[id := ev];
      nextId := nextId + 1;
      r := Ok(id);
    }

    /** `POST /events/:id/register`: four guards, the capacity check, then
        one INSERT. */
    method RegisterForEvent(eventId: EventId, userId: Value, now: int) returns (r: Outcome)
      requires Valid()
      modifies this
      ensures Valid()
      ensures events == old(events) && nextId == old(nextId)
      ensures r == RegisterVerdict(old(events), old(registrations), eventId, userId, now)
      ensures registrations == if r.Pass? then old(registrations) + [Registration(userId.n, eventId)]
                               else old(registrations)
    {
      var verdict := RegisterVerdict(events, registrations, eventId, userId, now);
      if verdict.Fail? {
        return verdict;
      }
      RegisterKeepsConsistent(events, registrations, eventId, userId, now);
      registrations := registrations + [Registration(userId.n, eventId)];
      r := Pass;
    }

    /** `DELETE /events/:id/register/:userId`: look the pair up, then DELETE
        it. */
    method CancelRegistration(eventId: EventId, userId: UserId) returns (r: Outcome)
      requires Valid()
      modifies this
      ensures Valid()
      ensures events == old(events) && nextId == old(nextId)
      ensures r == if Registration(userId, eventId) in old(registrations) then Pass else Fail(NotRegistered)
      ensures r.Fail? ==> registrations == old(registrations)
      ensures r.Pass? ==> && registrations == Without(old(registrations), Registration(userId, eventId))
                          && |registrations| == |old(registrations)| - 1
    {
      var pair := Registration(userId, eventId);
      if pair !in registrations {
        return Fail(NotRegistered);
      }
      CancelKeepsConsistent(events, registrations, pair);
      WithoutRemovesOne(registrations, pair);
      registrations := Without(registrations, pair);
      r := Pass;
    }
  }
}
