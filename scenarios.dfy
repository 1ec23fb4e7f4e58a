/** A client of the service: a capacity-2 event filled, refused, freed and
    filled again, as one sequence of requests. */
module Scenarios {
  import opened JsValues
  import opened Domain
  import opened Validation
  import opened EventService

  /** Outcomes, in order: register user 1, register user 2, register user 3
      (full), register user 2 again (the duplicate guard comes before the
      capacity guard), cancel user 1, register user 3. */
  method LaunchScenario(now: int) returns (created: Result<EventId>, outcomes: seq<Outcome>)
    ensures created.Ok?
    ensures outcomes == [Pass, Pass, Fail(EventFull), Fail(AlreadyRegistered), Pass, Pass]
  {
    var store := new EventStore();
    var day := 24 * 60 * 60 * 1000;
    var req := CreateRequest(Text("Launch"), Text("2026-10-15T10:00:00"), Text("HQ"), Number(2));
    // the datetime parses to one day after now
    created := store.CreateEvent(req, Some(now + day), now);
    var id := created.value;
    var r1 := store.RegisterForEvent(id, Number(1), now);
    var r2 := store.RegisterForEvent(id, Number(2), now);
    var r3 := store.RegisterForEvent(id, Number(3), now);
    var r4 := store.RegisterForEvent(id, Number(2), now);
    var c1 := store.CancelRegistration(id, 1);
    var r5 := store.RegisterForEvent(id, Number(3), now);
    outcomes := [r1, r2, r3, r4, c1, r5];
  }
}
