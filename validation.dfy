/** The input checks of the create and register controllers
    (controllers/eventControllers.js, lines 6-25 and 66). */
module Validation {
  import opened JsValues
  import opened Domain

  /** The JSON body of `POST /events`. */
  datatype CreateRequest = CreateRequest(title: Value, datetime: Value, location: Value, capacity: Value)

  /** The title check (line 6) and the location check (line 14): passes
      only a string that is not empty. */
  predicate NonEmptyText(v: Value) ensures NonEmptyText(v) <==> v.Text? && v.s != []
  {
    Truthy(v) && TypeOf(v) == TString
  }

  /** The datetime check (line 10): passes only a field that is present and
      not falsy, that parses, and that lies strictly after `now`. `parsed` is
      the timestamp the field parses to, None when it does not parse. */
  predicate DateTimeOk(datetime: Value, parsed: Option<int>, now: int)
    ensures DateTimeOk(datetime, parsed, now) <==>
              && datetime !in {Undefined, Null, Bool(false), Number(0), Text([])}
              && parsed.Some? && now < parsed.value
  {
    Truthy(datetime) && parsed.Some? && !(parsed.value <= now)
  }

  /** The capacity check (lines 18-23): passes exactly the numbers 1 to
      1000. */
  predicate CapacityOk(capacity: Value)
    ensures CapacityOk(capacity) <==> capacity.Number? && 1 <= capacity.n <= 1000
  {
    !(capacity == Undefined || TypeOf(capacity) != TNumber || capacity.n <= 0 || capacity.n > 1000)
  }

  /** The userId check of registration (line 66): passes any number but 0. */
  predicate UserIdOk(userId: Value) ensures UserIdOk(userId) <==> userId.Number? && userId.n != 0
  {
    Truthy(userId) && TypeOf(userId) == TNumber
  }

  /** The creation checks in the source's order; the first that fails names
      the error. On success, the event that the INSERT stores. */
  function ValidateEvent(req: CreateRequest, parsed: Option<int>, now: int): (r: Result<Event>)
    ensures
      var titleOk := req.title.Text? && req.title.s != [];
      var timeOk := req.datetime !in {Undefined, Null, Bool(false), Number(0), Text([])}
                    && parsed.Some? && parsed.value > now;
      var locationOk := req.location.Text? && req.location.s != [];
      var capacityOk := req.capacity.Number? && 1 <= req.capacity.n <= 1000;
      && (!titleOk ==> r == Err(InvalidTitle))
      && (titleOk && !timeOk ==> r == Err(InvalidDateTime))
      && (titleOk && timeOk && !locationOk ==> r == Err(InvalidLocation))
      && (titleOk && timeOk && locationOk && !capacityOk ==> r == Err(InvalidCapacity))
      && (r.Ok? <==> titleOk && timeOk && locationOk && capacityOk)
    ensures r.Ok? ==> r.value == Event(req.title.s, parsed.value, req.location.s, req.capacity.n)
  {
    if !NonEmptyText(req.title) then Err(InvalidTitle)
    else if !DateTimeOk(req.datetime, parsed, now) then Err(InvalidDateTime)
    else if !NonEmptyText(req.location) then Err(InvalidLocation)
    else if !CapacityOk(req.capacity) then Err(InvalidCapacity)
    else Ok(Event(req.title.s, parsed.value, req.location.s, req.capacity.n))
  }
}
