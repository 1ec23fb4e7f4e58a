# Event registration service, modelled in Dafny

The service lets organisers create events with a capacity, lets users
register for an event and cancel, and answers three queries: one event with
its registered users, the upcoming events in time order, and an event's
capacity statistics. All of its decisions live in
`controllers/eventControllers.js`; this project models that file.

The two database tables are abstract state of a class `EventStore`
(`event_store.dfy`): `events` is a map from id to an `Event` (title,
datetime, location, capacity), and `registrations` is the sequence of
`Registration(user, event)` rows in storage order. The table's id generator
is a counter `nextId`. Requests are handled one at a time. The current time
`now` and the result of `Date.parse` are parameters.

Files and modules:

- `js_values.dfy` (`JsValues`): JSON body fields as JavaScript sees them:
  `typeof` and truthiness.
- `domain.dfy` (`Domain`): events, registrations, error kinds, `Result` and
  `Outcome`.
- `validation.dfy` (`Validation`): the field checks of `createEvent` and the
  `userId` check of `registerForEvent`, and the ordered creation chain.
- `tables.dfy` (`Tables`): COUNT, the per-event user list and DELETE on the
  registrations table; the consistency invariant between the tables.
- `registrations.dfy` (`Registrations`): the guard chain of
  `registerForEvent` and the invariants that registering and cancelling keep.
- `ordering.dfy` (`Ordering`): the `ORDER BY datetime, location` order and
  an insertion sort proved to produce it.
- `queries.dfy` (`Queries`): `getEventDetails`, `getEventStats` and
  `listUpcomingEvents`.
- `event_store.dfy` (`EventService`): the class and its three state-changing
  methods.
- `scenarios.dfy` (`Scenarios`): a client that fills a capacity-2 event,
  is refused, cancels, and registers again.

The invariant `Consistent` that every method keeps says:

- no (user, event) pair occurs twice;
- every registration names an existing event;
- no event has more registrations than its capacity;
- every capacity is between 1 and 1000.

`EventStore.Valid` adds that every id is below `nextId`, which makes each
new id fresh.

## Model

| member | source | states |
|---|---|---|
| `Validation.NonEmptyText` | controllers/eventControllers.js:6-16 | the title check and the location check pass exactly on a non-empty string |
| `Validation.DateTimeOk` | controllers/eventControllers.js:10-12 | the datetime passes exactly when it is none of the falsy values (absent, null, false, 0, the empty string), it parses, and the parsed time is strictly after now |
| `Validation.CapacityOk` | controllers/eventControllers.js:18-25 | the capacity passes exactly when it is a number from 1 to 1000 inclusive (so 1 and 1000 pass, 0 and 1001 fail) |
| `Validation.UserIdOk` | controllers/eventControllers.js:66-68 | the userId passes exactly when it is a number other than 0 |
| `Validation.ValidateEvent` | controllers/eventControllers.js:6-25 | creation fails exactly when one of the four field rules fails; the first failing rule in the order title, datetime, location, capacity names the error; on success the event carries the given fields |
| `EventService.EventStore.CreateEvent` | controllers/eventControllers.js:3-38 | on a validation error nothing changes and that error is returned; otherwise exactly one event is added, under an id not present before, with the validated fields; registrations never change; the invariant is kept |
| `EventService.EventStore.RegisterForEvent` | controllers/eventControllers.js:62-94 | the outcome is the guard chain's verdict; exactly the pair (userId, eventId) is appended on success and nothing changes otherwise; events never change; the invariant is kept |
| `EventService.EventStore.CancelRegistration` | controllers/eventControllers.js:96-110 | fails with NotRegistered exactly when the pair is absent, and then nothing changes; otherwise exactly one row, that pair, is removed; events never change; the invariant is kept |
| `Registrations.RegisterVerdict` | controllers/eventControllers.js:66-88 | the first failing guard in the order userId shape, event exists, not strictly in the past, not already registered, not full, decides the error; registration at exactly now proceeds; Pass exactly when all guards pass |
| `Registrations.RegisterKeepsConsistent` | controllers/eventControllers.js:78-88 | inserting the pair the guards let through keeps no-duplicates and count within capacity for every event |
| `Registrations.SecondRegistrationConflicts` | controllers/eventControllers.js:78-79 | registering the same pair a second time fails with AlreadyRegistered |
| `Registrations.FullEventRefusesNewcomers` | controllers/eventControllers.js:83-86 | once the count equals the capacity, a new user who reaches the capacity guard is refused as full |
| `Registrations.CancelKeepsConsistent` | controllers/eventControllers.js:100-104 | deleting a pair keeps both tables consistent |
| `Registrations.ReRegisterAfterCancel` | controllers/eventControllers.js:78-104 | in a duplicate-free table within capacity, right after a successful cancel the same user registering for the same not-yet-past event passes every guard |
| `Tables.CountFor` | controllers/eventControllers.js:83 | the count of an event's registrations is at most the number of rows, and 0 exactly when no row names the event |
| `Tables.UsersOf` | controllers/eventControllers.js:47-52 | the users listed for an event are exactly those with a registration row for it, as many as the count |
| `Tables.Without` | controllers/eventControllers.js:104 | after the DELETE the table holds exactly the other rows |
| `Tables.CountAppend` | controllers/eventControllers.js:88 | an INSERT raises the count of its own event by one and no other count |
| `Tables.CountWithout` | controllers/eventControllers.js:104 | in a duplicate-free table a DELETE of a present pair lowers the count of its event by one and no other count |
| `Tables.WithoutRemovesOne` | controllers/eventControllers.js:104 | in a duplicate-free table the DELETE of a present pair removes exactly one row |
| `Tables.DistinctWithout` | controllers/eventControllers.js:104 | a DELETE keeps the table duplicate-free |
| `Tables.DistinctUsers` | controllers/eventControllers.js:47-52 | in a duplicate-free table no user is listed twice for an event |
| `Queries.GetEventDetails` | controllers/eventControllers.js:40-59 | NotFound exactly for an absent event; otherwise the stored row and exactly the users registered for it |
| `Queries.GetEventStats` | controllers/eventControllers.js:128-140 | NotFound exactly for an absent event; otherwise total plus remaining equals the capacity, and the total is 0 exactly when nobody is registered |
| `Queries.StatsWithinBounds` | controllers/eventControllers.js:137-140 | under the capacity invariant the remaining capacity lies between 0 and the capacity |
| `Queries.DetailsAgreeWithStats` | controllers/eventControllers.js:47-52 | the details list as many users as the stats count, each once |
| `Queries.UnreferencedEventHasNoUsers` | controllers/eventControllers.js:40-55 | a freshly created event is reported with its stored fields, no users, total 0 and its whole capacity remaining |
| `Queries.ListUpcomingEvents` | controllers/eventControllers.js:113-126 | the list holds exactly the events whose datetime is strictly after now, each once, ordered by datetime ascending and then location ascending |
| `Queries.UpcomingRows` | controllers/eventControllers.js:117 | the filter keeps exactly the scanned events with datetime after now, with their stored fields |
| `Queries.SortedUpcomingCorrect` | controllers/eventControllers.js:116-118 | sorting the filtered rows keeps exactly the upcoming events, each id once |
| `Ordering.Insert` | controllers/eventControllers.js:118 | inserting adds exactly one element to the multiset of rows |
| `Ordering.InsertSorted` | controllers/eventControllers.js:118 | inserting into a sorted list keeps it sorted by datetime, then location |
| `Ordering.Sort` | controllers/eventControllers.js:118 | the sort is a permutation of its input and is ordered by datetime, then location |
| `Ordering.LexLeTotal` | controllers/eventControllers.js:118 | any two locations are comparable |
| `Ordering.LexLeTransitive` | controllers/eventControllers.js:118 | the location order is transitive |
| `Scenarios.LaunchScenario` | controllers/eventControllers.js:62-110 | on a capacity-2 event: users 1 and 2 register, user 3 is refused as full, user 2 again is a conflict, cancelling user 1 succeeds, then user 3 registers |

## Left out

- Storage failures: every `catch` that answers 500 (lines 35-37, 56-58, 91-93, 107-109, 123-125, 148-150) is not modelled; the tables never fail.
- Concurrency: requests run one at a time, so the race between the capacity check (line 85) and the INSERT (line 88) is absent from the model.
- `capacityUsedPercent` (line 141): floating-point `toFixed` and `parseFloat` are not modelled.
- `Date.parse`: its result is the parameter `parsed` (None for NaN), assumed to agree with `new Date(datetime)`; the model stores that timestamp, not the string the database parses.
- JSON numbers are integers in the model; fractional numbers and their coercion by the integer column are not modelled.
- Path parameters (`:id`, and `:userId` of cancel) are integers in the model; a non-numeric one makes the database fail, which is not modelled.
- The `users` table: the details list user ids only, not names and e-mails, and every registered user is assumed to exist in `users` (the inner join would drop unknown ones).
- The location order compares code points; the database collation may differ.
- Rows equal in both datetime and location come out in id order in the model; the database leaves their order open, and the contracts promise nothing about it.
- HTTP status codes and response messages: only the error kind is modelled.
- Routing (routes/eventRoutes.js) and server start-up (index.js): wiring with no decisions.
