/** The read-only controllers: getEventDetails, listUpcomingEvents and
    getEventStats (controllers/eventControllers.js, lines 40-59 and 113-151),
    as functions of the two tables. */
module Queries {
  import opened Domain
  import opened Tables
  import opened Ordering

  /** The body of a successful `GET /events/:id`: the event row and the ids
      of its registered users, in storage order. */
  datatype Details = Details(row: EventRow, registeredUsers: seq<UserId>)

  /** The body of a successful `GET /events/:id/stats`, without the
      percentage. */
  datatype Stats = Stats(totalRegistrations: nat, remainingCapacity: int)

  function GetEventDetails(events: map<EventId, Event>, rows: seq<Registration>, id: EventId): (r: Result<Details>)
    ensures r.Err? <==> id !in events
    ensures r.Err? ==> r.error == EventNotFound
    ensures r.Ok? ==> r.value.row == EventRow(id, events[id])
    ensures r.Ok? ==> forall u :: u in r.value.registeredUsers <==> Registration(u, id) in rows
  {
    if id !in events then Err(EventNotFound)
    else Ok(Details(EventRow(id, events[id]), UsersOf(rows, id)))
  }

  function GetEventStats(events: map<EventId, Event>, rows: seq<Registration>, id: EventId): (r: Result<Stats>)
    ensures r.Err? <==> id !in events
    ensures r.Err? ==> r.error == EventNotFound
    ensures r.Ok? ==> r.value.totalRegistrations + r.value.remainingCapacity == events[id].capacity
    ensures r.Ok? ==> (r.value.totalRegistrations == 0 <==> forall u :: Registration(u, id) !in rows)
  {
    if id !in events then Err(EventNotFound)
    else
      var total := CountFor(rows, id);
      Ok(Stats(total, events[id].capacity - total))
  }

  /** Under `WithinCapacity` the remaining capacity is never negative and never
      more than the capacity. */
  lemma StatsWithinBounds(events: map<EventId, Event>, rows: seq<Registration>, id: EventId)
    requires WithinCapacity(events, rows) && CapacitiesInRange(events)
    requires id in events
    ensures var s := GetEventStats(events, rows, id).value;
      0 <= s.remainingCapacity <= events[id].capacity <= 1000
  {
  }

  /** The stats count the users that the details list, and in a
      duplicate-free table each of them once. */
  lemma DetailsAgreeWithStats(events: map<EventId, Event>, rows: seq<Registration>, id: EventId)
    requires Distinct(rows)
    requires id in events
    ensures |GetEventDetails(events, rows, id).value.registeredUsers|
         == GetEventStats(events, rows, id).value.totalRegistrations
    ensures Distinct(GetEventDetails(events, rows, id).value.registeredUsers)
  {
    DistinctUsers(rows, id);
  }

  /** An event that no registration refers to yet (such as the one just
      created) is reported with its stored fields and no users. */
  lemma UnreferencedEventHasNoUsers(events: map<EventId, Event>, rows: seq<Registration>, id: EventId, ev: Event)
    requires References(events, rows)
    requires id !in events
    ensures GetEventDetails(events[id := ev], rows, id) == Ok(Details(EventRow(id, ev), []))
    ensures GetEventStats(events[id := ev], rows, id) == Ok(Stats(0, ev.capacity))
  {
  }

  /** The least element of a non-empty set of ids. */
  function MinKey(s: set<EventId>): (k: EventId)
    requires exists k :: k in s
    ensures k in s && forall j :: j in s ==> k <= j
  {
    MinExists(s);
    var k :| k in s && forall j :: j in s ==> k <= j;
    k
  }

  lemma MinExists(s: set<EventId>)
    requires exists k :: k in s
    ensures exists k :: k in s && forall j :: j in s ==> k <= j
    decreases |s|
  {
    var x :| x in s;
    if y :| y in s && y != x {
      assert y in s - {x};
      MinExists(s - {x});
      var m :| m in s - {x} && forall j :: j in s - {x} ==> m <= j;
      var least := if x < m then x else m;
      forall j | j in s ensures least <= j {
        if j != x { assert j in s - {x}; }
      }
      assert least in s;
    } else {
      assert forall j :: j in s ==> x <= j;
    }
  }

  /** The ids of a set in ascending order. */
  function KeysAscending(s: set<EventId>): (ks: seq<EventId>)
    ensures forall k :: k in ks <==> k in s
    ensures forall i, j :: 0 <= i < j < |ks| ==> ks[i] < ks[j]
    decreases |s|
  {
    if exists k :: k in s then
      var k := MinKey(s);
      [k] + KeysAscending(s - {k})
    else []
  }

  /** The rows of `ids` whose datetime is after `now`, in the order of `ids`. */
  function UpcomingRows(events: map<EventId, Event>, ids: seq<EventId>, now: int): (r: seq<EventRow>)
    requires forall i :: 0 <= i < |ids| ==> ids[i] in events
    ensures forall row :: row in r <==>
      row.id in ids && row.id in events && row.event == events[row.id] && row.event.datetime > now
  {
    if ids == [] then []
    else
      var id := ids[0];
      (if events[id].datetime > now then [EventRow(id, events[id])] else [])
        + UpcomingRows(events, ids[1..], now)
  }

  lemma {:induction false} UpcomingRowsDistinct(events: map<EventId, Event>, ids: seq<EventId>, now: int)
    requires forall i :: 0 <= i < |ids| ==> ids[i] in events
    requires Distinct(ids)
    ensures Distinct(UpcomingRows(events, ids, now))
  {
    if ids != [] {
      DistinctTail(ids);
      UpcomingRowsDistinct(events, ids[1..], now);
      var id := ids[0];
      if events[id].datetime > now {
        DistinctCons(EventRow(id, events[id]), UpcomingRows(events, ids[1..], now));
      } else {
        assert UpcomingRows(events, ids, now) == UpcomingRows(events, ids[1..], now);
      }
    }
  }

  /** Distinct rows of one map have distinct ids. */
  lemma DistinctRowsDistinctIds(events: map<EventId, Event>, r: seq<EventRow>)
    requires Distinct(r)
    requires forall i :: 0 <= i < |r| ==> r[i].id in events && r[i].event == events[r[i].id]
    ensures forall i, j :: 0 <= i < j < |r| ==> r[i].id != r[j].id
  {
  }

  /** The ids of the events table in scan order. */
  function ScanIds(events: map<EventId, Event>): (ids: seq<EventId>)
    ensures forall i :: 0 <= i < |ids| ==> ids[i] in events
    ensures forall id :: id in ids <==> id in events
    ensures Distinct(ids)
  {
    var ids := KeysAscending(events.Keys);
    assert forall i :: 0 <= i < |ids| ==> ids[i] in ids;
    ids
  }

  lemma SortedUpcomingCorrect(events: map<EventId, Event>, now: int)
    ensures var r := Sort(UpcomingRows(events, ScanIds(events), now));
      && (forall row :: row in r <==> row.id in events && row.event == events[row.id] && row.event.datetime > now)
      && (forall i, j :: 0 <= i < j < |r| ==> r[i].id != r[j].id)
  {
    var upcoming := UpcomingRows(events, ScanIds(events), now);
    UpcomingRowsDistinct(events, ScanIds(events), now);
    var r := Sort(upcoming);
    forall row ensures row in r <==> row in upcoming {
      assert row in r <==> row in multiset(r);
      assert row in upcoming <==> row in multiset(upcoming);
    }
    DistinctPermutation(upcoming, r);
    forall i | 0 <= i < |r| ensures r[i].id in events && r[i].event == events[r[i].id] {
      assert r[i] in r;
    }
    DistinctRowsDistinctIds(events, r);
  }

  /** The upcoming events (lines 116-118): every event whose datetime is
      strictly after `now`, once each and nothing else, ordered by datetime
      and then by location. */
  function ListUpcomingEvents(events: map<EventId, Event>, now: int): (r: seq<EventRow>)
    ensures forall row :: row in r <==>
      row.id in events && row.event == events[row.id] && row.event.datetime > now
    ensures forall i, j :: 0 <= i < j < |r| ==> r[i].id != r[j].id
    ensures Sorted(r)
  {
    SortedUpcomingCorrect(events, now);
    Sort(UpcomingRows(events, ScanIds(events), now))
  }
}
