/** The `registrations` table as a sequence of rows in storage order, the
    queries the controllers run on it (COUNT, the join on event id, DELETE),
    and the invariants that tie it to the `events` table. */
module Tables {
  import opened Domain

  /** No element occurs twice. */
  predicate Distinct<T(==)>(s: seq<T>) {
    forall i, j :: 0 <= i < j < |s| ==> s[i] != s[j]
  }

  /** The number of registrations for event `e` (the count at line 83 and
      line 137). */
  function CountFor(rows: seq<Registration>, e: EventId): (n: nat)
    ensures n <= |rows|
    ensures n == 0 <==> forall u :: Registration(u, e) !in rows
  {
    if rows == [] then 0
    else (if rows[0].event == e then 1 else 0) + CountFor(rows[1..], e)
  }

  /** The user ids registered for `e`, in storage order. */
  function UsersOf(rows: seq<Registration>, e: EventId): (users: seq<UserId>)
    ensures |users| == CountFor(rows, e)
    ensures forall u :: u in users <==> Registration(u, e) in rows
  {
    if rows == [] then []
    else (if rows[0].event == e then [rows[0].user] else []) + UsersOf(rows[1..], e)
  }

  /** The table after deleting every row equal to `p` (line 104). */
  function Without(rows: seq<Registration>, p: Registration): (rest: seq<Registration>)
    ensures |rest| <= |rows|
    ensures forall q :: q in rest <==> q in rows && q != p
  {
    if rows == [] then []
    else (if rows[0] == p then [] else [rows[0]]) + Without(rows[1..], p)
  }

  /** Every registration names an existing event. */
  ghost predicate References(events: map<EventId, Event>, rows: seq<Registration>) {
    forall p :: p in rows ==> p.event in events
  }

  /** No event has more registrations than its capacity. */
  ghost predicate WithinCapacity(events: map<EventId, Event>, rows: seq<Registration>) {
    forall e :: e in events ==> CountFor(rows, e) <= events[e].capacity
  }

  /** Every stored capacity passed the creation check. */
  ghost predicate CapacitiesInRange(events: map<EventId, Event>) {
    forall e :: e in events ==> 1 <= events[e].capacity <= 1000
  }

  /** The consistency the service keeps between its two tables: no pair
      twice (`Distinct`), referential integrity (`References`), no event over
      its capacity (`WithinCapacity`) and the capacity range. */
  ghost predicate Consistent(events: map<EventId, Event>, rows: seq<Registration>) {
    && Distinct(rows)
    && References(events, rows)
    && WithinCapacity(events, rows)
    && CapacitiesInRange(events)
  }

  lemma DistinctCons<T>(x: T, s: seq<T>)
    requires x !in s && Distinct(s)
    ensures Distinct([x] + s)
  {
  }

  lemma DistinctTail<T>(s: seq<T>)
    requires s != [] && Distinct(s)
    ensures s[0] !in s[1..] && Distinct(s[1..])
  {
  }

  lemma {:induction false} DistinctOccursOnce<T>(s: seq<T>, x: T)
    requires Distinct(s)
    ensures multiset(s)[x] <= 1
  {
    if s != [] {
      DistinctTail(s);
      DistinctOccursOnce(s[1..], x);
      assert s == [s[0]] + s[1..];
    }
  }

  /** A reordering of a duplicate-free sequence is duplicate-free. */
  lemma DistinctPermutation<T>(a: seq<T>, b: seq<T>)
    requires Distinct(a) && multiset(a) == multiset(b)
    ensures Distinct(b)
  {
    forall i, j | 0 <= i < j < |b| ensures b[i] != b[j] {
      DistinctOccursOnce(a, b[i]);
      assert b == b[..j] + b[j..];
      assert b[i] == b[..j][i];
      assert b[j] == b[j..][0];
      assert multiset(b)[b[i]] == multiset(b[..j])[b[i]] + multiset(b[j..])[b[i]];
      assert multiset(b[j..])[b[j]] >= 1;
    }
  }

  /** Appending a new pair to a duplicate-free table keeps it duplicate-free. */
  lemma DistinctAppend<T>(s: seq<T>, x: T)
    requires Distinct(s) && x !in s
    ensures Distinct(s + [x])
  {
  }

  /** Inserting one row raises the count of its event by one and no other. */
  lemma {:induction false} CountAppend(rows: seq<Registration>, p: Registration, e: EventId)
    ensures CountFor(rows + [p], e) == CountFor(rows, e) + (if p.event == e then 1 else 0)
  {
    if rows == [] {
      assert [] + [p] == [p];
    } else {
      assert (rows + [p])[1..] == rows[1..] + [p];
      CountAppend(rows[1..], p, e);
    }
  }

  lemma {:induction false} WithoutAbsent(rows: seq<Registration>, p: Registration)
    requires p !in rows
    ensures Without(rows, p) == rows
  {
    if rows != [] {
      assert rows[1..] + [] == rows[1..];
      WithoutAbsent(rows[1..], p);
      assert [rows[0]] + rows[1..] == rows;
    }
  }

  /** Deleting a registered pair from a duplicate-free table lowers the count
      of its event by exactly one and leaves every other count alone. */
  lemma {:induction false} CountWithout(rows: seq<Registration>, p: Registration, e: EventId)
    requires Distinct(rows)
    ensures CountFor(Without(rows, p), e)
         == CountFor(rows, e) - (if p in rows && p.event == e then 1 else 0)
  {
    if rows != [] {
      DistinctTail(rows);
      if rows[0] == p {
        WithoutAbsent(rows[1..], p);
        assert Without(rows, p) == rows[1..];
      } else {
        CountWithout(rows[1..], p, e);
        var rest := Without(rows[1..], p);
        assert Without(rows, p) == [rows[0]] + rest;
        assert ([rows[0]] + rest)[1..] == rest;
        assert p in rows <==> p in rows[1..];
      }
    }
  }

  /** In a duplicate-free table, deleting a registered pair removes exactly
      one row. */
  lemma {:induction false} WithoutRemovesOne(rows: seq<Registration>, p: Registration)
    requires Distinct(rows) && p in rows
    ensures |Without(rows, p)| == |rows| - 1
  {
    DistinctTail(rows);
    if rows[0] == p {
      WithoutAbsent(rows[1..], p);
    } else {
      WithoutRemovesOne(rows[1..], p);
    }
  }

  /** Deleting rows keeps a duplicate-free table duplicate-free. */
  lemma {:induction false} DistinctWithout(rows: seq<Registration>, p: Registration)
    requires Distinct(rows)
    ensures Distinct(Without(rows, p))
  {
    if rows != [] {
      DistinctTail(rows);
      DistinctWithout(rows[1..], p);
      if rows[0] != p {
        DistinctCons(rows[0], Without(rows[1..], p));
      } else {
        assert Without(rows, p) == Without(rows[1..], p);
      }
    }
  }

  /** In a duplicate-free table no user appears twice in an event's list. */
  lemma {:induction false} DistinctUsers(rows: seq<Registration>, e: EventId)
    requires Distinct(rows)
    ensures Distinct(UsersOf(rows, e))
  {
    if rows != [] {
      DistinctTail(rows);
      DistinctUsers(rows[1..], e);
      if rows[0].event == e {
        var u := rows[0].user;
        assert Registration(u, e) == rows[0];
        DistinctCons(u, UsersOf(rows[1..], e));
      } else {
        assert UsersOf(rows, e) == UsersOf(rows[1..], e);
      }
    }
  }
}
