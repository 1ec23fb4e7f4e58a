/** The order of the upcoming list (datetime ascending, then location
    ascending; controllers/eventControllers.js, line 118) and a sort that
    produces it. Text is compared code point by code point. */
module Ordering {
  import opened Domain

  /** `a` sorts no later than `b`: a proper prefix sorts first. */
  predicate LexLe(a: string, b: string) {
    a == [] || (b != [] && (a[0] < b[0] || (a[0] == b[0] && LexLe(a[1..], b[1..]))))
  }

  lemma {:induction false} LexLeTotal(a: string, b: string)
    ensures LexLe(a, b) || LexLe(b, a)
  {
    if a != [] && b != [] && a[0] == b[0] {
      LexLeTotal(a[1..], b[1..]);
    }
  }

  lemma {:induction false} LexLeTransitive(a: string, b: string, c: string)
    requires LexLe(a, b) && LexLe(b, c)
    ensures LexLe(a, c)
  {
    if a != [] && b != [] && c != [] && a[0] == b[0] == c[0] {
      LexLeTransitive(a[1..], b[1..], c[1..]);
    }
  }

  /** Row `x` may come before row `y` in the upcoming list. */
  predicate Precedes(x: EventRow, y: EventRow) {
    || x.event.datetime < y.event.datetime
    || (x.event.datetime == y.event.datetime && LexLe(x.event.location, y.event.location))
  }

  lemma PrecedesTotal(x: EventRow, y: EventRow)
    ensures Precedes(x, y) || Precedes(y, x)
  {
    LexLeTotal(x.event.location, y.event.location);
  }

  lemma PrecedesTransitive(x: EventRow, y: EventRow, z: EventRow)
    requires Precedes(x, y) && Precedes(y, z)
    ensures Precedes(x, z)
  {
    if x.event.datetime == y.event.datetime == z.event.datetime {
      LexLeTransitive(x.event.location, y.event.location, z.event.location);
    }
  }

  /** Ordered by datetime ascending, then location ascending. */
  predicate Sorted(s: seq<EventRow>) {
    forall i, j :: 0 <= i < j < |s| ==> Precedes(s[i], s[j])
  }

  /** Places `x` before the first element it precedes. */
  function Insert(x: EventRow, s: seq<EventRow>): (r: seq<EventRow>)
    ensures multiset(r) == multiset(s) + multiset{x}
  {
    if s == [] || Precedes(x, s[0]) then [x] + s
    else
      assert s == [s[0]] + s[1..];
      [s[0]] + Insert(x, s[1..])
  }

  lemma {:induction false} InsertSorted(x: EventRow, s: seq<EventRow>)
    requires Sorted(s)
    ensures Sorted(Insert(x, s))
  {
    if s == [] {
    } else if Precedes(x, s[0]) {
      var r := [x] + s;
      forall i, j | 0 <= i < j < |r| ensures Precedes(r[i], r[j]) {
        if i == 0 && j > 1 {
          PrecedesTransitive(x, s[0], s[j - 1]);
        }
      }
    } else {
      PrecedesTotal(x, s[0]);
      var t := Insert(x, s[1..]);
      assert Sorted(s[1..]);
      InsertSorted(x, s[1..]);
      var r := [s[0]] + t;
      forall j | 0 <= j < |t| ensures Precedes(s[0], t[j]) {
        assert t[j] in multiset(t);
        if t[j] != x {
          assert t[j] in multiset(s[1..]);
          var k :| 0 <= k < |s[1..]| && s[1..][k] == t[j];
          assert s[k + 1] == t[j];
        }
      }
      forall i, j | 0 <= i < j < |r| ensures Precedes(r[i], r[j]) {
        if i > 0 {
          assert r[i] == t[i - 1] && r[j] == t[j - 1];
        } else {
          assert r[j] == t[j - 1];
        }
      }
    }
  }

  /** Insertion sort by datetime, then location. */
  function Sort(s: seq<EventRow>): (r: seq<EventRow>)
    ensures multiset(r) == multiset(s)
    ensures Sorted(r)
  {
    if s == [] then []
    else
      assert s == [s[0]] + s[1..];
      var rest := Sort(s[1..]);
      InsertSorted(s[0], rest);
      Insert(s[0], rest)
  }
}
