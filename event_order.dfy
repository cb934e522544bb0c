/**
 * `events.sort((a, b) => a.date.getTime() - b.date.getTime())`, the ordering
 * both the event generator and the CSV exporter apply. `Array.prototype.sort`
 * is stable, so the result is the events in ascending key order with events
 * of equal key kept in their original relative order. The sort is modelled
 * by what it produces (a stable insertion sort on an integer key), not by
 * the engine's algorithm.
 */
module EventOrder {
  import opened Calendar
  import opened CalendarTypes

  /** What a comparator `(a, b) => key(a) - key(b)` sorts by. */
  type Key = CalendarEvent -> int

  /** The key of the calendar's comparator: every event date is a local
      midnight, so `getTime` orders events as their day numbers do. */
  function DateKey(e: CalendarEvent): int {
    DayNumber(e.date)
  }

  predicate SortedBy(key: Key, s: seq<CalendarEvent>) {
    forall i, j :: 0 <= i < j < |s| ==> key(s[i]) <= key(s[j])
  }

  /** Places `e` before the first element whose key is not smaller. */
  function Insert(key: Key, e: CalendarEvent, s: seq<CalendarEvent>): seq<CalendarEvent> {
    if s == [] || key(e) <= key(s[0]) then [e] + s
    else [s[0]] + Insert(key, e, s[1..])
  }

  lemma {:induction false} InsertMultiset(key: Key, e: CalendarEvent, s: seq<CalendarEvent>)
    ensures multiset(Insert(key, e, s)) == multiset(s) + multiset{e}
    ensures |Insert(key, e, s)| == |s| + 1
  {
    if s != [] && key(e) > key(s[0]) {
      InsertMultiset(key, e, s[1..]);
      assert s == [s[0]] + s[1..];
    }
  }

  lemma SortedCons(key: Key, x: CalendarEvent, t: seq<CalendarEvent>)
    requires SortedBy(key, t)
    requires forall j :: 0 <= j < |t| ==> key(x) <= key(t[j])
    ensures SortedBy(key, [x] + t)
  {
    var r := [x] + t;
    forall i, j | 0 <= i < j < |r| ensures key(r[i]) <= key(r[j]) {
      assert r[j] == t[j - 1];
      if i > 0 {
        assert r[i] == t[i - 1];
      }
    }
  }

  lemma {:induction false} InsertSorted(key: Key, e: CalendarEvent, s: seq<CalendarEvent>)
    requires SortedBy(key, s)
    ensures SortedBy(key, Insert(key, e, s))
  {
    if s == [] || key(e) <= key(s[0]) {
      SortedCons(key, e, s);
    } else {
      var t := Insert(key, e, s[1..]);
      InsertSorted(key, e, s[1..]);
      InsertMultiset(key, e, s[1..]);
      forall j | 0 <= j < |t| ensures key(s[0]) <= key(t[j]) {
        assert t[j] in multiset(t);
        if t[j] != e {
          assert t[j] in multiset(s[1..]);
          var i :| 0 <= i < |s[1..]| && s[1..][i] == t[j];
          assert s[1..][i] == s[i + 1];
        }
      }
      SortedCons(key, s[0], t);
    }
  }

  lemma MultisetCons(s: seq<CalendarEvent>)
    requires s != []
    ensures multiset(s) == multiset(s[1..]) + multiset{s[0]}
  {
    assert s == [s[0]] + s[1..];
  }

  /** The stable sort by `key`: a permutation of its input in ascending key order. */
  function SortBy(key: Key, s: seq<CalendarEvent>): (r: seq<CalendarEvent>)
    ensures multiset(r) == multiset(s) && |r| == |s|
    ensures SortedBy(key, r)
  {
    if s == [] then []
    else
      var t := SortBy(key, s[1..]);
      InsertSorted(key, s[0], t);
      InsertMultiset(key, s[0], t);
      MultisetCons(s);
      Insert(key, s[0], t)
  }

  /** The calendar's sort: by date. */
  function SortByDate(s: seq<CalendarEvent>): seq<CalendarEvent> {
    SortBy(DateKey, s)
  }

  /** The events of `s` whose key is `k`, in their order in `s`. */
  function WithKey(key: Key, s: seq<CalendarEvent>, k: int): seq<CalendarEvent> {
    if s == [] then [] else (if key(s[0]) == k then [s[0]] else []) + WithKey(key, s[1..], k)
  }

  lemma {:induction false} WithKeyInsert(key: Key, e: CalendarEvent, s: seq<CalendarEvent>, k: int)
    ensures WithKey(key, Insert(key, e, s), k) == (if key(e) == k then [e] else []) + WithKey(key, s, k)
  {
    if s == [] || key(e) <= key(s[0]) {
      var t := [e] + s;
      assert t[0] == e && t[1..] == s;
      assert Insert(key, e, s) == t;
    } else {
      var u := Insert(key, e, s[1..]);
      var t := [s[0]] + u;
      assert t[0] == s[0] && t[1..] == u;
      assert Insert(key, e, s) == t;
      WithKeyInsert(key, e, s[1..], k);
      WithKeySwap(key, e, s[0], WithKey(key, s[1..], k), k);
    }
  }

  /** An element with a smaller key and one with key `k` commute in front of
      the events with key `k`. */
  lemma WithKeySwap(key: Key, e: CalendarEvent, x: CalendarEvent, rest: seq<CalendarEvent>, k: int)
    requires key(x) < key(e)
    ensures (if key(x) == k then [x] else []) + ((if key(e) == k then [e] else []) + rest)
      == (if key(e) == k then [e] else []) + ((if key(x) == k then [x] else []) + rest)
  {
  }

  /** Stability: for every key, the sorted list holds the events with that
      key in the same order as the input. */
  lemma {:induction false} SortByStable(key: Key, s: seq<CalendarEvent>, k: int)
    ensures WithKey(key, SortBy(key, s), k) == WithKey(key, s, k)
  {
    if s != [] {
      SortByStable(key, s[1..], k);
      WithKeyInsert(key, s[0], SortBy(key, s[1..]), k);
    }
  }

  /** Sorting a list that is already in key order leaves it unchanged. */
  lemma {:induction false} SortByOfSorted(key: Key, s: seq<CalendarEvent>)
    requires SortedBy(key, s)
    ensures SortBy(key, s) == s
  {
    if s != [] {
      SortByOfSorted(key, s[1..]);
      var t := s[1..];
      if t != [] {
        assert key(s[0]) <= key(t[0]);
      }
      assert s == [s[0]] + t;
    }
  }

  /** Sorting neither adds nor drops an event. */
  lemma SortByMembers(key: Key, s: seq<CalendarEvent>)
    ensures forall e :: e in SortBy(key, s) <==> e in s
  {
    var r := SortBy(key, s);
    forall e ensures e in r <==> e in s {
      assert e in r <==> e in multiset(r);
      assert e in s <==> e in multiset(s);
    }
  }

  /** No two events of `s` share an `id`. */
  predicate DistinctIds(s: seq<CalendarEvent>) {
    forall a, b :: 0 <= a < b < |s| ==> s[a].id != s[b].id
  }

  lemma {:induction false} CountAtMostOnce(s: seq<CalendarEvent>, x: CalendarEvent)
    requires DistinctIds(s)
    ensures multiset(s)[x] <= 1
  {
    if s != [] {
      MultisetCons(s);
      CountAtMostOnce(s[1..], x);
      if x == s[0] {
        forall k | 0 <= k < |s[1..]| ensures s[1..][k] != x {
          assert s[1..][k] == s[k + 1];
        }
      }
    }
  }

  lemma NotBeforeItself(t: seq<CalendarEvent>, b: int)
    requires 0 <= b < |t| && multiset(t)[t[b]] <= 1
    ensures t[b] !in t[..b]
  {
    assert t == t[..b] + t[b..];
    assert t[b] in t[b..];
  }

  /** A reordering keeps ids distinct: sorting cannot create a clash. */
  lemma DistinctIdsPermutation(s: seq<CalendarEvent>, t: seq<CalendarEvent>)
    requires multiset(s) == multiset(t) && DistinctIds(s)
    ensures DistinctIds(t)
  {
    forall a, b | 0 <= a < b < |t| ensures t[a].id != t[b].id {
      assert t[a] in multiset(s) && t[b] in multiset(s);
      var p :| 0 <= p < |s| && s[p] == t[a];
      var q :| 0 <= q < |s| && s[q] == t[b];
      CountAtMostOnce(s, t[b]);
      NotBeforeItself(t, b);
      assert t[a] in t[..b];
      assert t[a] != t[b];
      assert p != q;
    }
  }

  /** The sort in place on the caller's array, as `events.sort(...)` does it. */
  method SortEvents(a: array<CalendarEvent>)
    modifies a
    ensures a[..] == SortByDate(old(a[..]))
  {
    var sorted := SortByDate(a[..]);
    forall i | 0 <= i < a.Length {
      a[i] := sorted[i];
    }
  }
}
