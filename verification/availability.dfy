/**
 The "free tables today" widget of the home page: tables without a pending or
 confirmed reservation dated today, largest first, at most six of them.
 */
module Availability {
  import opened Models
  import opened Booking

  /** How many tables the widget shows. */
  const WidgetSize: nat := 6

  /** Some pending or confirmed reservation of the table is dated `day`. */
  predicate BusyOn(store: Store, table: nat, day: int)
  {
    exists i :: 0 <= i < |store| && store[i].table == table && store[i].date == day
                && IsActive(store[i].status)
  }

  /**
   The exclusion the ORM performs when both conditions sit on a multi-valued
   relation: the table has SOME reservation dated `day` and SOME active
   reservation, not necessarily the same one.
   */
  predicate OrmExcludes(store: Store, table: nat, day: int)
  {
    && (exists i :: 0 <= i < |store| && store[i].table == table && store[i].date == day)
    && (exists j :: 0 <= j < |store| && store[j].table == table && IsActive(store[j].status))
  }

  /**
   A busy table is excluded under either reading of the query, so a result
   free of busy tables under the per-reservation reading is also free of them
   under the ORM's reading, which only removes more.
   */
  lemma BusyIsOrmExcluded(store: Store, table: nat, day: int)
    ensures BusyOn(store, table, day) ==> OrmExcludes(store, table, day)
  {
  }

  /** Capacities never increase along the sequence. */
  predicate CapacityNonIncreasing(s: seq<Table>)
  {
    forall i, j :: 0 <= i < j < |s| ==> s[i].capacity >= s[j].capacity
  }

  /** The tables not busy on `day`, in their original order. */
  function FreeTables(tables: seq<Table>, store: Store, day: int): (r: seq<Table>)
    ensures |r| <= |tables|
    ensures multiset(r) <= multiset(tables)
    ensures forall t :: t in r <==> t in tables && !BusyOn(store, t.id, day)
  {
    if |tables| == 0 then []
    else
      var rest := FreeTables(tables[1..], store, day);
      assert tables == [tables[0]] + tables[1..];
      if BusyOn(store, tables[0].id, day) then rest else [tables[0]] + rest
  }

  /** Inserts `t` into a largest-first sequence, ahead of tables of equal capacity. */
  function Insert(t: Table, s: seq<Table>): (r: seq<Table>)
    requires CapacityNonIncreasing(s)
    ensures |r| == |s| + 1
    ensures r[0] == t || (|s| > 0 && r[0] == s[0])
    ensures CapacityNonIncreasing(r)
    ensures multiset(r) == multiset(s) + multiset{t}
  {
    if |s| == 0 then [t]
    else if t.capacity >= s[0].capacity then [t] + s
    else
      assert s == [s[0]] + s[1..];
      [s[0]] + Insert(t, s[1..])
  }

  /** The tables ordered by capacity, largest first. */
  function SortByCapacityDesc(s: seq<Table>): (r: seq<Table>)
    ensures CapacityNonIncreasing(r)
    ensures multiset(r) == multiset(s)
  {
    if |s| == 0 then []
    else
      assert s == [s[0]] + s[1..];
      Insert(s[0], SortByCapacityDesc(s[1..]))
  }

  /**
   In a largest-first sequence, an element that is not among the first `n`
   sits behind all of them, so each of those is at least as large.
   */
  lemma PrefixDominates(sorted: seq<Table>, n: nat, t: Table)
    requires CapacityNonIncreasing(sorted)
    requires n <= |sorted| && t in sorted && t !in sorted[..n]
    ensures n < |sorted|
    ensures forall u :: u in sorted[..n] ==> u.capacity >= t.capacity
  {
    var k :| 0 <= k < |sorted| && sorted[k] == t;
    assert forall m :: 0 <= m < n ==> sorted[..n][m] == sorted[m];
    assert k >= n;
  }

  /** A prefix holds no element more often than the whole sequence. */
  lemma PrefixSubMultiset(s: seq<Table>, n: nat)
    requires n <= |s|
    ensures multiset(s[..n]) <= multiset(s)
  {
    assert s == s[..n] + s[n..];
  }

  /**
   The first `n` (at most six) of a largest-first arrangement `sorted` of
   `candidates` are drawn from the candidates, and a candidate is left out
   only behind six at least as large.
   */
  lemma TopSixFacts(candidates: seq<Table>, sorted: seq<Table>, n: nat)
    requires CapacityNonIncreasing(sorted)
    requires multiset(sorted) == multiset(candidates)
    requires n == if |sorted| < WidgetSize then |sorted| else WidgetSize
    ensures multiset(sorted[..n]) <= multiset(candidates)
    ensures forall t :: t in sorted[..n] ==> t in candidates
    ensures forall t :: t in candidates && t !in sorted[..n] ==>
              n == WidgetSize && forall u :: u in sorted[..n] ==> u.capacity >= t.capacity
  {
    PrefixSubMultiset(sorted, n);
    forall t | t in sorted[..n] ensures t in candidates {
      assert t in multiset(sorted);
    }
    forall t | t in candidates && t !in sorted[..n]
      ensures n == WidgetSize && forall u :: u in sorted[..n] ==> u.capacity >= t.capacity
    {
      assert t in multiset(sorted);
      PrefixDominates(sorted, n, t);
    }
  }

  /**
   The first six of a largest-first arrangement of `candidates`: drawn from
   the candidates, still largest first, and leaving out a candidate only when
   six at least as large are kept.
   */
  function TopSix(candidates: seq<Table>): (r: seq<Table>)
    ensures |r| <= WidgetSize
    ensures multiset(r) <= multiset(candidates)
    ensures CapacityNonIncreasing(r)
    ensures forall t :: t in r ==> t in candidates
    ensures forall t :: t in candidates && t !in r ==>
              |r| == WidgetSize && forall u :: u in r ==> u.capacity >= t.capacity
  {
    var sorted := SortByCapacityDesc(candidates);
    var n := if |sorted| < WidgetSize then |sorted| else WidgetSize;
    TopSixFacts(candidates, sorted, n);
    sorted[..n]
  }

  /**
   The widget's list: free tables, largest first, cut to six. It never shows a
   busy table, and a free table is left out only when six tables at least as
   large are shown.
   */
  function AvailableTables(tables: seq<Table>, store: Store, today: int): (r: seq<Table>)
    ensures |r| <= WidgetSize
    ensures multiset(r) <= multiset(tables)
    ensures CapacityNonIncreasing(r)
    ensures forall t :: t in r ==> t in tables && !BusyOn(store, t.id, today)
    ensures forall t :: t in tables && !BusyOn(store, t.id, today) && t !in r ==>
              |r| == WidgetSize && forall u :: u in r ==> u.capacity >= t.capacity
  {
    TopSix(FreeTables(tables, store, today))
  }

  /** The tables the ORM's exclusion keeps, in their original order. */
  function OrmFreeTables(tables: seq<Table>, store: Store, day: int): (r: seq<Table>)
    ensures multiset(r) <= multiset(tables)
    ensures forall t :: t in r <==> t in tables && !OrmExcludes(store, t.id, day)
  {
    if |tables| == 0 then []
    else
      var rest := OrmFreeTables(tables[1..], store, day);
      assert tables == [tables[0]] + tables[1..];
      if OrmExcludes(store, tables[0].id, day) then rest else [tables[0]] + rest
  }

  /**
   The widget as the query is written, with the ORM's reading of the
   exclusion. It still never shows a busy table.
   */
  function OrmAvailableTables(tables: seq<Table>, store: Store, today: int): (r: seq<Table>)
    ensures |r| <= WidgetSize
    ensures multiset(r) <= multiset(tables)
    ensures CapacityNonIncreasing(r)
    ensures forall t :: t in r ==> t in tables && !BusyOn(store, t.id, today)
  {
    var r := TopSix(OrmFreeTables(tables, store, today));
    forall t | t in r ensures !BusyOn(store, t.id, today) {
      BusyIsOrmExcluded(store, t.id, today);
    }
    r
  }

  /**
   A table whose only reservation today is cancelled, and which is booked for
   tomorrow, is free today but missing from the widget as written.
   */
  lemma OrmHidesFreeTable()
    ensures var table := Table(5, 1, "5", 4);
            var store := [Reservation(1, 1, 5, 19875, 600, 2, "", Cancelled),
                          Reservation(2, 1, 5, 19876, 600, 2, "", Pending)];
            && !BusyOn(store, 5, 19875)
            && AvailableTables([table], store, 19875) == [table]
            && OrmAvailableTables([table], store, 19875) == []
  {
    var table := Table(5, 1, "5", 4);
    var store := [Reservation(1, 1, 5, 19875, 600, 2, "", Cancelled),
                  Reservation(2, 1, 5, 19876, 600, 2, "", Pending)];
    assert store[0].date == 19875;
    assert IsActive(store[1].status);
    assert OrmExcludes(store, 5, 19875);
    assert !BusyOn(store, 5, 19875);
    assert FreeTables([table], store, 19875) == [table];
  }
}
