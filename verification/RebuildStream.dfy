/** The two ways to rebuild the read models: rebuildProjections of backend/eventsourcing/event-store.js
    on the whole list of rows, and rebuildFromPages of backend/eventsourcing/rebuild-stream.js in one
    pass over ordered pages. */
module RebuildStream {
  import opened OrderEvents
  import opened EventStoreCache
  import opened Wrappers

  datatype OrderWrite = OrderWrite(aggregateId: string, state: Fields, eventType: string, version: Value)

  datatype Counts = Counts(aggregates: nat, orderCount: nat, driverCount: nat, eventCount: nat)

  /** The latest valid snapshot of each aggregate. */
  type Snapshots = string -> Option<Snapshot>

  // ---- what is written ----------------------------------------------------

  /** The distinct aggregates in order of first occurrence: [...new Set(ids)]. */
  function Aggregates(rows: seq<Event>): seq<string> {
    if rows == [] then []
    else
      var front, id := Aggregates(rows[..|rows| - 1]), rows[|rows| - 1].aggregateId;
      if id in front then front else front + [id]
  }

  function RowsOf(rows: seq<Event>, id: string): seq<Event> {
    if rows == [] then []
    else
      var front, e := RowsOf(rows[..|rows| - 1], id), rows[|rows| - 1];
      if e.aggregateId == id then front + [e] else front
  }

  function LastType(events: seq<Event>): string {
    if events == [] then "REBUILT" else events[|events| - 1].etype
  }

  ghost predicate HasRow(rows: seq<Event>, id: string) { exists i :: 0 <= i < |rows| && rows[i].aggregateId == id }

  /** The aggregates are those that some row has, and none is listed twice. */
  lemma {:induction false} AggregatesAre(rows: seq<Event>)
    ensures forall id :: id in Aggregates(rows) <==> HasRow(rows, id)
    ensures forall t, u :: 0 <= t < u < |Aggregates(rows)| ==> Aggregates(rows)[t] != Aggregates(rows)[u]
  {
    if rows != [] {
      var n := |rows| - 1;
      AggregatesAre(rows[..n]);
      forall id ensures id in Aggregates(rows) <==> HasRow(rows, id) {
        assert HasRow(rows[..n], id) ==> HasRow(rows, id) by {
          if i :| 0 <= i < n && rows[..n][i].aggregateId == id {
            assert rows[i].aggregateId == id;
          }
        }
        if i :| 0 <= i < |rows| && rows[i].aggregateId == id {
          assert i < n ==> rows[..n][i].aggregateId == id;
        }
      }
    }
  }

  /** They stand in the order of their first rows: later rows only add at the end. */
  lemma {:induction false} AggregatesInOrder(rows: seq<Event>, n: nat)
    requires n <= |rows|
    ensures Aggregates(rows[..n]) <= Aggregates(rows)
  {
    if n < |rows| {
      var m := |rows| - 1;
      AggregatesInOrder(rows[..m], n);
      assert rows[..m][..n] == rows[..n];
    } else {
      assert rows[..n] == rows;
    }
  }

  /** Both filters keep the order: of two lists one after the other they keep what they keep of each, and of one
      row the row itself if it is of the aggregate, or an assignment. */
  lemma {:induction false} FiltersConcat(a: seq<Event>, b: seq<Event>, id: string)
    ensures RowsOf(a + b, id) == RowsOf(a, id) + RowsOf(b, id) && Assignments(a + b) == Assignments(a) + Assignments(b)
  {
    if b == [] {
      assert a + b == a;
    } else {
      FiltersConcat(a, b[..|b| - 1], id);
      assert (a + b)[..|a + b| - 1] == a + b[..|b| - 1];
    }
  }

  lemma FiltersOne(e: Event, id: string)
    ensures RowsOf([e], id) == (if e.aggregateId == id then [e] else [])
    ensures Assignments([e]) == (if e.etype == "DRIVER_ASSIGNED" then [e] else [])
  {
    assert [e][..0] == [];
  }

  /** The write for one aggregate, if it has a state. */
  function AggregateWrites(id: string, rows: seq<Event>, snaps: Snapshots): seq<OrderWrite> {
    var state := Rebuilt(id, snaps(id), rows);
    if state.None? then []
    else [OrderWrite(id, state.value, LastType(SortByVersion(rows)), Get(state.value, "version"))]
  }

  function OrderWrites(ids: seq<string>, rows: seq<Event>, snaps: Snapshots): seq<OrderWrite> {
    if ids == [] then []
    else
      var id := ids[|ids| - 1];
      OrderWrites(ids[..|ids| - 1], rows, snaps) + AggregateWrites(id, RowsOf(rows, id), snaps)
  }

  /** One more aggregate adds its own write. */
  lemma WritesStep(ids: seq<string>, i: nat, rows: seq<Event>, snaps: Snapshots)
    requires i < |ids|
    ensures OrderWrites(ids[..i + 1], rows, snaps)
         == OrderWrites(ids[..i], rows, snaps) + AggregateWrites(ids[i], RowsOf(rows, ids[i]), snaps)
  {
    hide AggregateWrites, RowsOf;
    assert ids[..i + 1][..i] == ids[..i];
  }

  function Assignments(rows: seq<Event>): seq<Event> {
    if rows == [] then []
    else
      var front, e := Assignments(rows[..|rows| - 1]), rows[|rows| - 1];
      if e.etype == ASSIGNED then front + [e] else front
  }

  // ---- rebuildProjections -------------------------------------------------

  method RebuildProjections(rows: seq<Event>, snaps: Snapshots)
    returns (orders: seq<OrderWrite>, drivers: seq<Event>, counts: Counts)
    ensures orders == OrderWrites(Aggregates(rows), rows, snaps) && drivers == Assignments(rows)
    ensures counts == Counts(|Aggregates(rows)|, |orders|, |drivers|, |rows|)
  {
    hide Rebuilt, LastType, SortByVersion, Applied, Replay, ApplyEvent, RowsOf, Aggregates, Assignments;
    var ids := Aggregates(rows);
    assert OrderWrites(ids[..0], rows, snaps) == [];
    hide OrderWrites;
    orders := [];
    var orderCount := 0;
    for i := 0 to |ids|
      invariant orders == OrderWrites(ids[..i], rows, snaps) && orderCount == |orders|
    {
      WritesStep(ids, i, rows, snaps);
      var aggRows := RowsOf(rows, ids[i]);
      var lastEventType := LastType(SortByVersion(aggRows));
      var state := RebuildState(ids[i], snaps(ids[i]), aggRows);
      if state.Some? {
        orders := orders + [OrderWrite(ids[i], state.value, lastEventType, Get(state.value, "version"))];
        orderCount := orderCount + 1;
      }
    }
    assert ids[..|ids|] == ids;
    var driverEvents := Assignments(rows);
    drivers := [];
    for i := 0 to |driverEvents|
      invariant drivers == driverEvents[..i]
    {
      drivers := drivers + [driverEvents[i]];
    }
    counts := Counts(|ids|, orderCount, |drivers|, |rows|);
  }

  // ---- rebuildFromPages ---------------------------------------------------

  function Flatten(pages: seq<seq<Event>>): seq<Event> {
    if pages == [] then [] else Flatten(pages[..|pages| - 1]) + pages[|pages| - 1]
  }

  /** Ordered by aggregate, then by version: each aggregate's rows are together, in ascending order. */
  ghost predicate Grouped(rows: seq<Event>) {
    && (forall i, j, k :: 0 <= i < j < k < |rows| && rows[i].aggregateId == rows[k].aggregateId ==>
          rows[j].aggregateId == rows[i].aggregateId)
    && (forall i, j :: 0 <= i < j < |rows| && rows[i].aggregateId == rows[j].aggregateId ==>
          rows[i].version <= rows[j].version)
  }

  /** What the loop remembers of the rows so far. */
  datatype Cursor = Cursor(aggregateId: Option<string>, state: Fields, snapshotVersion: int, lastEventType: string,
                           hasState: bool, orders: seq<OrderWrite>, counts: Counts)

  function Flush(c: Cursor): Cursor {
    if c.aggregateId.Some? && c.hasState then
      var w := OrderWrite(c.aggregateId.value, c.state, c.lastEventType, Get(c.state, "version"));
      c.(orders := c.orders + [w], counts := c.counts.(orderCount := c.counts.orderCount + 1))
    else c
  }

  function Enter(c: Cursor, id: string, snaps: Snapshots): Cursor {
    var snap := snaps(id);
    Cursor(Some(id), if snap.Some? then snap.value.state else Initial(id),
           if snap.Some? then snap.value.version else 0, c.lastEventType, snap.Some?, c.orders,
           c.counts.(aggregates := c.counts.aggregates + 1))
  }

  function Consume(c: Cursor, e: Event): Cursor {
    var d := c.(lastEventType := e.etype, counts := c.counts.(eventCount := c.counts.eventCount + 1));
    if e.version > c.snapshotVersion then d.(state := ApplyEvent(c.state, e), hasState := true) else d
  }

  function StepRow(c: Cursor, e: Event, snaps: Snapshots): Cursor {
    Consume(if c.aggregateId != Some(e.aggregateId) then Enter(Flush(c), e.aggregateId, snaps) else c, e)
  }

  const START: Cursor := Cursor(None, map[], 0, "", false, [], Counts(0, 0, 0, 0))

  function Scan(rows: seq<Event>, snaps: Snapshots): Cursor {
    if rows == [] then START else StepRow(Scan(rows[..|rows| - 1], snaps), rows[|rows| - 1], snaps)
  }

  /** Where the last aggregate's rows begin. */
  function GroupStart(rows: seq<Event>): (n: nat)
    requires rows != []
    ensures n < |rows|
  {
    if |rows| == 1 || rows[|rows| - 2].aggregateId != rows[|rows| - 1].aggregateId then |rows| - 1
    else GroupStart(rows[..|rows| - 1])
  }

  lemma {:induction false} GroupTogether(rows: seq<Event>)
    requires Grouped(rows) && rows != []
    ensures
      var n, id := GroupStart(rows), rows[|rows| - 1].aggregateId;
      && (forall i :: 0 <= i < n ==> rows[i].aggregateId != id)
      && (forall i :: n <= i < |rows| ==> rows[i].aggregateId == id)
  {
    var front, id := rows[..|rows| - 1], rows[|rows| - 1].aggregateId;
    if |rows| > 1 {
      if rows[|rows| - 2].aggregateId == id {
        GroupedFront(rows);
        hide Grouped;
        GroupTogether(front);
      }
    }
  }

  lemma GroupedFront(rows: seq<Event>)
    requires Grouped(rows) && |rows| > 1
    ensures Grouped(rows[..|rows| - 1])
  {
  }

  lemma {:induction false} RowsOfOther(rows: seq<Event>, id: string)
    requires forall i :: 0 <= i < |rows| ==> rows[i].aggregateId != id
    ensures RowsOf(rows, id) == [] && id !in Aggregates(rows)
  {
    if rows != [] {
      RowsOfOther(rows[..|rows| - 1], id);
    }
  }

  lemma RowAdded(rows: seq<Event>, e: Event)
    ensures Aggregates(rows + [e]) == if e.aggregateId in Aggregates(rows) then Aggregates(rows) else Aggregates(rows) + [e.aggregateId]
  {
    assert (rows + [e])[..|rows|] == rows;
  }

  lemma RowOfAdded(rows: seq<Event>, e: Event, id: string)
    ensures RowsOf(rows + [e], id) == if e.aggregateId == id then RowsOf(rows, id) + [e] else RowsOf(rows, id)
  {
    assert (rows + [e])[..|rows|] == rows;
  }

  lemma {:induction false} RowsOfAdded(older: seq<Event>, group: seq<Event>, id: string, other: string)
    requires forall i :: 0 <= i < |group| ==> group[i].aggregateId == id
    ensures RowsOf(older + group, other) == if other == id then RowsOf(older, other) + group else RowsOf(older, other)
  {
    if group == [] {
      assert older + group == older;
    } else {
      var front, e := group[..|group| - 1], group[|group| - 1];
      assert (older + front) + [e] == older + group && group == front + [e];
      RowOfAdded(older + front, e, other);
      RowsOfAdded(older, front, id, other);
    }
  }

  /** Rows of a new aggregate added at the end. */
  lemma {:induction false} GroupAdded(older: seq<Event>, group: seq<Event>, id: string)
    requires group != [] && (forall i :: 0 <= i < |older| ==> older[i].aggregateId != id)
    requires forall i :: 0 <= i < |group| ==> group[i].aggregateId == id
    ensures Aggregates(older + group) == Aggregates(older) + [id]
  {
    var front, e := group[..|group| - 1], group[|group| - 1];
    assert (older + front) + [e] == older + group && group == front + [e];
    RowAdded(older + front, e);
    RowsOfOther(older, id);
    hide Aggregates, RowsOf;
    if front == [] {
      assert older + front == older;
    } else {
      GroupAdded(older, front, id);
    }
  }

  lemma {:induction false} WritesOfOlder(ids: seq<string>, older: seq<Event>, group: seq<Event>, id: string, snaps: Snapshots)
    requires id !in ids && forall i :: 0 <= i < |group| ==> group[i].aggregateId == id
    ensures OrderWrites(ids, older + group, snaps) == OrderWrites(ids, older, snaps)
  {
    hide AggregateWrites, RowsOf;
    if ids != [] {
      var front, last := ids[..|ids| - 1], ids[|ids| - 1];
      assert last != id && id !in front;
      WritesOfOlder(front, older, group, id, snaps);
      RowsOfAdded(older, group, id, last);
    }
  }

  lemma WriteAppended(ids: seq<string>, id: string, rows: seq<Event>, snaps: Snapshots)
    ensures OrderWrites(ids + [id], rows, snaps) == OrderWrites(ids, rows, snaps) + AggregateWrites(id, RowsOf(rows, id), snaps)
  {
    hide AggregateWrites, RowsOf;
    assert (ids + [id])[..|ids|] == ids;
  }

  /** The writes for an older part and one more aggregate. */
  lemma WritesAdded(older: seq<Event>, group: seq<Event>, id: string, snaps: Snapshots)
    requires group != [] && (forall i :: 0 <= i < |older| ==> older[i].aggregateId != id)
    requires forall i :: 0 <= i < |group| ==> group[i].aggregateId == id
    ensures OrderWrites(Aggregates(older + group), older + group, snaps)
         == OrderWrites(Aggregates(older), older, snaps) + AggregateWrites(id, group, snaps)
  {
    hide AggregateWrites, RowsOf, Aggregates, OrderWrites;
    GroupAdded(older, group, id);
    RowsOfOther(older, id);
    RowsOfAdded(older, group, id, id);
    assert [] + group == group;
    WritesOfOlder(Aggregates(older), older, group, id, snaps);
    WriteAppended(Aggregates(older), id, older + group, snaps);
  }

  /** The loop's state for the current aggregate. */
  ghost predicate Current(c: Cursor, id: string, group: seq<Event>, snaps: Snapshots) {
    var v := if snaps(id).Some? then snaps(id).value.version else 0;
    && c.aggregateId == Some(id) && c.snapshotVersion == v && c.lastEventType == LastType(group)
    && c.state == Replay(if snaps(id).Some? then snaps(id).value.state else Initial(id), Newer(group, v))
    && c.hasState == (snaps(id).Some? || Newer(group, v) != [])
  }

  lemma ReplayNext(base: Fields, group: seq<Event>, v: int, e: Event)
    ensures Newer(group + [e], v) == Newer(group, v) + (if e.version > v then [e] else [])
    ensures Replay(base, Newer(group + [e], v))
         == if e.version > v then ApplyEvent(Replay(base, Newer(group, v)), e) else Replay(base, Newer(group, v))
  {
    hide ApplyEvent;
    assert (group + [e])[..|group|] == group;
    assert (Newer(group, v) + [e])[..|Newer(group, v)|] == Newer(group, v);
  }

  lemma CurrentNext(c: Cursor, id: string, group: seq<Event>, e: Event, snaps: Snapshots)
    requires Current(c, id, group, snaps) && e.aggregateId == id
    ensures Current(Consume(c, e), id, group + [e], snaps)
  {
    hide ApplyEvent;
    var v := if snaps(id).Some? then snaps(id).value.version else 0;
    ReplayNext(if snaps(id).Some? then snaps(id).value.state else Initial(id), group, v, e);
  }

  lemma CurrentFirst(c: Cursor, id: string, e: Event, snaps: Snapshots)
    requires e.aggregateId == id
    ensures Current(Consume(Enter(c, id, snaps), e), id, [e], snaps)
  {
    hide ApplyEvent, Replay, Newer;
    var v := if snaps(id).Some? then snaps(id).value.version else 0;
    var base := if snaps(id).Some? then snaps(id).value.state else Initial(id);
    ReplayNext(base, [], v, e);
    assert [] + [e] == [e];
    NothingNewer(base, v);
  }

  lemma NothingNewer(base: Fields, v: int)
    ensures Newer([], v) == [] && Replay(base, []) == base
  {
  }

  lemma FlushWrites(c: Cursor, id: string, group: seq<Event>, snaps: Snapshots)
    requires Current(c, id, group, snaps) && Ascending(group)
    ensures Flush(c).orders == c.orders + AggregateWrites(id, group, snaps)
    ensures Flush(c).counts == c.counts.(orderCount := c.counts.orderCount + |AggregateWrites(id, group, snaps)|)
  {
    hide ApplyEvent, Replay;
    var v := if snaps(id).Some? then snaps(id).value.version else 0;
    NewerAscending(group, v);
    SortOrdered(Newer(group, v));
    SortOrdered(group);
  }

  /** What is written belongs to the finished aggregates, and the cursor stands in the last one. */
  ghost predicate ScanOk(rows: seq<Event>, c: Cursor, snaps: Snapshots)
    requires rows != []
  {
    var n, id := GroupStart(rows), rows[|rows| - 1].aggregateId;
    && Current(c, id, rows[n..], snaps)
    && c.orders == OrderWrites(Aggregates(rows[..n]), rows[..n], snaps)
    && c.counts == Counts(|Aggregates(rows)|, |c.orders|, 0, |rows|)
  }

  lemma SameGroup(front: seq<Event>, e: Event, c: Cursor, snaps: Snapshots)
    requires front != [] && front[|front| - 1].aggregateId == e.aggregateId && ScanOk(front, c, snaps)
    ensures ScanOk(front + [e], StepRow(c, e, snaps), snaps)
  {
    hide Current, OrderWrites, Consume, Aggregates;
    var rows, id, m := front + [e], e.aggregateId, GroupStart(front);
    assert rows[..|rows| - 1] == front;
    assert rows[m..] == front[m..] + [e] && rows[..m] == front[..m];
    CurrentIs(c, id, front[m..], snaps);
    ConsumeKeeps(c, e);
    CurrentNext(c, id, front[m..], e, snaps);
    SameAggregates(front, e);
  }

  /** Leaving a finished aggregate writes it. */
  lemma GroupFinished(rows: seq<Event>, c: Cursor, snaps: Snapshots)
    requires rows != [] && Grouped(rows) && ScanOk(rows, c, snaps)
    ensures Flush(c).orders == OrderWrites(Aggregates(rows), rows, snaps)
    ensures Flush(c).counts == Counts(|Aggregates(rows)|, |Flush(c).orders|, 0, |rows|)
  {
    hide Current, Consume, Flush, AggregateWrites, RowsOf, OrderWrites, Aggregates, Grouped;
    var n, id := GroupStart(rows), rows[|rows| - 1].aggregateId;
    GroupTogether(rows);
    GroupAscends(rows, n, id);
    FlushWrites(c, id, rows[n..], snaps);
    WritesAdded(rows[..n], rows[n..], id, snaps);
    assert rows[..n] + rows[n..] == rows;
  }

  lemma NewGroup(front: seq<Event>, e: Event, c: Cursor, snaps: Snapshots)
    requires front != [] && front[|front| - 1].aggregateId != e.aggregateId && ScanOk(front, c, snaps)
    requires Grouped(front) && forall i :: 0 <= i < |front| ==> front[i].aggregateId != e.aggregateId
    ensures ScanOk(front + [e], StepRow(c, e, snaps), snaps)
  {
    hide Current, OrderWrites, Consume, Aggregates, Flush, AggregateWrites, RowsOf, Grouped;
    var rows, id := front + [e], e.aggregateId;
    assert rows[|front|..] == [e] && rows[..|front|] == front;
    CurrentIs(c, front[|front| - 1].aggregateId, front[GroupStart(front)..], snaps);
    GroupFinished(front, c, snaps);
    ConsumeKeeps(Enter(Flush(c), id, snaps), e);
    CurrentFirst(Flush(c), id, e, snaps);
    RowsOfOther(front, id);
    RowAdded(front, e);
  }

  lemma FirstRow(e: Event, snaps: Snapshots)
    ensures ScanOk([e], Scan([e], snaps), snaps)
  {
    hide Current, Scan, Consume, Enter, RowsOf, AggregateWrites;
    assert [e][0..] == [e] && [e][..0] == [];
    CurrentFirst(START, e.aggregateId, e, snaps);
    ScanOne(e, [e], snaps);
    EmptyScan(snaps);
  }

  /** The invariant of the one pass, over every prefix of ordered rows. */
  lemma {:induction false} ScanInvariant(rows: seq<Event>, snaps: Snapshots)
    requires Grouped(rows) && rows != []
    ensures ScanOk(rows, Scan(rows, snaps), snaps)
  {
    hide ScanOk, StepRow, Scan, Grouped;
    var front, e := rows[..|rows| - 1], rows[|rows| - 1];
    assert front + [e] == rows;
    if front == [] {
      assert rows == [e];
      FirstRow(e, snaps);
    } else {
      GroupedFront(rows);
      ScanInvariant(front, snaps);
      ScanAppend(front, e, snaps);
      if front[|front| - 1].aggregateId == e.aggregateId {
        SameGroup(front, e, Scan(front, snaps), snaps);
      } else {
        NewAggregate(rows);
        NewGroup(front, e, Scan(front, snaps), snaps);
      }
    }
  }

  lemma NewAggregate(rows: seq<Event>)
    requires Grouped(rows) && |rows| >= 2 && rows[|rows| - 2].aggregateId != rows[|rows| - 1].aggregateId
    ensures forall i :: 0 <= i < |rows| - 1 ==> rows[i].aggregateId != rows[|rows| - 1].aggregateId
  {
    hide Grouped;
    GroupTogether(rows);
  }

  lemma ScanOne(e: Event, rows: seq<Event>, snaps: Snapshots)
    requires rows == [e]
    ensures Scan(rows, snaps) == Consume(Enter(START, e.aggregateId, snaps), e)
    ensures Scan(rows, snaps).orders == [] && Scan(rows, snaps).counts == Counts(1, 0, 0, 1)
    ensures |Aggregates(rows)| == 1
  {
    hide ApplyEvent;
    assert rows[..0] == [];
    assert Scan(rows[..0], snaps) == START;
    assert Aggregates(rows[..0]) == [];
  }

  lemma CurrentIs(c: Cursor, id: string, group: seq<Event>, snaps: Snapshots)
    requires Current(c, id, group, snaps)
    ensures c.aggregateId == Some(id)
  {
  }

  lemma ConsumeKeeps(c: Cursor, e: Event)
    ensures Consume(c, e).orders == c.orders && Consume(c, e).aggregateId == c.aggregateId
    ensures Consume(c, e).counts == c.counts.(eventCount := c.counts.eventCount + 1)
  {
  }

  lemma SameAggregates(front: seq<Event>, e: Event)
    requires front != [] && front[|front| - 1].aggregateId == e.aggregateId
    ensures Aggregates(front + [e]) == Aggregates(front)
  {
    assert (front + [e])[..|front|] == front;
  }

  lemma GroupAscends(rows: seq<Event>, n: nat, id: string)
    requires Grouped(rows) && n <= |rows| && forall i :: n <= i < |rows| ==> rows[i].aggregateId == id
    ensures Ascending(rows[n..])
  {
  }

  /** Scanning ordered rows and flushing once more writes what the rebuild of the whole list writes. */
  lemma ScanWritesAll(rows: seq<Event>, snaps: Snapshots)
    requires Grouped(rows)
    ensures
      var c := Flush(Scan(rows, snaps));
      && c.orders == OrderWrites(Aggregates(rows), rows, snaps)
      && c.counts == Counts(|Aggregates(rows)|, |c.orders|, 0, |rows|)
  {
    hide Flush, OrderWrites, Aggregates, ScanOk, Scan, Grouped;
    if rows == [] {
      EmptyScan(snaps);
    } else {
      ScanInvariant(rows, snaps);
      GroupFinished(rows, Scan(rows, snaps), snaps);
    }
  }

  lemma EmptyScan(snaps: Snapshots)
    ensures Flush(Scan([], snaps)) == START && OrderWrites(Aggregates([]), [], snaps) == [] && Aggregates([]) == []
  {
  }

  lemma ScanAppend(rows: seq<Event>, e: Event, snaps: Snapshots)
    ensures Scan(rows + [e], snaps) == StepRow(Scan(rows, snaps), e, snaps)
  {
    hide StepRow;
    assert (rows + [e])[..|rows|] == rows;
  }

  lemma FlattenStep(pages: seq<seq<Event>>, i: nat, j: nat)
    requires i < |pages| && j < |pages[i]|
    ensures Flatten(pages[..i]) + pages[i][..j + 1] == (Flatten(pages[..i]) + pages[i][..j]) + [pages[i][j]]
  {
  }

  lemma FlattenPage(pages: seq<seq<Event>>, i: nat)
    requires i < |pages|
    ensures Flatten(pages[..i + 1]) == Flatten(pages[..i]) + pages[i]
  {
    assert pages[..i + 1][..i] == pages[..i];
  }

  lemma AssignmentsAppend(rows: seq<Event>, e: Event)
    ensures Assignments(rows + [e]) == Assignments(rows) + (if e.etype == ASSIGNED then [e] else [])
  {
    assert (rows + [e])[..|rows|] == rows;
  }

  /** rebuildFromPages. However the ordered rows are cut into pages and whatever the snapshots, it
      writes the same order read models in the same sequence as rebuildProjections on the whole list,
      with the same counts. */
  method RebuildFromPages(orderPages: seq<seq<Event>>, driverPages: seq<seq<Event>>, snaps: Snapshots)
    returns (orders: seq<OrderWrite>, drivers: seq<Event>, counts: Counts)
    requires Grouped(Flatten(orderPages))
    ensures
      var rows := Flatten(orderPages);
      orders == OrderWrites(Aggregates(rows), rows, snaps)
      && counts == Counts(|Aggregates(rows)|, |orders|, |drivers|, |rows|)
    ensures drivers == Assignments(Flatten(driverPages))
  {
    hide StepRow, Scan, Flush, Assignments, Aggregates, OrderWrites, Grouped, Enter, Consume;
    var c := START;
    assert Scan([], snaps) == START by { EmptyCursor(snaps); }
    for i := 0 to |orderPages|
      invariant c == Scan(Flatten(orderPages[..i]), snaps)
    {
      var page := orderPages[i];
      assert Flatten(orderPages[..i]) + page[..0] == Flatten(orderPages[..i]);
      for j := 0 to |page|
        invariant c == Scan(Flatten(orderPages[..i]) + page[..j], snaps)
      {
        FlattenStep(orderPages, i, j);
        ScanAppend(Flatten(orderPages[..i]) + page[..j], page[j], snaps);
        if c.aggregateId != Some(page[j].aggregateId) {
          StepIs(c, page[j], snaps);
          c := Enter(Flush(c), page[j].aggregateId, snaps);
          c := Consume(c, page[j]);
        } else {
          StepIs(c, page[j], snaps);
          c := Consume(c, page[j]);
        }
      }
      assert page[..|page|] == page;
      FlattenPage(orderPages, i);
    }
    assert orderPages[..|orderPages|] == orderPages;
    ScanWritesAll(Flatten(orderPages), snaps);
    c := Flush(c);
    orders := c.orders;
    drivers := [];
    assert Assignments([]) == [] by { NoAssignments(); }
    for i := 0 to |driverPages|
      invariant drivers == Assignments(Flatten(driverPages[..i]))
    {
      var page := driverPages[i];
      assert Flatten(driverPages[..i]) + page[..0] == Flatten(driverPages[..i]);
      for j := 0 to |page|
        invariant drivers == Assignments(Flatten(driverPages[..i]) + page[..j])
      {
        FlattenStep(driverPages, i, j);
        AssignmentsAppend(Flatten(driverPages[..i]) + page[..j], page[j]);
        if page[j].etype == ASSIGNED {
          drivers := drivers + [page[j]];
        }
      }
      assert page[..|page|] == page;
      FlattenPage(driverPages, i);
    }
    assert driverPages[..|driverPages|] == driverPages;
    counts := c.counts.(driverCount := |drivers|);
  }

  lemma StepIs(c: Cursor, e: Event, snaps: Snapshots)
    ensures StepRow(c, e, snaps) ==
      if c.aggregateId != Some(e.aggregateId) then Consume(Enter(Flush(c), e.aggregateId, snaps), e) else Consume(c, e)
  {
  }

  lemma EmptyCursor(snaps: Snapshots)
    ensures Scan([], snaps) == START
  {
  }

  lemma NoAssignments()
    ensures Assignments([]) == []
  {
  }
}
