/** Order events and the reducer of backend/eventsourcing/event-sourcing-core.js. An event overwrites
    fields with values that depend on the event alone, so replay is a right-biased map union. */
module OrderEvents {
  type Fields = map<string, Value>
  datatype Value = Undefined | Null | Num(n: int) | Text(s: string) | Obj(fields: Fields)

  datatype Event = Event(id: string, etype: string, aggregateId: string, payload: Fields, version: int, timestamp: string)

  const CREATED := "ORDER_CREATED"
  const UPDATED := "ORDER_UPDATED"
  const CANCELLED := "ORDER_CANCELLED"
  const ASSIGNED := "DRIVER_ASSIGNED"

  /** Reading a property that is not there gives undefined. */
  function Get(m: Fields, key: string): Value { if key in m then m[key] else Undefined }

  /** applyEvent. */
  function ApplyEvent(state: Fields, e: Event): Fields {
    if e.etype == CREATED then (state + e.payload)["status" := Text("CREATED")]["version" := Num(e.version)]
    else if e.etype == UPDATED then (state + e.payload)["version" := Num(e.version)]
    else if e.etype == CANCELLED then
      state["status" := Text("CANCELLED")]["cancelledAt" := Get(e.payload, "cancelledAt")]
           ["reason" := Get(e.payload, "reason")]["version" := Num(e.version)]
    else if e.etype == ASSIGNED then
      state["driverId" := Get(e.payload, "driverId")]["status" := Text("ASSIGNED")]["version" := Num(e.version)]
    else state
  }

  function Replay(state: Fields, events: seq<Event>): Fields {
    if events == [] then state else ApplyEvent(Replay(state, events[..|events| - 1]), events[|events| - 1])
  }

  predicate Known(e: Event) { e.etype == CREATED || e.etype == UPDATED || e.etype == CANCELLED || e.etype == ASSIGNED }

  function VersionOf(state: Fields): int {
    if "version" in state && state["version"].Num? then state["version"].n else 0
  }

  function Initial(aggregateId: string): Fields { map["id" := Text(aggregateId), "version" := Num(0)] }

  // ---- events as overwrites -----------------------------------------------

  /** The fields an event writes. */
  function Delta(e: Event): Fields { ApplyEvent(map[], e) }

  function Changes(events: seq<Event>): Fields {
    if events == [] then map[] else Changes(events[..|events| - 1]) + Delta(events[|events| - 1])
  }

  lemma ApplyIsOverwrite(state: Fields, e: Event)
    ensures ApplyEvent(state, e) == state + Delta(e)
  {
  }

  lemma MergeAssoc(a: Fields, b: Fields, c: Fields)
    ensures (a + b) + c == a + (b + c)
  {
  }

  /** Replaying is one overwrite by the combined changes. */
  lemma {:induction false} ReplayIsChanges(state: Fields, events: seq<Event>)
    ensures Replay(state, events) == state + Changes(events)
  {
    hide ApplyEvent;
    if events == [] {
      assert state + map[] == state;
    } else {
      var front, e := events[..|events| - 1], events[|events| - 1];
      ReplayIsChanges(state, front);
      ApplyIsOverwrite(state + Changes(front), e);
      MergeAssoc(state, Changes(front), Delta(e));
    }
  }

  lemma {:induction false} ChangesConcat(a: seq<Event>, b: seq<Event>)
    ensures Changes(a + b) == Changes(a) + Changes(b)
  {
    hide Delta;
    if b == [] {
      assert a + b == a && Changes(a) + map[] == Changes(a);
    } else {
      var front := b[..|b| - 1];
      ChangesConcat(a, front);
      assert (a + b)[..|a + b| - 1] == a + front;
      MergeAssoc(Changes(a), Changes(front), Delta(b[|b| - 1]));
    }
  }

  // ---- what the fields of a replayed state are ----------------------------

  /** The fields that an event writes, by its type. */
  predicate Writes(e: Event, field: string) {
    if e.etype == "ORDER_CREATED" then field in e.payload || field == "status" || field == "version"
    else if e.etype == "ORDER_UPDATED" then field in e.payload || field == "version"
    else if e.etype == "ORDER_CANCELLED" then field in ["status", "cancelledAt", "reason", "version"]
    else e.etype == "DRIVER_ASSIGNED" && field in ["status", "driverId", "version"]
  }

  /** All other fields stay. */
  lemma OtherFieldsStay(state: Fields, e: Event, field: string)
    requires !Writes(e, field)
    ensures field in ApplyEvent(state, e) <==> field in state
    ensures field in state ==> ApplyEvent(state, e)[field] == state[field]
  {
  }

  /** What each type of event leaves in the fields that it writes. */
  lemma WrittenFields(state: Fields, e: Event)
    ensures
      var next := ApplyEvent(state, e);
      && (e.etype in ["ORDER_CREATED", "ORDER_UPDATED", "ORDER_CANCELLED", "DRIVER_ASSIGNED"] ==>
            "version" in next && next["version"] == Num(e.version))
      && (e.etype == "ORDER_CREATED" ==> "status" in next && next["status"] == Text("CREATED"))
      && (e.etype == "ORDER_CANCELLED" ==> "status" in next && next["status"] == Text("CANCELLED"))
      && (e.etype == "DRIVER_ASSIGNED" ==> "status" in next && next["status"] == Text("ASSIGNED"))
      && (e.etype == "ORDER_CANCELLED" ==> forall f :: f in ["reason", "cancelledAt"] ==>
            f in next && next[f] == if f in e.payload then e.payload[f] else Undefined)
      && (e.etype == "DRIVER_ASSIGNED" ==>
            "driverId" in next && next["driverId"] == if "driverId" in e.payload then e.payload["driverId"] else Undefined)
      && (e.etype == "ORDER_CREATED" ==> forall f :: f in e.payload && f != "status" && f != "version" ==>
            f in next && next[f] == e.payload[f])
      && (e.etype == "ORDER_UPDATED" ==> forall f :: f in e.payload && f != "version" ==> f in next && next[f] == e.payload[f])
  {
  }

  /** Since event k nothing has written the field. */
  ghost predicate LastWriter(log: seq<Event>, k: nat, field: string) {
    k < |log| && Writes(log[k], field) && forall i :: k < i < |log| ==> !Writes(log[i], field)
  }

  /** A field that some event wrote is as the last of those left it. */
  lemma {:induction false} FieldIsLastWritten(init: Fields, log: seq<Event>, k: nat, field: string)
    requires LastWriter(log, k, field)
    ensures
      var at, end := ApplyEvent(Replay(init, log[..k]), log[k]), Replay(init, log);
      (field in end <==> field in at) && (field in at ==> end[field] == at[field])
    decreases |log|
  {
    hide ApplyEvent, Writes;
    var front, e := log[..|log| - 1], log[|log| - 1];
    if k < |front| {
      FieldIsLastWritten(init, front, k, field);
      assert front[..k] == log[..k];
      OtherFieldsStay(Replay(init, front), e, field);
    } else {
      assert log[..k] == front;
    }
  }

  /** A field that no event wrote is as it was at the start. */
  lemma {:induction false} FieldIsInitial(init: Fields, log: seq<Event>, field: string)
    requires forall i :: 0 <= i < |log| ==> !Writes(log[i], field)
    ensures (field in Replay(init, log) <==> field in init) && (field in init ==> Replay(init, log)[field] == init[field])
  {
    hide ApplyEvent, Writes;
    if log != [] {
      FieldIsInitial(init, log[..|log| - 1], field);
      OtherFieldsStay(Replay(init, log[..|log| - 1]), log[|log| - 1], field);
    }
  }

  /** The status of a replayed order is that of the last event that writes it. */
  lemma StatusIs(init: Fields, log: seq<Event>, k: nat)
    requires LastWriter(log, k, "status")
    ensures
      "status" in Replay(init, log) && Replay(init, log)["status"] ==
        if log[k].etype == "ORDER_CREATED" then Text("CREATED")
        else if log[k].etype == "ORDER_CANCELLED" then Text("CANCELLED")
        else if log[k].etype == "DRIVER_ASSIGNED" then Text("ASSIGNED")
        else log[k].payload["status"]
  {
    hide ApplyEvent;
    FieldIsLastWritten(init, log, k, "status");
    WrittenFields(Replay(init, log[..k]), log[k]);
  }

  /** Reason and time of the cancellation are those in its payload, until a later event writes them. */
  lemma CancellationIs(init: Fields, log: seq<Event>, k: nat, field: string)
    requires field in ["reason", "cancelledAt"] && LastWriter(log, k, field)
    ensures
      field in Replay(init, log) && Replay(init, log)[field] ==
        if field in log[k].payload then log[k].payload[field] else Undefined
  {
    hide ApplyEvent;
    FieldIsLastWritten(init, log, k, field);
    WrittenFields(Replay(init, log[..k]), log[k]);
  }

  /** So is the driver. */
  lemma DriverIs(init: Fields, log: seq<Event>, k: nat)
    requires LastWriter(log, k, "driverId")
    ensures
      "driverId" in Replay(init, log) && Replay(init, log)["driverId"] ==
        if "driverId" in log[k].payload then log[k].payload["driverId"] else Undefined
  {
    hide ApplyEvent;
    FieldIsLastWritten(init, log, k, "driverId");
    WrittenFields(Replay(init, log[..k]), log[k]);
  }

  // ---- states that replay catches up from ---------------------------------

  /** Replaying the log from position v on top of this state gives what replaying everything gives. */
  ghost predicate Caught(state: Fields, v: int, init: Fields, log: seq<Event>) {
    0 <= v <= |log| && Replay(state, log[v..]) == Replay(init, log)
  }

  lemma CaughtMeans(state: Fields, v: int, init: Fields, log: seq<Event>)
    requires 0 <= v <= |log|
    ensures Caught(state, v, init, log) <==> state + Changes(log[v..]) == init + Changes(log)
  {
    ReplayIsChanges(state, log[v..]);
    ReplayIsChanges(init, log);
  }

  lemma CaughtInitially(init: Fields, log: seq<Event>)
    ensures Caught(init, 0, init, log)
  {
    assert log[0..] == log;
  }

  /** Later events do not disturb it. */
  lemma CaughtAppend(state: Fields, v: int, init: Fields, log: seq<Event>, e: Event)
    requires Caught(state, v, init, log)
    ensures Caught(state, v, init, log + [e])
  {
    var longer := log + [e];
    assert longer[v..] == log[v..] + [e];
    assert longer[v..][..|longer[v..]| - 1] == log[v..] && longer[..|longer| - 1] == log;
  }

  /** Starting the replay earlier, so that events are applied a second time, changes nothing. */
  lemma CaughtEarlier(state: Fields, v: int, k: int, init: Fields, log: seq<Event>)
    requires Caught(state, v, init, log) && 0 <= k <= v
    ensures Caught(state, k, init, log)
  {
    hide Replay, Delta, Changes;
    CaughtMeans(state, v, init, log);
    CaughtMeans(state, k, init, log);
    assert log == log[..k] + log[k..] && log[k..] == log[k..v] + log[v..];
    ChangesConcat(log[..k], log[k..]);
    ChangesConcat(log[k..v], log[v..]);
    OverwriteAgain(state, init + Changes(log[..k]), Changes(log[k..v]), Changes(log[v..]));
    MergeAssoc(init, Changes(log[..k]), Changes(log[k..]));
    MergeAssoc(init + Changes(log[..k]), Changes(log[k..v]), Changes(log[v..]));
    MergeAssoc(state, Changes(log[k..v]), Changes(log[v..]));
  }

  lemma OverwriteAgain(state: Fields, base: Fields, middle: Fields, last: Fields)
    requires state + last == base + (middle + last)
    ensures state + (middle + last) == base + (middle + last)
  {
    var l, r := state + (middle + last), base + (middle + last);
    forall x | x in l.Keys || x in r.Keys ensures x in l.Keys && x in r.Keys && l[x] == r[x] {
      assert x in (state + last).Keys <==> x in r.Keys;
      if x !in middle + last {
        assert x in state <==> x in state + last;
      }
    }
  }

  /** Replaying the next part of the log keeps a state caught up, now to a later position. */
  lemma CaughtReplay(state: Fields, v: int, j: int, init: Fields, log: seq<Event>)
    requires Caught(state, v, init, log) && v <= j <= |log|
    ensures Caught(Replay(state, log[v..j]), j, init, log)
  {
    hide Replay, Delta, Changes;
    ReplayIsChanges(state, log[v..j]);
    CaughtMeans(state, v, init, log);
    CaughtMeans(state + Changes(log[v..j]), j, init, log);
    assert log[v..] == log[v..j] + log[j..];
    ChangesConcat(log[v..j], log[j..]);
    MergeAssoc(state, Changes(log[v..j]), Changes(log[j..]));
  }

  /** Caught up with the whole log is being its replay. */
  lemma CaughtUp(state: Fields, init: Fields, log: seq<Event>)
    requires Caught(state, |log|, init, log)
    ensures state == Replay(init, log)
  {
    assert log[|log|..] == [];
  }

  ghost predicate AllKnown(log: seq<Event>) { forall i :: 0 <= i < |log| ==> Known(log[i]) }

  /** Events numbered from 1. */
  ghost predicate Numbered(log: seq<Event>) { forall i :: 0 <= i < |log| ==> log[i].version == i + 1 }

  /** A non-empty stretch of known events leaves its last version number in the state. */
  lemma VersionAfter(state: Fields, events: seq<Event>)
    requires events != [] && Known(events[|events| - 1])
    ensures VersionOf(Replay(state, events)) == events[|events| - 1].version
  {
  }

  // ---- filter and sort ----------------------------------------------------

  function Newer(events: seq<Event>, v: int): seq<Event> {
    if events == [] then []
    else
      var front, e := Newer(events[..|events| - 1], v), events[|events| - 1];
      if e.version > v then front + [e] else front
  }

  /** A stable insertion by version. */
  function Insert(sorted: seq<Event>, e: Event): seq<Event> {
    if sorted == [] then [e]
    else if sorted[|sorted| - 1].version <= e.version then sorted + [e]
    else Insert(sorted[..|sorted| - 1], e) + [sorted[|sorted| - 1]]
  }

  /** sort((a, b) => a.version - b.version). */
  function SortByVersion(events: seq<Event>): seq<Event> {
    if events == [] then [] else Insert(SortByVersion(events[..|events| - 1]), events[|events| - 1])
  }

  ghost predicate Ascending(events: seq<Event>) {
    forall i, j :: 0 <= i < j < |events| ==> events[i].version <= events[j].version
  }

  /** The events with one version, in their order. */
  function WithVersion(events: seq<Event>, v: int): seq<Event> {
    if events == [] then []
    else
      var front, e := WithVersion(events[..|events| - 1], v), events[|events| - 1];
      if e.version == v then front + [e] else front
  }

  lemma WithVersionAppend(events: seq<Event>, e: Event, v: int)
    ensures WithVersion(events + [e], v) == WithVersion(events, v) + (if e.version == v then [e] else [])
  {
    assert (events + [e])[..|events|] == events;
  }

  lemma {:induction false} InsertMembers(sorted: seq<Event>, e: Event)
    ensures multiset(Insert(sorted, e)) == multiset(sorted) + multiset{e}
  {
    if sorted != [] {
      assert sorted == sorted[..|sorted| - 1] + [sorted[|sorted| - 1]];
      InsertMembers(sorted[..|sorted| - 1], e);
    }
  }

  lemma AscendingAppend(events: seq<Event>, e: Event)
    requires Ascending(events) && forall i :: 0 <= i < |events| ==> events[i].version <= e.version
    ensures Ascending(events + [e])
  {
  }

  lemma {:induction false} InsertAscending(sorted: seq<Event>, e: Event)
    requires Ascending(sorted)
    ensures Ascending(Insert(sorted, e))
  {
    if sorted != [] {
      var front, last := sorted[..|sorted| - 1], sorted[|sorted| - 1];
      if last.version <= e.version {
        AscendingAppend(sorted, e);
      } else {
        InsertAscending(front, e);
        InsertMembers(front, e);
        var r := Insert(front, e);
        forall i | 0 <= i < |r| ensures r[i].version <= last.version {
          assert r[i] in multiset(r);
          assert r[i] == e || r[i] in front;
        }
        AscendingAppend(r, last);
      }
    }
  }

  lemma {:induction false} InsertStable(sorted: seq<Event>, e: Event, v: int)
    ensures WithVersion(Insert(sorted, e), v) == WithVersion(sorted, v) + (if e.version == v then [e] else [])
  {
    hide WithVersion;
    if sorted == [] || sorted[|sorted| - 1].version <= e.version {
      assert Insert(sorted, e) == sorted + [e];
      WithVersionAppend(sorted, e, v);
    } else {
      var front, last := sorted[..|sorted| - 1], sorted[|sorted| - 1];
      assert sorted == front + [last];
      InsertStable(front, e, v);
      WithVersionAppend(Insert(front, e), last, v);
      WithVersionAppend(front, last, v);
    }
  }

  /** The sort: ascending, the same events, and those with one version in their old order. */
  lemma {:induction false} SortIsStable(events: seq<Event>)
    ensures Ascending(SortByVersion(events)) && multiset(SortByVersion(events)) == multiset(events)
    ensures forall v :: WithVersion(SortByVersion(events), v) == WithVersion(events, v)
  {
    if events != [] {
      var front, e := events[..|events| - 1], events[|events| - 1];
      assert events == front + [e];
      SortIsStable(front);
      InsertMembers(SortByVersion(front), e);
      InsertAscending(SortByVersion(front), e);
      forall v ensures WithVersion(SortByVersion(events), v) == WithVersion(events, v) {
        InsertStable(SortByVersion(front), e, v);
        WithVersionAppend(front, e, v);
      }
    }
  }

  /** A stable sort leaves an ordered list as it is. */
  lemma {:induction false} SortOrdered(events: seq<Event>)
    requires Ascending(events)
    ensures SortByVersion(events) == events
  {
    if events != [] {
      var front := events[..|events| - 1];
      SortOrdered(front);
      assert events == front + [events[|events| - 1]];
    }
  }

  lemma {:induction false} NewerAscending(events: seq<Event>, v: int)
    requires Ascending(events)
    ensures Ascending(Newer(events, v)) && forall e :: e in Newer(events, v) ==> e in events
  {
    if events != [] {
      var front, e := events[..|events| - 1], events[|events| - 1];
      NewerAscending(front, v);
      forall f | f in Newer(front, v) ensures f.version <= e.version && f in events {
        var i :| 0 <= i < |front| && front[i] == f;
        assert events[i] == f;
      }
    }
  }

  /** On a numbered stream the filter is a suffix. */
  lemma {:induction false} NewerNumbered(events: seq<Event>, v: int)
    requires Numbered(events) && v >= 0
    ensures Newer(events, v) == if v <= |events| then events[v..] else []
  {
    if events != [] {
      var front := events[..|events| - 1];
      NewerNumbered(front, v);
      if v <= |front| {
        assert events[v..] == front[v..] + [events[|events| - 1]];
      }
    }
  }

  lemma NumberedAscending(events: seq<Event>)
    requires Numbered(events)
    ensures Ascending(events)
  {
  }
}
