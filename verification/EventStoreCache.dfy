/** The synchronous parts of EventStoreCore in backend/eventsourcing/event-sourcing-core.js: what runs
    between two awaits. A load is known by its owner, a number that is never used twice. */
module EventStoreCache {
  import opened OrderEvents
  import opened Wrappers

  /** One aggregate's entry in eventStreams and in _eventLoads. */
  datatype Slot = Slot(cache: Option<seq<Event>>, owner: Option<nat>)

  datatype Snapshot = Snapshot(version: int, state: Fields)

  /** What calling _loadCached comes to: a value at once, someone else's load, or a load of one's own. */
  datatype Outcome = Cached(value: seq<Event>) | Join(owner: nat) | Start(owner: nat)

  predicate HasVersion(stream: seq<Event>, v: int) {
    exists i :: 0 <= i < |stream| && stream[i].version == v
  }

  function LastVersion(stream: seq<Event>): int {
    if stream == [] then 0 else stream[|stream| - 1].version
  }

  /** _cacheEvent on one slot. */
  function WithEvent(slot: Slot, e: Event): Slot {
    if slot.cache.None? then Slot(None, None)
    else
      var stream := slot.cache.value;
      if HasVersion(stream, e.version) then Slot(Some(stream), None)
      else if LastVersion(stream) != e.version - 1 then Slot(None, None)
      else Slot(Some(stream + [e]), None)
  }

  function Lookup(slot: Slot, newOwner: nat): Outcome {
    if slot.cache.Some? then Cached(slot.cache.value)
    else if slot.owner.Some? then Join(slot.owner.value)
    else Start(newOwner)
  }

  function AfterLookup(slot: Slot, newOwner: nat): Slot {
    if slot.cache.None? && slot.owner.None? then Slot(None, Some(newOwner)) else slot
  }

  /** The events that a state is rebuilt from. */
  function Applied(snap: Option<Snapshot>, events: seq<Event>): seq<Event> {
    SortByVersion(Newer(events, if snap.Some? then snap.value.version else 0))
  }

  /** The state that getAggregateState computes from a snapshot and a stream. */
  function Rebuilt(aggregateId: string, snap: Option<Snapshot>, events: seq<Event>): Option<Fields> {
    var newer := Applied(snap, events);
    if snap.None? && newer == [] then None
    else Some(Replay(if snap.Some? then snap.value.state else Initial(aggregateId), newer))
  }

  /** On a numbered stream the filter and the sort come to a suffix. */
  lemma RebuiltNumbered(aggregateId: string, snap: Option<Snapshot>, events: seq<Event>)
    requires Numbered(events) && (snap.Some? ==> snap.value.version >= 0)
    ensures
      var v := if snap.Some? then snap.value.version else 0;
      var newer := if v <= |events| then events[v..] else [];
      Rebuilt(aggregateId, snap, events) ==
        if snap.None? && newer == [] then None
        else Some(Replay(if snap.Some? then snap.value.state else Initial(aggregateId), newer))
  {
    var v := if snap.Some? then snap.value.version else 0;
    NumberedAscending(events);
    NewerAscending(events, v);
    SortOrdered(Newer(events, v));
    NewerNumbered(events, v);
  }

  /** The status of a rebuilt order is that of the last applied event that writes it, whatever came before. */
  lemma RebuiltStatus(aggregateId: string, snap: Option<Snapshot>, events: seq<Event>, k: nat)
    requires LastWriter(Applied(snap, events), k, "status")
    ensures
      var state, e := Rebuilt(aggregateId, snap, events), Applied(snap, events)[k];
      state.Some? && "status" in state.value && state.value["status"] ==
        if e.etype == "ORDER_CREATED" then Text("CREATED")
        else if e.etype == "ORDER_CANCELLED" then Text("CANCELLED")
        else if e.etype == "DRIVER_ASSIGNED" then Text("ASSIGNED")
        else e.payload["status"]
  {
    hide Replay, SortByVersion, Newer;
    StatusIs(if snap.Some? then snap.value.state else Initial(aggregateId), Applied(snap, events), k);
  }

  /** Reason and time of its cancellation, and its driver, are those of the last event that writes them. */
  lemma RebuiltDetail(aggregateId: string, snap: Option<Snapshot>, events: seq<Event>, k: nat, field: string)
    requires field in ["reason", "cancelledAt", "driverId"] && LastWriter(Applied(snap, events), k, field)
    ensures
      var state, e := Rebuilt(aggregateId, snap, events), Applied(snap, events)[k];
      state.Some? && field in state.value && state.value[field] == if field in e.payload then e.payload[field] else Undefined
  {
    hide Replay, SortByVersion, Newer;
    var base := if snap.Some? then snap.value.state else Initial(aggregateId);
    if field == "driverId" {
      DriverIs(base, Applied(snap, events), k);
    } else {
      CancellationIs(base, Applied(snap, events), k, field);
    }
  }

  /** A field that no applied event writes is the snapshot's, or one of the two that a new order has. */
  lemma RebuiltUntouched(aggregateId: string, snap: Option<Snapshot>, events: seq<Event>, field: string)
    requires Rebuilt(aggregateId, snap, events).Some?
    requires forall i :: 0 <= i < |Applied(snap, events)| ==> !Writes(Applied(snap, events)[i], field)
    ensures Get(Rebuilt(aggregateId, snap, events).value, field) ==
      if snap.Some? then Get(snap.value.state, field)
      else if field == "id" then Text(aggregateId) else if field == "version" then Num(0) else Undefined
  {
    hide Replay, SortByVersion, Newer, Writes;
    FieldIsInitial(if snap.Some? then snap.value.state else Initial(aggregateId), Applied(snap, events), field);
  }

  class EventStoreCore {
    var eventStreams: map<string, seq<Event>>
    var eventLoads: map<string, nat>

    constructor ()
      ensures eventStreams == map[] && eventLoads == map[]
    {
      eventStreams, eventLoads := map[], map[];
    }

    function SlotOf(aggregateId: string): Slot
      reads this
    {
      Slot(if aggregateId in eventStreams then Some(eventStreams[aggregateId]) else None,
           if aggregateId in eventLoads then Some(eventLoads[aggregateId]) else None)
    }

    /** clearCache, of one aggregate or of all. */
    method ClearCache(aggregateId: Option<string>)
      modifies this
      ensures aggregateId.None? ==> forall id :: SlotOf(id) == Slot(None, None)
      ensures aggregateId.Some? ==> SlotOf(aggregateId.value) == Slot(None, None)
      ensures aggregateId.Some? ==> forall id :: id != aggregateId.value ==> SlotOf(id) == old(SlotOf(id))
    {
      if aggregateId.None? {
        eventStreams, eventLoads := map[], map[];
      } else {
        eventStreams := eventStreams - {aggregateId.value};
        eventLoads := eventLoads - {aggregateId.value};
      }
    }

    /** _loadCached up to its return. */
    method LoadCached(aggregateId: string, newOwner: nat) returns (r: Outcome)
      modifies this
      ensures r == Lookup(old(SlotOf(aggregateId)), newOwner)
      ensures SlotOf(aggregateId) == AfterLookup(old(SlotOf(aggregateId)), newOwner)
      ensures forall id :: id != aggregateId ==> SlotOf(id) == old(SlotOf(id))
    {
      if aggregateId in eventStreams {
        return Cached(eventStreams[aggregateId]);
      }
      if aggregateId in eventLoads {
        return Join(eventLoads[aggregateId]);
      }
      eventLoads := eventLoads[aggregateId := newOwner];
      r := Start(newOwner);
    }

    /** The then-part of a load: publish as the current owner, or look again. */
    method Publish(aggregateId: string, owner: nat, value: seq<Event>, newOwner: nat) returns (r: Outcome)
      modifies this
      ensures old(SlotOf(aggregateId)).owner == Some(owner) ==>
        r == Cached(value) && SlotOf(aggregateId) == Slot(Some(value), Some(owner))
      ensures old(SlotOf(aggregateId)).owner != Some(owner) ==>
        r == Lookup(old(SlotOf(aggregateId)), newOwner)
        && SlotOf(aggregateId) == AfterLookup(old(SlotOf(aggregateId)), newOwner)
      ensures forall id :: id != aggregateId ==> SlotOf(id) == old(SlotOf(id))
    {
      if aggregateId !in eventLoads || eventLoads[aggregateId] != owner {
        r := LoadCached(aggregateId, newOwner);
        return;
      }
      eventStreams := eventStreams[aggregateId := value];
      r := Cached(value);
    }

    /** The finally-part of a load. */
    method Release(aggregateId: string, owner: nat)
      modifies this
      ensures SlotOf(aggregateId).cache == old(SlotOf(aggregateId)).cache
      ensures SlotOf(aggregateId).owner == if old(SlotOf(aggregateId)).owner == Some(owner) then None else old(SlotOf(aggregateId)).owner
      ensures forall id :: id != aggregateId ==> SlotOf(id) == old(SlotOf(id))
    {
      if aggregateId in eventLoads && eventLoads[aggregateId] == owner {
        eventLoads := eventLoads - {aggregateId};
      }
    }

    /** _cacheEvent. */
    method CacheEvent(aggregateId: string, e: Event)
      modifies this
      ensures SlotOf(aggregateId) == WithEvent(old(SlotOf(aggregateId)), e)
      ensures aggregateId !in eventLoads && (aggregateId !in old(eventStreams) ==> aggregateId !in eventStreams)
      ensures aggregateId in old(eventStreams) ==>
        var stream := old(eventStreams)[aggregateId];
        if exists i :: 0 <= i < |stream| && stream[i].version == e.version
        then aggregateId in eventStreams && eventStreams[aggregateId] == stream
        else if e.version == (if stream == [] then 0 else stream[|stream| - 1].version) + 1
        then aggregateId in eventStreams && eventStreams[aggregateId] == stream + [e]
        else aggregateId !in eventStreams
      ensures forall id :: id != aggregateId ==> SlotOf(id) == old(SlotOf(id))
    {
      eventLoads := eventLoads - {aggregateId};
      if aggregateId !in eventStreams {
        return;
      }
      var stream := eventStreams[aggregateId];
      for i := 0 to |stream|
        invariant forall k :: 0 <= k < i ==> stream[k].version != e.version
      {
        if stream[i].version == e.version {
          return;
        }
      }
      if LastVersion(stream) != e.version - 1 {
        eventStreams := eventStreams - {aggregateId};
        return;
      }
      eventStreams := eventStreams[aggregateId := stream + [e]];
    }
  }

  /** The replay loop of getAggregateState and rebuildFromRows. */
  method RebuildState(aggregateId: string, snap: Option<Snapshot>, events: seq<Event>) returns (state: Option<Fields>)
    ensures state == Rebuilt(aggregateId, snap, events)
  {
    var snapshotVersion := if snap.Some? then snap.value.version else 0;
    var fields := if snap.Some? then snap.value.state else Initial(aggregateId);
    var start := fields;
    var eventsToApply := SortByVersion(Newer(events, snapshotVersion));
    if snap.None? && |eventsToApply| == 0 {
      return None;
    }
    for i := 0 to |eventsToApply|
      invariant fields == Replay(start, eventsToApply[..i])
    {
      assert eventsToApply[..i + 1][..i] == eventsToApply[..i];
      fields := ApplyEvent(fields, eventsToApply[i]);
    }
    assert eventsToApply[..|eventsToApply|] == eventsToApply;
    state := Some(fields);
  }
}
