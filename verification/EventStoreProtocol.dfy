/** The event store as interleaved atomic steps, cut at every await: several instances, each with
    its cache, and any number of tasks, over one table with unique (aggregate, version). One
    aggregate is followed; the slots of different aggregates do not touch. */
module EventStoreProtocol {
  import opened OrderEvents
  import opened EventStoreCache
  import opened Wrappers

  // ---- state --------------------------------------------------------------

  datatype Promise = Fetching | Fetched(value: seq<Event>) | Done(value: seq<Event>) | Failed | Follow(owner: nat)

  /** A load in flight. `floor` is what its instance had seen when it began. */
  datatype Load = Load(inst: nat, floor: nat, promise: Promise)

  /** `floor` is the highest version the instance has published in its cache or appended itself. */
  datatype Instance = Instance(slot: Slot, floor: nat)

  datatype Command = CreateOrder(payload: Fields) | UpdateOrder(payload: Fields)
                   | CancelOrder(payload: Fields, timestamp: string) | AssignDriver(payload: Fields, timestamp: string)

  /** Where an append comes from: a caller of storeEvent, or a command that saw this state. */
  datatype Basis = Direct | Seen(state: Option<Fields>)

  datatype Draft = Draft(etype: string, payload: Fields, basis: Basis)

  /** What the caller of getEventStream does with the stream. */
  datatype Goal = Read | Policy | Execute(command: Command) | TakeSnapshot(upTo: int)

  datatype Task =
    | Idle
    | Want(inst: nat, goal: Goal, snap: Option<Snapshot>)
    | Wait(inst: nat, goal: Goal, snap: Option<Snapshot>, owner: nat, need: nat)
    | Have(inst: nat, goal: Goal, snap: Option<Snapshot>, events: seq<Event>, need: nat)
    | Reading(inst: nat, draft: Draft, expected: Option<int>)
    | Ready(inst: nat, draft: Draft, next: int)
    | Committed(inst: nat, event: Event)
    | Storing(inst: nat, snapshot: Snapshot)

  /** rows is the event table, snapshots every snapshot ever stored, commanded the versions that
      commands wrote. */
  datatype System = System(aggregateId: string, rows: map<int, Event>, commanded: set<int>, snapshots: set<Snapshot>,
                           instances: map<nat, Instance>, loads: map<nat, Load>, tasks: map<nat, Task>)

  // ---- the database contract ----------------------------------------------

  /** The rows in ascending order of version. */
  ghost predicate OrderedRows(rows: map<int, Event>, s: seq<Event>) {
    && (forall i, j :: 0 <= i < j < |s| ==> s[i].version < s[j].version)
    && (forall i :: 0 <= i < |s| ==> s[i].version in rows && rows[s[i].version] == s[i])
    && (forall v :: v in rows ==> rows[v] in s)
  }

  /** fetchLatestVersion; 0 stands for no row. */
  ghost predicate Latest(rows: map<int, Event>, v: int) {
    if rows == map[] then v == 0 else v in rows && forall w :: w in rows ==> w <= v
  }

  // ---- commands -----------------------------------------------------------

  function OrNull(state: Option<Fields>): Value { if state.None? then Null else Obj(state.value) }

  /** executeCommand: the one event of a command, given the state that it saw. */
  function CommandDraft(c: Command, state: Option<Fields>): Draft {
    match c
    case CreateOrder(payload) => Draft(CREATED, payload, Seen(None))
    case UpdateOrder(payload) => Draft(UPDATED, payload["previousState" := OrNull(state)], Seen(state))
    case CancelOrder(payload, at) =>
      Draft(CANCELLED, map["orderId" := Get(payload, "orderId"), "reason" := Get(payload, "reason"),
                           "cancelledAt" := Text(at)], Seen(state))
    case AssignDriver(payload, at) =>
      Draft(ASSIGNED, map["orderId" := Get(payload, "orderId"), "driverId" := Get(payload, "driverId"),
                          "assignedAt" := Text(at)], Seen(state))
  }

  /** What a command does to the order once its one event is applied, with whatever version it gets. */
  lemma CommandEffect(c: Command, seen: Option<Fields>, before: Fields, id: string, aggregateId: string, version: int, at: string)
    ensures
      var draft := CommandDraft(c, seen);
      var after := ApplyEvent(before, Event(id, draft.etype, aggregateId, draft.payload, version, at));
      match c
      case CreateOrder(payload) =>
        && Get(after, "status") == Text("CREATED")
        && forall f :: f in payload && f != "status" && f != "version" ==> Get(after, f) == payload[f]
      case UpdateOrder(payload) =>
        && Get(after, "previousState") == (if seen.Some? then Obj(seen.value) else Null)
        && forall f :: f in payload && f != "previousState" && f != "version" ==> Get(after, f) == payload[f]
      case CancelOrder(payload, time) =>
        && Get(after, "status") == Text("CANCELLED") && Get(after, "cancelledAt") == Text(time)
        && Get(after, "reason") == Get(payload, "reason") && Get(draft.payload, "orderId") == Get(payload, "orderId")
      case AssignDriver(payload, time) =>
        && Get(after, "status") == Text("ASSIGNED") && Get(after, "driverId") == Get(payload, "driverId")
        && Get(draft.payload, "assignedAt") == Text(time) && Get(draft.payload, "orderId") == Get(payload, "orderId")
  {
    var draft := CommandDraft(c, seen);
    var e := Event(id, draft.etype, aggregateId, draft.payload, version, at);
    WrittenFields(before, e);
    hide ApplyEvent;
  }

  /** currentState?.version ?? 0. */
  function ExpectedVersion(state: Option<Fields>): int { if state.None? then 0 else VersionOf(state.value) }

  // ---- steps --------------------------------------------------------------

  datatype Step =
    | StartRead(t: nat, i: nat)
    | StartPolicy(t: nat, i: nat)
    | StartCommand(t: nat, i: nat, command: Command, snap: Option<Snapshot>)
    | StartAppend(t: nat, i: nat, draft: Draft, expected: Option<int>)
    | Call(t: nat, owner: nat)
    | Fetch(o: nat, value: seq<Event>)
    | FetchFails(o: nat)
    | Settle(o: nat, owner: nat)
    | Finish(o: nat)
    | Wake(t: nat)
    | Return(t: nat)
    | ApplyPolicy(t: nat, first: Option<Snapshot>, second: Option<Snapshot>, threshold: int)
    | Decide(t: nat)
    | TakeState(t: nat)
    | ReadVersion(t: nat, current: int)
    | Insert(t: nat, id: string, timestamp: string)
    | Abandon(t: nat)
    | CacheIt(t: nat)
    | Store(t: nat)
    | Clear(i: nat)

  /** getSnapshot gives no snapshot, or one that was stored at some time. */
  ghost predicate SnapshotRead(s: System, snap: Option<Snapshot>) { snap.Some? ==> snap.value in s.snapshots }

  ghost predicate At(s: System, t: nat, i: nat) {
    t in s.tasks && i in s.instances
  }

  function SetTask(s: System, t: nat, task: Task): System { s.(tasks := s.tasks[t := task]) }

  function SetSlot(s: System, i: nat, slot: Slot, floor: nat): System {
    s.(instances := s.instances[i := Instance(slot, floor)])
  }

  /** _loadCached on instance i; a new load takes an unused owner. */
  function LookUp(s: System, i: nat, owner: nat): System
    requires i in s.instances
  {
    var inst := s.instances[i];
    var r := Lookup(inst.slot, owner);
    var s' := SetSlot(s, i, AfterLookup(inst.slot, owner), inst.floor);
    if r.Start? then s'.(loads := s.loads[owner := Load(i, inst.floor, Fetching)]) else s'
  }

  ghost predicate CallStep(s: System, s': System, t: nat, owner: nat) {
    && t in s.tasks && s.tasks[t].Want? && s.tasks[t].inst in s.instances && owner !in s.loads
    && var task := s.tasks[t];
    && var r := Lookup(s.instances[task.inst].slot, owner);
    && var floor := s.instances[task.inst].floor;
    && s' == SetTask(LookUp(s, task.inst, owner), t,
                     if r.Cached? then Have(task.inst, task.goal, task.snap, r.value, floor)
                     else Wait(task.inst, task.goal, task.snap, r.owner, floor))
  }

  function SetPromise(s: System, o: nat, p: Promise): System
    requires o in s.loads
  {
    s.(loads := s.loads[o := s.loads[o].(promise := p)])
  }

  /** The then-part of a load. */
  ghost predicate SettleStep(s: System, s': System, o: nat, owner: nat) {
    && o in s.loads && s.loads[o].promise.Fetched? && s.loads[o].inst in s.instances && owner !in s.loads
    && var i, value := s.loads[o].inst, s.loads[o].promise.value;
    && var slot := s.instances[i].slot;
    && if slot.owner == Some(o)
       then s' == SetPromise(SetSlot(s, i, Slot(Some(value), Some(o)), |value|), o, Done(value))
       else s' == SetPromise(LookUp(s, i, owner), o,
                             if slot.cache.Some? then Done(slot.cache.value) else Follow(Lookup(slot, owner).owner))
  }

  ghost predicate FinishStep(s: System, s': System, o: nat) {
    && o in s.loads && (s.loads[o].promise.Done? || s.loads[o].promise.Failed?) && s.loads[o].inst in s.instances
    && var i := s.loads[o].inst;
    && var inst := s.instances[i];
    && s' == if inst.slot.owner == Some(o) then SetSlot(s, i, inst.slot.(owner := None), inst.floor) else s
  }

  ghost predicate WakeStep(s: System, s': System, t: nat) {
    && t in s.tasks && s.tasks[t].Wait? && s.tasks[t].owner in s.loads
    && var task := s.tasks[t];
    && var p := s.loads[task.owner].promise;
    && match p
       case Done(value) => s' == SetTask(s, t, Have(task.inst, task.goal, task.snap, value, task.need))
       case Failed => s' == SetTask(s, t, Idle)
       case Follow(o) => s' == SetTask(s, t, task.(owner := o))
       case _ => false
  }

  /** Math.max over the versions, from 0 on. */
  function MaxVersion(events: seq<Event>): int {
    if events == [] then 0
    else
      var front, v := MaxVersion(events[..|events| - 1]), events[|events| - 1].version;
      if v > front then v else front
  }

  lemma {:induction false} MaxVersionIs(events: seq<Event>)
    ensures forall i :: 0 <= i < |events| ==> events[i].version <= MaxVersion(events)
    ensures MaxVersion(events) == 0 || (MaxVersion(events) > 0 && exists i :: 0 <= i < |events| && events[i].version == MaxVersion(events))
  {
    if events != [] {
      var front := events[..|events| - 1];
      MaxVersionIs(front);
      if i :| 0 <= i < |front| && front[i].version == MaxVersion(front) {
        assert events[i] == front[i];
      }
    }
  }

  /** checkSnapshot between its two reads: an empty stream or too little growth ends it. */
  ghost predicate PolicyStep(s: System, s': System, t: nat, first: Option<Snapshot>, second: Option<Snapshot>, threshold: int) {
    && t in s.tasks && s.tasks[t].Have? && s.tasks[t].goal.Policy? && SnapshotRead(s, first) && SnapshotRead(s, second)
    && var task := s.tasks[t];
    && var latest := MaxVersion(task.events);
    && var grown := latest - (if first.Some? then first.value.version else 0) >= threshold;
    && s' == SetTask(s, t, if task.events == [] || !grown then Idle else Want(task.inst, TakeSnapshot(latest), second))
  }

  /** getAggregateState returns to executeCommand. */
  ghost predicate DecideStep(s: System, s': System, t: nat) {
    && t in s.tasks && s.tasks[t].Have? && s.tasks[t].goal.Execute?
    && var task := s.tasks[t];
    && var state := Rebuilt(s.aggregateId, task.snap, task.events);
    && s' == SetTask(s, t, Reading(task.inst, CommandDraft(task.goal.command, state), Some(ExpectedVersion(state))))
  }

  /** getAggregateState returns to checkSnapshot. */
  ghost predicate TakeStateStep(s: System, s': System, t: nat) {
    && t in s.tasks && s.tasks[t].Have? && s.tasks[t].goal.TakeSnapshot?
    && var task := s.tasks[t];
    && var state := Rebuilt(s.aggregateId, task.snap, task.events);
    && s' == SetTask(s, t, if state.None? then Idle else Storing(task.inst, Snapshot(task.goal.upTo, state.value)))
  }

  /** appendEvent up to its insert. */
  ghost predicate ReadVersionStep(s: System, s': System, t: nat, current: int) {
    && t in s.tasks && s.tasks[t].Reading? && Latest(s.rows, current)
    && var task := s.tasks[t];
    && s' == SetTask(s, t, if task.expected.Some? && task.expected.value != current then Idle
                           else Ready(task.inst, task.draft, current + 1))
  }

  /** INSERT ... ON CONFLICT DO NOTHING. */
  ghost predicate InsertStep(s: System, s': System, t: nat, id: string, timestamp: string) {
    && t in s.tasks && s.tasks[t].Ready?
    && var task := s.tasks[t];
    && var e := Event(id, task.draft.etype, s.aggregateId, task.draft.payload, task.next, timestamp);
    && if task.next in s.rows then s' == SetTask(s, t, Idle)
       else s' == SetTask(s, t, Committed(task.inst, e)).(
                    rows := s.rows[task.next := e],
                    commanded := if task.draft.basis.Seen? then s.commanded + {task.next} else s.commanded)
  }

  ghost predicate CacheStep(s: System, s': System, t: nat) {
    && t in s.tasks && s.tasks[t].Committed? && s.tasks[t].inst in s.instances
    && var i, e := s.tasks[t].inst, s.tasks[t].event;
    && var inst := s.instances[i];
    && s' == SetTask(SetSlot(s, i, WithEvent(inst.slot, e), if e.version > inst.floor then e.version else inst.floor), t, Idle)
  }

  ghost predicate Next(s: System, s': System, step: Step) {
    match step
    case StartRead(t, i) => At(s, t, i) && s.tasks[t].Idle? && s' == SetTask(s, t, Want(i, Read, None))
    case StartPolicy(t, i) => At(s, t, i) && s.tasks[t].Idle? && s' == SetTask(s, t, Want(i, Policy, None))
    case StartCommand(t, i, command, snap) =>
      && At(s, t, i) && s.tasks[t].Idle? && SnapshotRead(s, snap)
      && s' == SetTask(s, t, if command.CreateOrder? then Reading(i, CommandDraft(command, None), Some(0))
                             else Want(i, Execute(command), snap))
    case StartAppend(t, i, draft, expected) =>
      At(s, t, i) && s.tasks[t].Idle? && draft.basis.Direct? && s' == SetTask(s, t, Reading(i, draft, expected))
    case Call(t, owner) => CallStep(s, s', t, owner)
    case Fetch(o, value) =>
      o in s.loads && s.loads[o].promise.Fetching? && OrderedRows(s.rows, value) && s' == SetPromise(s, o, Fetched(value))
    case FetchFails(o) => o in s.loads && s.loads[o].promise.Fetching? && s' == SetPromise(s, o, Failed)
    case Settle(o, owner) => SettleStep(s, s', o, owner)
    case Finish(o) => FinishStep(s, s', o)
    case Wake(t) => WakeStep(s, s', t)
    case Return(t) => t in s.tasks && s.tasks[t].Have? && s.tasks[t].goal.Read? && s' == SetTask(s, t, Idle)
    case ApplyPolicy(t, first, second, threshold) => PolicyStep(s, s', t, first, second, threshold)
    case Decide(t) => DecideStep(s, s', t)
    case TakeState(t) => TakeStateStep(s, s', t)
    case ReadVersion(t, current) => ReadVersionStep(s, s', t, current)
    case Insert(t, id, timestamp) => InsertStep(s, s', t, id, timestamp)
    case Abandon(t) =>
      // An insert that fails, or whose reply is lost after the row was committed.
      t in s.tasks && (s.tasks[t].Ready? || s.tasks[t].Committed?) && s' == SetTask(s, t, Idle)
    case CacheIt(t) => CacheStep(s, s', t)
    case Store(t) =>
      t in s.tasks && s.tasks[t].Storing? && s' == SetTask(s, t, Idle).(snapshots := s.snapshots + {s.tasks[t].snapshot})
    case Clear(i) => i in s.instances && s' == SetSlot(s, i, Slot(None, None), s.instances[i].floor)
  }

  ghost predicate Init(s: System) {
    && s.rows == map[] && s.commanded == {} && s.snapshots == {} && s.loads == map[]
    && (forall i :: i in s.instances ==> s.instances[i] == Instance(Slot(None, None), 0))
    && (forall t :: t in s.tasks ==> s.tasks[t] == Idle)
  }

  // ---- the invariant ------------------------------------------------------

  /** The versions are exactly 1, ..., n. */
  ghost predicate RowsOk(rows: map<int, Event>) {
    && (forall v :: v in rows <==> 1 <= v <= |rows|)
    && (forall v :: v in rows ==> rows[v].version == v)
  }

  /** The committed events in order. */
  ghost function Log(rows: map<int, Event>): (log: seq<Event>)
    requires RowsOk(rows)
    ensures |log| == |rows| && Numbered(log) && forall i :: 0 <= i < |log| ==> log[i] == rows[i + 1]
  {
    seq(|rows|, i requires 0 <= i < |rows| => rows[i + 1])
  }

  ghost predicate Prefix(s: seq<Event>, log: seq<Event>) { |s| <= |log| && s == log[..|s|] }

  /** A state that knows its version: it is caught up to that version. */
  ghost predicate StateOk(id: string, log: seq<Event>, state: Fields) {
    1 <= VersionOf(state) <= |log| && Caught(state, VersionOf(state), Initial(id), log)
  }

  ghost predicate SnapshotOk(id: string, log: seq<Event>, snap: Snapshot) {
    && snap.version >= 1 && Caught(snap.state, snap.version, Initial(id), log)
    && (AllKnown(log) ==> snap.version <= VersionOf(snap.state) && StateOk(id, log, snap.state))
  }

  ghost predicate InstanceOk(log: seq<Event>, loads: map<nat, Load>, i: nat, inst: Instance) {
    && inst.floor <= |log|
    && (inst.slot.cache.Some? ==> Prefix(inst.slot.cache.value, log) && |inst.slot.cache.value| == inst.floor)
    && (inst.slot.owner.Some? ==>
          && inst.slot.owner.value in loads
          && var l := loads[inst.slot.owner.value];
          && l.inst == i
          && (inst.slot.cache.None? ==> l.floor == inst.floor)
          && (l.promise.Fetching? || l.promise.Fetched? ==> inst.slot.cache.None?))
  }

  ghost predicate LoadOk(log: seq<Event>, instances: map<nat, Instance>, loads: map<nat, Load>, l: Load) {
    && l.inst in instances && l.floor <= instances[l.inst].floor
    && match l.promise
       case Fetching => true
       case Fetched(value) => Prefix(value, log) && l.floor <= |value|
       case Done(value) => Prefix(value, log) && l.floor <= |value| <= instances[l.inst].floor
       case Failed => true
       case Follow(o) => o in loads && loads[o].inst == l.inst && l.floor <= loads[o].floor
  }

  /** A draft that a command made from a state it saw. */
  ghost predicate DraftOk(id: string, log: seq<Event>, draft: Draft, expected: int) {
    draft.basis.Seen? ==>
      && (draft.etype == CREATED || draft.etype == UPDATED || draft.etype == CANCELLED || draft.etype == ASSIGNED)
      && expected == ExpectedVersion(draft.basis.state)
      && (AllKnown(log) && draft.basis.state.Some? ==> StateOk(id, log, draft.basis.state.value))
      && (draft.etype == UPDATED ==> Get(draft.payload, "previousState") == OrNull(draft.basis.state))
  }

  ghost predicate TaskOk(id: string, log: seq<Event>, snapshots: set<Snapshot>, instances: map<nat, Instance>,
                         loads: map<nat, Load>, task: Task) {
    match task
    case Idle => true
    case Want(i, goal, snap) =>
      && i in instances && (goal.Execute? ==> !goal.command.CreateOrder?) && (snap.Some? ==> snap.value in snapshots)
      && (goal.TakeSnapshot? ==> 1 <= goal.upTo <= instances[i].floor)
    case Wait(i, goal, snap, owner, need) =>
      && i in instances && (goal.Execute? ==> !goal.command.CreateOrder?) && (snap.Some? ==> snap.value in snapshots) && (goal.TakeSnapshot? ==> 1 <= goal.upTo <= need)
      && owner in loads && loads[owner].inst == i && need <= loads[owner].floor
    case Have(i, goal, snap, events, need) =>
      && i in instances && (goal.Execute? ==> !goal.command.CreateOrder?) && (snap.Some? ==> snap.value in snapshots) && (goal.TakeSnapshot? ==> 1 <= goal.upTo <= need)
      && Prefix(events, log) && need <= |events| <= instances[i].floor
    case Reading(i, draft, expected) =>
      && i in instances
      && (draft.basis.Seen? ==> expected.Some? && DraftOk(id, log, draft, expected.value))
    case Ready(i, draft, next) => i in instances && 1 <= next <= |log| + 1 && DraftOk(id, log, draft, next - 1)
    case Committed(i, event) => i in instances && 1 <= event.version <= |log| && log[event.version - 1] == event
    case Storing(i, snapshot) => SnapshotOk(id, log, snapshot)
  }

  /** What a command wrote at version v: an update carries the replay of everything before it. */
  ghost predicate CommandOk(id: string, log: seq<Event>, v: int) {
    && 1 <= v <= |log| && Known(log[v - 1])
    && (log[v - 1].etype == UPDATED && AllKnown(log[..v - 1]) ==>
          Get(log[v - 1].payload, "previousState") ==
            if v == 1 then Null else Obj(Replay(Initial(id), log[..v - 1])))
  }

  ghost predicate Inv(s: System) {
    && RowsOk(s.rows)
    && var log := Log(s.rows);
    && (forall v :: v in s.commanded ==> CommandOk(s.aggregateId, log, v))
    && (forall snap :: snap in s.snapshots ==> SnapshotOk(s.aggregateId, log, snap))
    && (forall i :: i in s.instances ==> InstanceOk(log, s.loads, i, s.instances[i]))
    && (forall o :: o in s.loads ==> LoadOk(log, s.instances, s.loads, s.loads[o]))
    && (forall t :: t in s.tasks ==> TaskOk(s.aggregateId, log, s.snapshots, s.instances, s.loads, s.tasks[t]))
  }

  // ---- what growth preserves ----------------------------------------------

  ghost predicate Extends(log: seq<Event>, log': seq<Event>) {
    log' == log || (|log'| == |log| + 1 && log'[..|log|] == log)
  }

  ghost predicate LoadsGrow(loads: map<nat, Load>, loads': map<nat, Load>) {
    forall o :: o in loads ==>
      && o in loads' && loads'[o].inst == loads[o].inst && loads'[o].floor == loads[o].floor
      && (loads'[o].promise.Fetching? || loads'[o].promise.Fetched? ==> loads[o].promise.Fetching? || loads[o].promise.Fetched?)
  }

  ghost predicate InstancesGrow(instances: map<nat, Instance>, instances': map<nat, Instance>) {
    forall i :: i in instances ==> i in instances' && instances[i].floor <= instances'[i].floor
  }

  lemma ExtendsIsAppend(log: seq<Event>, log': seq<Event>)
    requires Extends(log, log')
    ensures log' == log || log' == log + [log'[|log|]]
  {
    if |log'| == |log| + 1 {
      assert log' == log'[..|log|] + [log'[|log|]];
    }
  }

  lemma CaughtGrows(state: Fields, v: int, init: Fields, log: seq<Event>, log': seq<Event>)
    requires Caught(state, v, init, log) && Extends(log, log')
    ensures Caught(state, v, init, log')
  {
    hide Caught;
    ExtendsIsAppend(log, log');
    if log' != log {
      CaughtAppend(state, v, init, log, log'[|log|]);
    }
  }

  lemma KnownShrinks(log: seq<Event>, log': seq<Event>)
    requires Extends(log, log') && AllKnown(log')
    ensures AllKnown(log)
  {
    forall i | 0 <= i < |log| ensures Known(log[i]) {
      assert log'[..|log|][i] == log'[i];
    }
  }

  lemma PrefixGrows(s: seq<Event>, log: seq<Event>, log': seq<Event>)
    requires Prefix(s, log) && Extends(log, log')
    ensures Prefix(s, log')
  {
    assert log[..|s|] == log'[..|log|][..|s|] == log'[..|s|];
  }

  lemma StateGrows(id: string, log: seq<Event>, log': seq<Event>, state: Fields)
    requires StateOk(id, log, state) && Extends(log, log')
    ensures StateOk(id, log', state)
  {
    CaughtGrows(state, VersionOf(state), Initial(id), log, log');
  }

  lemma SnapshotGrows(id: string, log: seq<Event>, log': seq<Event>, snap: Snapshot)
    requires SnapshotOk(id, log, snap) && Extends(log, log')
    ensures SnapshotOk(id, log', snap)
  {
    hide StateOk, AllKnown, Caught, VersionOf, Extends;
    CaughtGrows(snap.state, snap.version, Initial(id), log, log');
    if AllKnown(log') {
      KnownShrinks(log, log');
      StateGrows(id, log, log', snap.state);
    }
  }

  lemma DraftGrows(id: string, log: seq<Event>, log': seq<Event>, draft: Draft, expected: int)
    requires DraftOk(id, log, draft, expected) && Extends(log, log')
    ensures DraftOk(id, log', draft, expected)
  {
    hide StateOk, AllKnown, Extends;
    if draft.basis.Seen? && AllKnown(log') {
      KnownShrinks(log, log');
      if draft.basis.state.Some? {
        StateGrows(id, log, log', draft.basis.state.value);
      }
    }
  }

  lemma TaskGrows(id: string, log: seq<Event>, log': seq<Event>, snaps: set<Snapshot>, snaps': set<Snapshot>,
                  instances: map<nat, Instance>, instances': map<nat, Instance>,
                  loads: map<nat, Load>, loads': map<nat, Load>, task: Task)
    requires TaskOk(id, log, snaps, instances, loads, task)
    requires Extends(log, log') && snaps <= snaps' && InstancesGrow(instances, instances') && LoadsGrow(loads, loads')
    ensures TaskOk(id, log', snaps', instances', loads', task)
  {
    hide DraftOk, SnapshotOk, Prefix;
    match task
    case Have(_, _, _, events, _) =>
      PrefixGrows(events, log, log');
    case Reading(_, draft, expected) =>
      if draft.basis.Seen? {
        DraftGrows(id, log, log', draft, expected.value);
      }
    case Ready(_, draft, next) =>
      DraftGrows(id, log, log', draft, next - 1);
    case Committed(_, event) =>
      assert log'[..|log|][event.version - 1] == log'[event.version - 1];
    case Storing(_, snapshot) =>
      SnapshotGrows(id, log, log', snapshot);
    case _ =>
  }

  lemma LoadGrows(log: seq<Event>, log': seq<Event>, instances: map<nat, Instance>, instances': map<nat, Instance>,
                  loads: map<nat, Load>, loads': map<nat, Load>, l: Load)
    requires LoadOk(log, instances, loads, l)
    requires Extends(log, log') && InstancesGrow(instances, instances') && LoadsGrow(loads, loads')
    ensures LoadOk(log', instances', loads', l)
  {
    hide Prefix;
    if l.promise.Fetched? || l.promise.Done? {
      PrefixGrows(l.promise.value, log, log');
    }
  }

  lemma InstanceGrows(log: seq<Event>, log': seq<Event>, loads: map<nat, Load>, loads': map<nat, Load>, i: nat, inst: Instance)
    requires InstanceOk(log, loads, i, inst) && Extends(log, log') && LoadsGrow(loads, loads')
    ensures InstanceOk(log', loads', i, inst)
  {
    hide Prefix;
    if inst.slot.cache.Some? {
      PrefixGrows(inst.slot.cache.value, log, log');
    }
  }

  lemma CommandGrows(id: string, log: seq<Event>, log': seq<Event>, v: int)
    requires CommandOk(id, log, v) && Extends(log, log')
    ensures CommandOk(id, log', v)
  {
    assert log'[..|log|][..v - 1] == log'[..v - 1] && log[..v - 1] == log'[..v - 1];
    assert log'[..|log|][v - 1] == log'[v - 1];
  }

  /** The invariant holds after a step when it holds of whatever the step changed. */
  lemma Assemble(s: System, s': System)
    requires Inv(s) && RowsOk(s'.rows) && Extends(Log(s.rows), Log(s'.rows)) && s'.aggregateId == s.aggregateId
    requires s.snapshots <= s'.snapshots && InstancesGrow(s.instances, s'.instances) && LoadsGrow(s.loads, s'.loads)
    requires forall v :: v in s'.commanded ==> v in s.commanded || CommandOk(s.aggregateId, Log(s'.rows), v)
    requires forall snap :: snap in s'.snapshots ==> snap in s.snapshots || SnapshotOk(s.aggregateId, Log(s'.rows), snap)
    requires forall i :: i in s'.instances ==>
      (i in s.instances && s'.instances[i] == s.instances[i]) || InstanceOk(Log(s'.rows), s'.loads, i, s'.instances[i])
    requires forall o :: o in s'.loads ==>
      (o in s.loads && s'.loads[o] == s.loads[o]) || LoadOk(Log(s'.rows), s'.instances, s'.loads, s'.loads[o])
    requires forall t :: t in s'.tasks ==>
      (t in s.tasks && s'.tasks[t] == s.tasks[t])
      || TaskOk(s.aggregateId, Log(s'.rows), s'.snapshots, s'.instances, s'.loads, s'.tasks[t])
    ensures Inv(s')
  {
    hide RowsOk, Log, CommandOk, SnapshotOk, InstanceOk, LoadOk, TaskOk, InstancesGrow, LoadsGrow, Extends;
    var log, log' := Log(s.rows), Log(s'.rows);
    forall v | v in s'.commanded ensures CommandOk(s.aggregateId, log', v) {
      if v in s.commanded { CommandGrows(s.aggregateId, log, log', v); }
    }
    forall snap | snap in s'.snapshots ensures SnapshotOk(s.aggregateId, log', snap) {
      if snap in s.snapshots { SnapshotGrows(s.aggregateId, log, log', snap); }
    }
    forall i | i in s'.instances ensures InstanceOk(log', s'.loads, i, s'.instances[i]) {
      if i in s.instances && s'.instances[i] == s.instances[i] {
        InstanceGrows(log, log', s.loads, s'.loads, i, s.instances[i]);
      }
    }
    forall o | o in s'.loads ensures LoadOk(log', s'.instances, s'.loads, s'.loads[o]) {
      if o in s.loads && s'.loads[o] == s.loads[o] {
        LoadGrows(log, log', s.instances, s'.instances, s.loads, s'.loads, s.loads[o]);
      }
    }
    forall t | t in s'.tasks ensures TaskOk(s.aggregateId, log', s'.snapshots, s'.instances, s'.loads, s'.tasks[t]) {
      if t in s.tasks && s'.tasks[t] == s.tasks[t] {
        TaskGrows(s.aggregateId, log, log', s.snapshots, s'.snapshots, s.instances, s'.instances, s.loads, s'.loads, s.tasks[t]);
      }
    }
  }

  // ---- every step keeps the invariant -------------------------------------

  /** Only one task changes. */
  lemma TaskStep(s: System, t: nat, task: Task)
    requires Inv(s)
    requires TaskOk(s.aggregateId, Log(s.rows), s.snapshots, s.instances, s.loads, task)
    ensures Inv(SetTask(s, t, task))
  {
    hide RowsOk, Log, CommandOk, SnapshotOk, InstanceOk, LoadOk, TaskOk;
    Assemble(s, SetTask(s, t, task));
  }

  lemma TaskIs(s: System, t: nat)
    requires Inv(s) && t in s.tasks
    ensures TaskOk(s.aggregateId, Log(s.rows), s.snapshots, s.instances, s.loads, s.tasks[t])
  {
  }

  lemma InstanceIs(s: System, i: nat)
    requires Inv(s) && i in s.instances
    ensures InstanceOk(Log(s.rows), s.loads, i, s.instances[i])
  {
  }

  lemma LoadIs(s: System, o: nat)
    requires Inv(s) && o in s.loads
    ensures LoadOk(Log(s.rows), s.instances, s.loads, s.loads[o])
  {
  }

  lemma SnapshotIs(s: System, snap: Snapshot)
    requires Inv(s) && snap in s.snapshots
    ensures SnapshotOk(s.aggregateId, Log(s.rows), snap)
  {
  }

  /** Beginning a load keeps the invariant. */
  lemma BeginLoad(s: System, i: nat, owner: nat)
    requires Inv(s) && i in s.instances && owner !in s.loads && s.instances[i].slot == Slot(None, None)
    ensures Inv(LookUp(s, i, owner))
  {
    hide RowsOk, Log, CommandOk, SnapshotOk, TaskOk, Prefix;
    var s' := LookUp(s, i, owner);
    InstanceIs(s, i);
    assert LoadsGrow(s.loads, s'.loads) && InstancesGrow(s.instances, s'.instances);
    assert InstanceOk(Log(s.rows), s'.loads, i, s'.instances[i]);
    assert LoadOk(Log(s.rows), s'.instances, s'.loads, s'.loads[owner]);
    hide InstanceOk, LoadOk, LoadsGrow, InstancesGrow;
    Assemble(s, s');
  }

  /** Looking up a slot keeps the invariant; what it gives is at least the instance's floor. */
  lemma LookUpKeeps(s: System, i: nat, owner: nat)
    requires Inv(s) && i in s.instances && owner !in s.loads
    ensures
      var s', r := LookUp(s, i, owner), Lookup(s.instances[i].slot, owner);
      && Inv(s') && s'.tasks == s.tasks && s'.rows == s.rows && s'.snapshots == s.snapshots && s'.aggregateId == s.aggregateId
      && (forall k :: k in s.instances <==> k in s'.instances)
      && (forall k :: k in s.instances ==> s'.instances[k].floor == s.instances[k].floor)
      && LoadsGrow(s.loads, s'.loads) && (forall o :: o in s.loads ==> s'.loads[o] == s.loads[o])
      && (r.Cached? ==> Prefix(r.value, Log(s.rows)) && |r.value| == s.instances[i].floor)
      && (!r.Cached? ==> r.owner in s'.loads && s'.loads[r.owner].inst == i && s'.loads[r.owner].floor == s.instances[i].floor)
  {
    hide Inv, RowsOk, Log, Prefix;
    InvRows(s);
    InstanceIs(s, i);
    var s' := LookUp(s, i, owner);
    if s.instances[i].slot == Slot(None, None) {
      BeginLoad(s, i, owner);
    } else {
      assert s'.instances == s.instances;
      assert s' == s;
    }
  }

  lemma CallKeeps(s: System, s': System, t: nat, owner: nat)
    requires Inv(s) && CallStep(s, s', t, owner)
    ensures Inv(s')
  {
    hide Inv, Log, Prefix, AfterLookup, LookUp;
    TaskIs(s, t);
    var task := s.tasks[t];
    LookUpKeeps(s, task.inst, owner);
    var r, middle := Lookup(s.instances[task.inst].slot, owner), LookUp(s, task.inst, owner);
    var floor := s.instances[task.inst].floor;
    var next := if r.Cached? then Have(task.inst, task.goal, task.snap, r.value, floor)
                else Wait(task.inst, task.goal, task.snap, r.owner, floor);
    assert RowsOk(s.rows) by { InvRows(s); }
    TaskStep(middle, t, next);
  }

  lemma InvRows(s: System)
    requires Inv(s)
    ensures RowsOk(s.rows)
  {
  }

  // ---- loads --------------------------------------------------------------

  /** Rows in ascending order, of versions 1 to n, are the log. */
  lemma {:induction false} OrderedAt(rows: map<int, Event>, s: seq<Event>, i: nat)
    requires RowsOk(rows) && OrderedRows(rows, s) && i < |rows|
    ensures i < |s| && s[i].version == i + 1
    decreases i
  {
    assert rows[i + 1] in s;
    var j :| 0 <= j < |s| && s[j] == rows[i + 1];
    if i > 0 {
      OrderedAt(rows, s, i - 1);
    }
    if j < i {
      OrderedAt(rows, s, j);
    }
    if i < |s| {
      assert s[i].version in rows;
    }
  }

  lemma OrderedIsLog(rows: map<int, Event>, s: seq<Event>)
    requires RowsOk(rows) && OrderedRows(rows, s)
    ensures s == Log(rows)
  {
    forall i | 0 <= i < |rows| ensures i < |s| && s[i].version == i + 1 {
      OrderedAt(rows, s, i);
    }
    if |s| > |rows| {
      assert s[|rows|].version in rows;
    }
    if |rows| > 0 {
      OrderedAt(rows, s, |rows| - 1);
    }
    forall i | 0 <= i < |rows| ensures s[i] == Log(rows)[i] {
      assert s[i].version == i + 1 && rows[s[i].version] == s[i];
    }
  }

  lemma WholeIsPrefix(log: seq<Event>)
    ensures Prefix(log, log)
  {
    assert log[..|log|] == log;
  }

  /** A load's promise changes. */
  lemma PromiseStep(s: System, o: nat, p: Promise)
    requires Inv(s) && o in s.loads
    requires p.Fetching? || p.Fetched? ==> s.loads[o].promise.Fetching? || s.loads[o].promise.Fetched?
    requires
      var s' := SetPromise(s, o, p);
      LoadOk(Log(s.rows), s'.instances, s'.loads, s'.loads[o])
    ensures Inv(SetPromise(s, o, p))
  {
    hide RowsOk, Log, CommandOk, SnapshotOk, InstanceOk, LoadOk, TaskOk;
    Assemble(s, SetPromise(s, o, p));
  }

  lemma FetchKeeps(s: System, s': System, step: Step)
    requires Inv(s) && (step.Fetch? || step.FetchFails?) && Next(s, s', step)
    ensures Inv(s')
  {
    hide Inv, Prefix, RowsOk, OrderedRows;
    LoadIs(s, step.o);
    InvRows(s);
    if step.Fetch? {
      OrderedIsLog(s.rows, step.value);
      WholeIsPrefix(step.value);
      InstanceIs(s, s.loads[step.o].inst);
      PromiseStep(s, step.o, Fetched(step.value));
    } else {
      PromiseStep(s, step.o, Failed);
    }
  }

  /** One instance changes its slot or floor. */
  lemma InstanceStep(s: System, i: nat, slot: Slot, floor: nat)
    requires Inv(s) && i in s.instances && s.instances[i].floor <= floor
    requires InstanceOk(Log(s.rows), s.loads, i, Instance(slot, floor))
    ensures Inv(SetSlot(s, i, slot, floor))
  {
    hide RowsOk, Log, CommandOk, SnapshotOk, InstanceOk, LoadOk, TaskOk;
    Assemble(s, SetSlot(s, i, slot, floor));
  }

  lemma SettleKeeps(s: System, s': System, o: nat, owner: nat)
    requires Inv(s) && SettleStep(s, s', o, owner)
    ensures Inv(s')
  {
    hide Inv, Prefix, RowsOk, Log, LookUp;
    LoadIs(s, o);
    InvRows(s);
    var i, value := s.loads[o].inst, s.loads[o].promise.value;
    InstanceIs(s, i);
    var slot := s.instances[i].slot;
    if slot.owner == Some(o) {
      PublishKeeps(s, o);
    } else {
      LookUpKeeps(s, i, owner);
      var middle := LookUp(s, i, owner);
      var p := if slot.cache.Some? then Done(slot.cache.value) else Follow(Lookup(slot, owner).owner);
      PromiseStep(middle, o, p);
    }
  }

  /** Publication by the current owner: first the promise is done, then the cache is set. */
  lemma PublishKeeps(s: System, o: nat)
    requires Inv(s) && o in s.loads && s.loads[o].promise.Fetched? && s.loads[o].inst in s.instances
    requires s.instances[s.loads[o].inst].slot.owner == Some(o)
    ensures
      var value := s.loads[o].promise.value;
      Inv(SetPromise(SetSlot(s, s.loads[o].inst, Slot(Some(value), Some(o)), |value|), o, Done(value)))
  {
    hide RowsOk, Log, CommandOk, SnapshotOk, TaskOk, Prefix;
    var i, value := s.loads[o].inst, s.loads[o].promise.value;
    var s' := SetPromise(SetSlot(s, i, Slot(Some(value), Some(o)), |value|), o, Done(value));
    LoadIs(s, o);
    InstanceIs(s, i);
    PrefixLength(value, Log(s.rows));
    assert InstanceOk(Log(s.rows), s'.loads, i, s'.instances[i]);
    assert LoadOk(Log(s.rows), s'.instances, s'.loads, s'.loads[o]);
    assert LoadsGrow(s.loads, s'.loads) && InstancesGrow(s.instances, s'.instances);
    hide InstanceOk, LoadOk, LoadsGrow, InstancesGrow;
    Assemble(s, s');
  }

  lemma PrefixLength(s: seq<Event>, log: seq<Event>)
    requires Prefix(s, log)
    ensures |s| <= |log|
  {
  }

  lemma FinishKeeps(s: System, s': System, o: nat)
    requires Inv(s) && FinishStep(s, s', o)
    ensures Inv(s')
  {
    hide Inv, Prefix, RowsOk, Log;
    InvRows(s);
    var i := s.loads[o].inst;
    InstanceIs(s, i);
    var inst := s.instances[i];
    if inst.slot.owner == Some(o) {
      InstanceStep(s, i, inst.slot.(owner := None), inst.floor);
    }
  }

  lemma WakeKeeps(s: System, s': System, t: nat)
    requires Inv(s) && WakeStep(s, s', t)
    ensures Inv(s')
  {
    hide Inv, Prefix, RowsOk, Log;
    InvRows(s);
    TaskIs(s, t);
    var task := s.tasks[t];
    LoadIs(s, task.owner);
    match s.loads[task.owner].promise
    case Done(value) => TaskStep(s, t, Have(task.inst, task.goal, task.snap, value, task.need));
    case Failed => TaskStep(s, t, Idle);
    case Follow(o) => TaskStep(s, t, task.(owner := o));
  }

  lemma ClearKeeps(s: System, i: nat)
    requires Inv(s) && i in s.instances
    ensures Inv(SetSlot(s, i, Slot(None, None), s.instances[i].floor))
  {
    hide Inv, Prefix, RowsOk, Log;
    InvRows(s);
    InstanceIs(s, i);
    InstanceStep(s, i, Slot(None, None), s.instances[i].floor);
  }

  // ---- appends ------------------------------------------------------------

  lemma LatestIsCount(rows: map<int, Event>, v: int)
    requires RowsOk(rows) && Latest(rows, v)
    ensures v == |rows|
  {
    if rows != map[] {
      var w :| w in rows;
      assert |rows| in rows;
    }
  }

  lemma ReadVersionKeeps(s: System, s': System, t: nat, current: int)
    requires Inv(s) && ReadVersionStep(s, s', t, current)
    ensures Inv(s')
  {
    hide Inv, RowsOk, Latest, DraftOk;
    InvRows(s);
    TaskIs(s, t);
    LatestIsCount(s.rows, current);
    var task := s.tasks[t];
    if task.expected.Some? && task.expected.value != current {
      TaskStep(s, t, Idle);
    } else {
      assert task.draft.basis.Direct? ==> DraftOk(s.aggregateId, Log(s.rows), task.draft, current) by { DirectOk(s, task.draft, current); }
      TaskStep(s, t, Ready(task.inst, task.draft, current + 1));
    }
  }

  lemma DirectOk(s: System, draft: Draft, expected: int)
    requires RowsOk(s.rows)
    ensures draft.basis.Direct? ==> DraftOk(s.aggregateId, Log(s.rows), draft, expected)
  {
  }

  lemma RowsInsert(rows: map<int, Event>, e: Event)
    requires RowsOk(rows) && e.version == |rows| + 1
    ensures RowsOk(rows[e.version := e]) && |rows[e.version := e]| == |rows| + 1
  {
    assert e.version !in rows;
    assert |rows[e.version := e]| == |rows| + 1;
  }

  lemma LogInsert(rows: map<int, Event>, e: Event)
    requires RowsOk(rows) && e.version == |rows| + 1
    ensures RowsOk(rows[e.version := e]) && Log(rows[e.version := e]) == Log(rows) + [e]
  {
    RowsInsert(rows, e);
    hide RowsOk;
  }

  /** The state a command saw, if its version is still the last one, is the replay of everything. */
  lemma SawEverything(id: string, log: seq<Event>, draft: Draft)
    requires draft.basis.Seen? && DraftOk(id, log, draft, |log|) && AllKnown(log)
    ensures OrNull(draft.basis.state) == if |log| == 0 then Null else Obj(Replay(Initial(id), log))
  {
    hide Caught, AllKnown, Replay;
    if draft.basis.state.Some? {
      CaughtUp(draft.basis.state.value, Initial(id), log);
    }
  }

  lemma InsertedCommandOk(id: string, log: seq<Event>, draft: Draft, e: Event)
    requires draft.basis.Seen? && DraftOk(id, log, draft, |log|)
    requires e.etype == draft.etype && e.payload == draft.payload && e.version == |log| + 1
    ensures CommandOk(id, log + [e], |log| + 1)
  {
    hide StateOk, AllKnown, Replay;
    assert (log + [e])[..|log|] == log;
    if AllKnown(log) {
      SawEverything(id, log, draft);
    }
  }

  lemma InsertKeeps(s: System, s': System, t: nat, id: string, timestamp: string)
    requires Inv(s) && InsertStep(s, s', t, id, timestamp)
    ensures Inv(s')
  {
    hide RowsOk, Log, CommandOk, SnapshotOk, InstanceOk, LoadOk, DraftOk;
    InvRows(s);
    TaskIs(s, t);
    var task := s.tasks[t];
    var log := Log(s.rows);
    if task.next in s.rows {
      TaskStep(s, t, Idle);
    } else {
      RowsAre(s.rows);
      assert task.next == |s.rows| + 1;
      var e := Event(id, task.draft.etype, s.aggregateId, task.draft.payload, task.next, timestamp);
      LogInsert(s.rows, e);
      if task.draft.basis.Seen? {
        InsertedCommandOk(s.aggregateId, log, task.draft, e);
      }
      assert Log(s'.rows) == log + [e];
      assert s.instances == s'.instances && s.loads == s'.loads;
      Assemble(s, s');
    }
  }

  lemma RowsAre(rows: map<int, Event>)
    requires RowsOk(rows)
    ensures (forall v :: v in rows <==> 1 <= v <= |rows|) && |Log(rows)| == |rows|
  {
  }

  /** A cached stream is numbered, so _cacheEvent extends it, keeps it or drops it. */
  lemma CacheKeeps(s: System, s': System, t: nat)
    requires Inv(s) && CacheStep(s, s', t)
    ensures Inv(s')
  {
    hide Inv, RowsOk, LoadOk, Log;
    InvRows(s);
    TaskIs(s, t);
    var i, e := s.tasks[t].inst, s.tasks[t].event;
    InstanceIs(s, i);
    var inst := s.instances[i];
    var floor := if e.version > inst.floor then e.version else inst.floor;
    LogNumbered(s.rows);
    CachedStep(Log(s.rows), inst, e);
    InstanceStep(s, i, WithEvent(inst.slot, e), floor);
    assert s' == SetTask(SetSlot(s, i, WithEvent(inst.slot, e), floor), t, Idle);
    TaskStep(SetSlot(s, i, WithEvent(inst.slot, e), floor), t, Idle);
  }

  lemma LogNumbered(rows: map<int, Event>)
    requires RowsOk(rows)
    ensures Numbered(Log(rows))
  {
  }

  lemma CachedStep(log: seq<Event>, inst: Instance, e: Event)
    requires Numbered(log) && 1 <= e.version <= |log| && log[e.version - 1] == e && inst.floor <= |log|
    requires inst.slot.cache.Some? ==> Prefix(inst.slot.cache.value, log) && |inst.slot.cache.value| == inst.floor
    ensures
      var slot, floor := WithEvent(inst.slot, e), if e.version > inst.floor then e.version else inst.floor;
      slot.owner.None? && floor <= |log| && (slot.cache.Some? ==> Prefix(slot.cache.value, log) && |slot.cache.value| == floor)
  {
    if inst.slot.cache.Some? {
      var stream := inst.slot.cache.value;
      forall k | 0 <= k < |stream| ensures stream[k].version == k + 1 {
        assert stream[k] == log[k];
      }
      if e.version <= |stream| {
        assert stream[e.version - 1].version == e.version;
        assert HasVersion(stream, e.version);
      } else if e.version == |stream| + 1 {
        assert log[..|stream| + 1] == log[..|stream|] + [log[|stream|]];
      }
    }
  }

  // ---- snapshots and commands ---------------------------------------------

  lemma {:induction false} MaxNumbered(events: seq<Event>)
    requires Numbered(events)
    ensures MaxVersion(events) == |events|
  {
    if events != [] {
      MaxNumbered(events[..|events| - 1]);
    }
  }

  lemma PrefixNumbered(events: seq<Event>, log: seq<Event>)
    requires Prefix(events, log) && Numbered(log)
    ensures Numbered(events)
  {
    forall i | 0 <= i < |events| ensures events[i].version == i + 1 {
      assert events[i] == log[i];
    }
  }

  ghost predicate SnapUsable(id: string, log: seq<Event>, snap: Option<Snapshot>) {
    snap.Some? ==> SnapshotOk(id, log, snap.value)
  }

  /** Events between the snapshot's label and the end of the stream are replayed, some of them perhaps
      a second time; the result is caught up with the log from any earlier label on. */
  lemma RebuiltCaught(id: string, log: seq<Event>, snap: Option<Snapshot>, events: seq<Event>, l: int)
    requires Numbered(log) && Prefix(events, log) && SnapUsable(id, log, snap) && 0 <= l <= |events|
    requires Rebuilt(id, snap, events).Some?
    ensures Caught(Rebuilt(id, snap, events).value, l, Initial(id), log)
  {
    hide StateOk, AllKnown, Caught, Replay, Rebuilt;
    var v, j := if snap.Some? then snap.value.version else 0, |events|;
    var base, init := if snap.Some? then snap.value.state else Initial(id), Initial(id);
    PrefixNumbered(events, log);
    RebuiltNumbered(id, snap, events);
    CaughtInitially(init, log);
    EmptyReplay(base);
    if v <= j {
      assert events[v..] == log[v..j];
      CaughtReplay(base, v, j, init, log);
      CaughtEarlier(Replay(base, log[v..j]), j, l, init, log);
    } else {
      CaughtEarlier(base, v, l, init, log);
    }
  }

  lemma EmptyReplay(state: Fields)
    ensures Replay(state, []) == state
  {
  }

  lemma RebuiltVersion(id: string, log: seq<Event>, snap: Option<Snapshot>, events: seq<Event>)
    requires Numbered(log) && Prefix(events, log) && SnapUsable(id, log, snap) && AllKnown(log)
    requires Rebuilt(id, snap, events).Some?
    ensures
      var state := Rebuilt(id, snap, events).value;
      |events| <= VersionOf(state) && StateOk(id, log, state)
  {
    hide Caught, Replay, Rebuilt, VersionOf;
    var v, j := if snap.Some? then snap.value.version else 0, |events|;
    var base := if snap.Some? then snap.value.state else Initial(id);
    PrefixNumbered(events, log);
    RebuiltNumbered(id, snap, events);
    if v < j {
      assert events[v..] == log[v..j];
      assert log[v..j][j - v - 1] == log[j - 1];
      VersionAfter(base, log[v..j]);
      RebuiltCaught(id, log, snap, events, j);
    } else {
      EmptyReplay(base);
    }
  }

  lemma UsableIn(s: System, snap: Option<Snapshot>)
    requires Inv(s) && SnapshotRead(s, snap)
    ensures SnapUsable(s.aggregateId, Log(s.rows), snap)
  {
    hide SnapshotOk;
    if snap.Some? {
      SnapshotIs(s, snap.value);
    }
  }

  lemma PolicyKeeps(s: System, s': System, t: nat, first: Option<Snapshot>, second: Option<Snapshot>, threshold: int)
    requires Inv(s) && PolicyStep(s, s', t, first, second, threshold)
    ensures Inv(s')
  {
    hide Inv, RowsOk, Log;
    InvRows(s);
    TaskIs(s, t);
    var task := s.tasks[t];
    LogNumbered(s.rows);
    PrefixNumbered(task.events, Log(s.rows));
    MaxNumbered(task.events);
    var latest := MaxVersion(task.events);
    TaskStep(s, t, Idle);
    if task.events != [] {
      hide Prefix, MaxVersion;
      TaskStep(s, t, Want(task.inst, TakeSnapshot(latest), second));
    }
  }

  lemma TakeStateKeeps(s: System, s': System, t: nat)
    requires Inv(s) && TakeStateStep(s, s', t)
    ensures Inv(s')
  {
    hide Inv, RowsOk, Log, Prefix, Caught, AllKnown, Rebuilt, VersionOf, StateOk;
    InvRows(s);
    TaskIs(s, t);
    var task := s.tasks[t];
    LogNumbered(s.rows);
    UsableIn(s, task.snap);
    var log, state := Log(s.rows), Rebuilt(s.aggregateId, task.snap, task.events);
    TaskStep(s, t, Idle);
    if state.Some? {
      RebuiltCaught(s.aggregateId, log, task.snap, task.events, task.goal.upTo);
      if AllKnown(log) {
        RebuiltVersion(s.aggregateId, log, task.snap, task.events);
      }
      TaskStep(s, t, Storing(task.inst, Snapshot(task.goal.upTo, state.value)));
    }
  }

  /** What a command drafts from the state that it saw. */
  lemma CommandDraftOk(id: string, log: seq<Event>, c: Command, state: Option<Fields>)
    requires !c.CreateOrder? && (state.Some? && AllKnown(log) ==> StateOk(id, log, state.value))
    ensures DraftOk(id, log, CommandDraft(c, state), ExpectedVersion(state)) && CommandDraft(c, state).basis == Seen(state)
  {
    hide StateOk, AllKnown;
  }

  lemma DecideKeeps(s: System, s': System, t: nat)
    requires Inv(s) && DecideStep(s, s', t)
    ensures Inv(s')
  {
    hide Inv, RowsOk, Log, Prefix, AllKnown, Rebuilt, StateOk, DraftOk, CommandDraft, ExpectedVersion, VersionOf;
    InvRows(s);
    TaskIs(s, t);
    var task := s.tasks[t];
    LogNumbered(s.rows);
    UsableIn(s, task.snap);
    var log, state := Log(s.rows), Rebuilt(s.aggregateId, task.snap, task.events);
    if state.Some? && AllKnown(log) {
      RebuiltVersion(s.aggregateId, log, task.snap, task.events);
    }
    CommandDraftOk(s.aggregateId, log, task.goal.command, state);
    TaskStep(s, t, Reading(task.inst, CommandDraft(task.goal.command, state), Some(ExpectedVersion(state))));
  }

  lemma StartCommandKeeps(s: System, t: nat, i: nat, command: Command, snap: Option<Snapshot>)
    requires Inv(s) && At(s, t, i) && SnapshotRead(s, snap)
    ensures Inv(SetTask(s, t, if command.CreateOrder? then Reading(i, CommandDraft(command, None), Some(0))
                              else Want(i, Execute(command), snap)))
  {
    hide Inv, RowsOk, Log, StateOk, AllKnown;
    InvRows(s);
    if command.CreateOrder? {
      TaskStep(s, t, Reading(i, CommandDraft(command, None), Some(0)));
    } else {
      TaskStep(s, t, Want(i, Execute(command), snap));
    }
  }

  lemma StoreKeeps(s: System, t: nat)
    requires Inv(s) && t in s.tasks && s.tasks[t].Storing?
    ensures Inv(SetTask(s, t, Idle).(snapshots := s.snapshots + {s.tasks[t].snapshot}))
  {
    hide RowsOk, Log, CommandOk, SnapshotOk, InstanceOk, LoadOk;
    TaskIs(s, t);
    Assemble(s, SetTask(s, t, Idle).(snapshots := s.snapshots + {s.tasks[t].snapshot}));
  }

  /** Every step keeps the invariant. */
  lemma NextKeeps(s: System, s': System, step: Step)
    requires Inv(s) && Next(s, s', step)
    ensures Inv(s')
  {
    hide Inv, CallStep, SettleStep, FinishStep, WakeStep, PolicyStep, DecideStep, TakeStateStep, ReadVersionStep,
      InsertStep, CacheStep, OrderedRows, RowsOk, Log, CommandDraft;
    InvRows(s);
    match step
    case StartRead(t, i) => TaskStep(s, t, Want(i, Read, None));
    case StartPolicy(t, i) => TaskStep(s, t, Want(i, Policy, None));
    case StartCommand(t, i, command, snap) => StartCommandKeeps(s, t, i, command, snap);
    case StartAppend(t, i, draft, expected) => TaskStep(s, t, Reading(i, draft, expected));
    case Call(t, owner) => CallKeeps(s, s', t, owner);
    case Fetch(_, _) => FetchKeeps(s, s', step);
    case FetchFails(_) => FetchKeeps(s, s', step);
    case Settle(o, owner) => SettleKeeps(s, s', o, owner);
    case Finish(o) => FinishKeeps(s, s', o);
    case Wake(t) => WakeKeeps(s, s', t);
    case Return(t) => TaskStep(s, t, Idle);
    case ApplyPolicy(t, first, second, threshold) => PolicyKeeps(s, s', t, first, second, threshold);
    case Decide(t) => DecideKeeps(s, s', t);
    case TakeState(t) => TakeStateKeeps(s, s', t);
    case ReadVersion(t, current) => ReadVersionKeeps(s, s', t, current);
    case Insert(t, id, timestamp) => InsertKeeps(s, s', t, id, timestamp);
    case Abandon(t) => TaskStep(s, t, Idle);
    case CacheIt(t) => CacheKeeps(s, s', t);
    case Store(t) => StoreKeeps(s, t);
    case Clear(i) => ClearKeeps(s, i);
  }

  lemma InitHolds(s: System)
    requires Init(s)
    ensures Inv(s)
  {
  }

  // ---- whole runs ---------------------------------------------------------

  ghost predicate IsRun(run: seq<System>, steps: seq<Step>) {
    && |run| == |steps| + 1 && Init(run[0])
    && forall k :: 0 <= k < |steps| ==> Next(run[k], run[k + 1], steps[k])
  }

  lemma {:induction false} RunKeeps(run: seq<System>, steps: seq<Step>, k: nat)
    requires IsRun(run, steps) && k < |run|
    ensures Inv(run[k])
  {
    hide Inv, Next, Init;
    if k == 0 {
      InitHolds(run[0]);
    } else {
      RunKeeps(run, steps, k - 1);
      NextKeeps(run[k - 1], run[k], steps[k - 1]);
    }
  }

  lemma StepExtends(s: System, s': System, step: Step)
    requires Inv(s) && Next(s, s', step)
    ensures RowsOk(s.rows) && RowsOk(s'.rows) && Extends(Log(s.rows), Log(s'.rows))
    ensures InstancesGrow(s.instances, s'.instances) && s.snapshots <= s'.snapshots && s'.aggregateId == s.aggregateId
  {
    NextKeeps(s, s', step);
    InvRows(s);
    InvRows(s');
    if step.Insert? {
      InsertExtends(s, s', step);
    } else {
      RowsStay(s, s', step);
      FloorsGrow(s, s', step);
    }
  }

  lemma RowsStay(s: System, s': System, step: Step)
    requires Next(s, s', step) && !step.Insert?
    ensures s'.rows == s.rows && s.snapshots <= s'.snapshots && s'.aggregateId == s.aggregateId
  {
    hide AfterLookup, WithEvent, Rebuilt, CommandDraft, MaxVersion, OrderedRows, Latest, Lookup, LookUp;
    if step.Settle? {
      LookUpFloors(s, s.loads[step.o].inst, step.owner);
    } else if step.Call? {
      LookUpFloors(s, s.tasks[step.t].inst, step.owner);
    }
  }

  lemma InsertExtends(s: System, s': System, step: Step)
    requires Inv(s) && RowsOk(s'.rows) && step.Insert? && Next(s, s', step)
    ensures RowsOk(s.rows) && Extends(Log(s.rows), Log(s'.rows))
    ensures InstancesGrow(s.instances, s'.instances) && s.snapshots <= s'.snapshots && s'.aggregateId == s.aggregateId
  {
    hide RowsOk, Log, DraftOk;
    InvRows(s);
    TaskIs(s, step.t);
    var task := s.tasks[step.t];
    if task.next !in s.rows {
      RowsAre(s.rows);
      LogInsert(s.rows, s'.rows[task.next]);
    }
  }

  lemma LookUpFloors(s: System, i: nat, owner: nat)
    requires i in s.instances
    ensures
      var s' := LookUp(s, i, owner);
      InstancesGrow(s.instances, s'.instances) && s'.tasks == s.tasks && s'.rows == s.rows && s'.commanded == s.commanded
      && s'.snapshots == s.snapshots && s'.aggregateId == s.aggregateId
  {
  }

  lemma FloorsGrow(s: System, s': System, step: Step)
    requires Inv(s) && Next(s, s', step) && !step.Insert?
    ensures InstancesGrow(s.instances, s'.instances)
  {
    hide AfterLookup, WithEvent, Rebuilt, CommandDraft, MaxVersion, OrderedRows, Latest, Inv, Prefix, Log, RowsOk, Lookup, LookUp;
    InvRows(s);
    if step.Settle? {
      LoadIs(s, step.o);
      InstanceIs(s, s.loads[step.o].inst);
      LookUpFloors(s, s.loads[step.o].inst, step.owner);
    } else if step.Call? {
      LookUpFloors(s, s.tasks[step.t].inst, step.owner);
    }
  }
}
