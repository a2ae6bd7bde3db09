/** When getAggregateState gives the state of the stream it read, and a run in which it does not: the promise
    of backend/eventsourcing/event-sourcing-core.js that the result is the same in every case. */
module EventStoreStates {
  import opened OrderEvents
  import opened EventStoreCache
  import opened EventStoreProtocol
  import opened EventStoreRuns
  import opened Wrappers

  // ---- the exact condition ------------------------------------------------

  /** The same fields with the same values, but for these. */
  ghost predicate AgreeOutside(a: Fields, b: Fields, keys: set<string>) {
    forall x :: x !in keys ==> (x in a <==> x in b) && (x in a ==> a[x] == b[x])
  }

  lemma SameAfterOverwrite(a: Fields, b: Fields, c: Fields)
    ensures a + c == b + c <==> AgreeOutside(a, b, c.Keys)
  {
    var l, r := a + c, b + c;
    if l == r {
      forall x | x !in c.Keys ensures (x in a <==> x in b) && (x in a ==> a[x] == b[x]) {
        assert (x in a <==> x in l) && (x in b <==> x in r);
        assert (x in a ==> l[x] == a[x]) && (x in b ==> r[x] == b[x]);
      }
    }
    if AgreeOutside(a, b, c.Keys) {
      assert l.Keys == r.Keys;
    }
  }

  /** How much of the stream the snapshot stands for. */
  function Covered(snap: Snapshot, events: seq<Event>): int {
    if snap.version < 0 then 0 else if snap.version > |events| then |events| else snap.version
  }

  /** A state built from a snapshot is the replay of the stream if and only if the snapshot differs from the
      replay of what it stands for only in fields that the events after it write. */
  lemma RebuiltIsReplayIff(id: string, snap: Snapshot, events: seq<Event>)
    requires Numbered(events) && snap.version >= 0
    ensures Rebuilt(id, Some(snap), events).Some?
    ensures
      var v := Covered(snap, events);
      Rebuilt(id, Some(snap), events).value == Replay(Initial(id), events) <==>
        AgreeOutside(snap.state, Replay(Initial(id), events[..v]), Changes(events[v..]).Keys)
  {
    hide Replay, Changes, Rebuilt, AgreeOutside;
    var v := Covered(snap, events);
    RebuiltNumbered(id, Some(snap), events);
    assert Rebuilt(id, Some(snap), events) == Some(Replay(snap.state, events[v..])) by { assert events[|events|..] == []; }
    ReplayIsChanges(snap.state, events[v..]);
    ReplayIsChanges(Initial(id), events[..v]);
    ReplayIsChanges(Initial(id), events);
    assert events == events[..v] + events[v..];
    ChangesConcat(events[..v], events[v..]);
    MergeAssoc(Initial(id), Changes(events[..v]), Changes(events[v..]));
    SameAfterOverwrite(snap.state, Replay(Initial(id), events[..v]), Changes(events[v..]));
  }

  /** Without a snapshot it always is. */
  lemma RebuiltFromNothing(id: string, events: seq<Event>)
    requires Numbered(events)
    ensures Rebuilt(id, None, events) == if events == [] then None else Some(Replay(Initial(id), events))
  {
    hide Replay, Rebuilt;
    RebuiltNumbered(id, None, events);
    assert events[0..] == events;
  }

  /** A snapshot that is usable with the stream as the whole log gives the replay of the stream. */
  lemma UsableGivesReplay(id: string, snap: Snapshot, events: seq<Event>)
    requires Numbered(events) && SnapUsable(id, events, Some(snap))
    ensures Rebuilt(id, Some(snap), events) == Some(Replay(Initial(id), events))
  {
    hide Replay, Rebuilt, AllKnown, StateOk, VersionOf;
    RebuiltNumbered(id, Some(snap), events);
  }

  // ---- over whole runs ----------------------------------------------------

  lemma {:induction false} SnapshotGrowsFar(id: string, log: seq<Event>, longer: seq<Event>, snap: Snapshot)
    requires SnapshotOk(id, log, snap) && Prefix(log, longer)
    ensures SnapshotOk(id, longer, snap)
    decreases |longer|
  {
    hide SnapshotOk;
    if |log| == |longer| {
      assert log == longer;
    } else {
      var front := longer[..|longer| - 1];
      assert Prefix(log, front) by { assert front[..|log|] == longer[..|log|]; }
      SnapshotGrowsFar(id, log, front, snap);
      SnapshotGrows(id, front, longer, snap);
    }
  }

  lemma PrefixOfBoth(a: seq<Event>, b: seq<Event>, log: seq<Event>)
    requires Prefix(a, log) && Prefix(b, log) && |a| <= |b|
    ensures Prefix(a, b)
  {
    assert b[..|a|] == log[..|b|][..|a|] == log[..|a|];
  }

  /** In every run, whatever the interleaving: without a snapshot, or with one that was stored when the log was
      not longer than the stream now read, getAggregateState gives exactly the replay of that stream. */
  lemma StateIsReplay(run: seq<System>, steps: seq<Step>, j: nat, k: nat, t: nat)
    requires IsRun(run, steps) && j <= k < |run| && t in run[k].tasks && run[k].tasks[t].Have?
    requires run[k].tasks[t].snap.Some? ==>
      run[k].tasks[t].snap.value in run[j].snapshots && |run[j].rows| <= |run[k].tasks[t].events|
    ensures
      var task := run[k].tasks[t];
      Rebuilt(run[k].aggregateId, task.snap, task.events) ==
        if task.snap.None? && task.events == [] then None else Some(Replay(Initial(run[k].aggregateId), task.events))
  {
    hide IsRun, Inv, Log, Prefix, Replay, Rebuilt, SnapshotOk, RowsOk, InstancesGrow;
    var task, id := run[k].tasks[t], run[k].aggregateId;
    HistoryGrows(run, steps, j, k);
    RunKeeps(run, steps, j);
    RunKeeps(run, steps, k);
    StreamsArePrefixes(run, steps, k, t);
    LogNumbered(run[k].rows);
    PrefixNumbered(task.events, Log(run[k].rows));
    if task.snap.None? {
      RebuiltFromNothing(id, task.events);
    } else {
      SnapshotIs(run[j], task.snap.value);
      PrefixOfBoth(Log(run[j].rows), task.events, Log(run[k].rows));
      SnapshotGrowsFar(id, Log(run[j].rows), task.events, task.snap.value);
      UsableGivesReplay(id, task.snap.value, task.events);
    }
  }

  // ---- a run that gives another state -------------------------------------

  lemma OneMore(run: seq<System>, steps: seq<Step>, step: Step, s': System) returns (run': seq<System>, steps': seq<Step>)
    requires IsRun(run, steps) && |run| == |steps| + 1 && Next(run[|steps|], s', step)
    ensures IsRun(run', steps') && |run'| == |steps'| + 1 && run'[|steps'|] == s'
  {
    hide Next;
    run', steps' := run + [s'], steps + [step];
    forall k | 0 <= k < |steps'| ensures Next(run'[k], run'[k + 1], steps'[k]) {
      if k < |steps| {
        assert Next(run[k], run[k + 1], steps[k]);
      }
    }
  }

  lemma CountIsLatest(rows: map<int, Event>)
    requires RowsOk(rows)
    ensures Latest(rows, |rows|)
  {
    if |rows| == 0 {
      assert |rows.Keys| == 0;
      assert rows.Keys == {};
    }
  }

  lemma LogIsOrdered(rows: map<int, Event>)
    requires RowsOk(rows)
    ensures OrderedRows(rows, Log(rows))
  {
    var log := Log(rows);
    forall v | v in rows ensures rows[v] in log {
      assert log[v - 1] == rows[v];
    }
  }

  /** A direct append from its call to its return. */
  function Appended(s: System, i: nat, e: Event): System
    requires i in s.instances
  {
    var inst := s.instances[i];
    s.(rows := s.rows[e.version := e],
       instances := s.instances[i := Instance(WithEvent(inst.slot, e), if e.version > inst.floor then e.version else inst.floor)])
  }

  function Inserted(s: System, t: nat, i: nat, e: Event): System {
    s.(rows := s.rows[e.version := e], tasks := s.tasks[t := Committed(i, e)])
  }

  lemma AppendBegins(s: System, t: nat, i: nat, draft: Draft)
    requires At(s, t, i) && s.tasks[t].Idle? && draft.basis.Direct? && Latest(s.rows, |s.rows|)
    ensures Next(s, SetTask(s, t, Reading(i, draft, None)), StartAppend(t, i, draft, None))
    ensures Next(SetTask(s, t, Reading(i, draft, None)), SetTask(s, t, Ready(i, draft, |s.rows| + 1)), ReadVersion(t, |s.rows|))
  {
    hide Latest;
    assert s.tasks[t := Reading(i, draft, None)][t := Ready(i, draft, |s.rows| + 1)] == s.tasks[t := Ready(i, draft, |s.rows| + 1)];
  }

  lemma AppendEnds(s: System, t: nat, i: nat, id: string, draft: Draft, e: Event)
    requires At(s, t, i) && s.tasks[t].Idle? && draft.basis.Direct? && |s.rows| + 1 !in s.rows
    requires e == Event(id, draft.etype, s.aggregateId, draft.payload, |s.rows| + 1, "")
    ensures Next(SetTask(s, t, Ready(i, draft, |s.rows| + 1)), Inserted(s, t, i, e), Insert(t, id, ""))
    ensures Next(Inserted(s, t, i, e), Appended(s, i, e), CacheIt(t))
  {
    hide WithEvent;
    var ready := s.tasks[t := Ready(i, draft, |s.rows| + 1)];
    assert ready[t := Committed(i, e)] == s.tasks[t := Committed(i, e)];
    assert s.tasks[t := Committed(i, e)][t := Idle] == s.tasks;
  }

  lemma AppendRun(run: seq<System>, steps: seq<Step>, t: nat, i: nat, id: string, draft: Draft)
    returns (run': seq<System>, steps': seq<Step>, e: Event)
    requires IsRun(run, steps) && draft.basis.Direct?
    requires |run| == |steps| + 1 && At(run[|steps|], t, i) && run[|steps|].tasks[t].Idle?
    ensures e == Event(id, draft.etype, run[|steps|].aggregateId, draft.payload, |run[|steps|].rows| + 1, "")
    ensures IsRun(run', steps') && |run'| == |steps'| + 1 && run'[|steps'|] == Appended(run[|steps|], i, e)
    ensures RowsOk(run[|steps|].rows) && RowsOk(run'[|steps'|].rows)
    ensures Log(run'[|steps'|].rows) == Log(run[|steps|].rows) + [e]
  {
    hide IsRun, Inv, RowsOk, Log, Latest, Next, Inserted, SetTask;
    var s := run[|steps|];
    RunKeeps(run, steps, |steps|);
    InvRows(s);
    CountIsLatest(s.rows);
    RowsAre(s.rows);
    e := Event(id, draft.etype, s.aggregateId, draft.payload, |s.rows| + 1, "");
    LogInsert(s.rows, e);
    AppendBegins(s, t, i, draft);
    AppendEnds(s, t, i, id, draft, e);
    run', steps' := OneMore(run, steps, StartAppend(t, i, draft, None), SetTask(s, t, Reading(i, draft, None)));
    run', steps' := OneMore(run', steps', ReadVersion(t, |s.rows|), SetTask(s, t, Ready(i, draft, |s.rows| + 1)));
    run', steps' := OneMore(run', steps', Insert(t, id, ""), Inserted(s, t, i, e));
    run', steps' := OneMore(run', steps', CacheIt(t), Appended(s, i, e));
  }

  /** A read into an empty cache from its call to its return. */
  function Loaded(s: System, i: nat, owner: nat, log: seq<Event>): System
    requires i in s.instances
  {
    s.(instances := s.instances[i := Instance(Slot(Some(log), None), |log|)],
       loads := s.loads[owner := Load(i, s.instances[i].floor, Done(log))])
  }

  /** The same on its way. */
  function Loading(s: System, t: nat, i: nat, owner: nat, inst: Instance, promise: Promise, task: Task): System
    requires i in s.instances
  {
    s.(instances := s.instances[i := inst], loads := s.loads[owner := Load(i, s.instances[i].floor, promise)],
       tasks := s.tasks[t := task])
  }

  function Waiting(s: System, i: nat, owner: nat): Task
    requires i in s.instances
  {
    Wait(i, Read, None, owner, s.instances[i].floor)
  }

  lemma LoadBegins(s: System, t: nat, i: nat, owner: nat, log: seq<Event>)
    requires At(s, t, i) && s.tasks[t].Idle? && s.instances[i].slot == Slot(None, None) && owner !in s.loads && OrderedRows(s.rows, log)
    ensures
      var mine := Instance(Slot(None, Some(owner)), s.instances[i].floor);
      var asked, called := SetTask(s, t, Want(i, Read, None)), Loading(s, t, i, owner, mine, Fetching, Waiting(s, i, owner));
      && Next(s, asked, StartRead(t, i)) && Next(asked, called, Call(t, owner))
      && Next(called, Loading(s, t, i, owner, mine, Fetched(log), Waiting(s, i, owner)), Fetch(owner, log))
  {
    hide OrderedRows;
    var floor := s.instances[i].floor;
    assert s.tasks[t := Want(i, Read, None)][t := Waiting(s, i, owner)] == s.tasks[t := Waiting(s, i, owner)];
    assert s.loads[owner := Load(i, floor, Fetching)][owner := Load(i, floor, Fetched(log))] == s.loads[owner := Load(i, floor, Fetched(log))];
  }

  lemma LoadSettles(s: System, t: nat, i: nat, owner: nat, log: seq<Event>)
    requires At(s, t, i) && owner + 1 !in s.loads
    ensures
      var mine := Instance(Slot(None, Some(owner)), s.instances[i].floor);
      var shared, free := Instance(Slot(Some(log), Some(owner)), |log|), Instance(Slot(Some(log), None), |log|);
      var w := Waiting(s, i, owner);
      && Next(Loading(s, t, i, owner, mine, Fetched(log), w), Loading(s, t, i, owner, shared, Done(log), w), Settle(owner, owner + 1))
      && Next(Loading(s, t, i, owner, shared, Done(log), w), Loading(s, t, i, owner, free, Done(log), w), Finish(owner))
  {
    var floor := s.instances[i].floor;
    var mine := Instance(Slot(None, Some(owner)), floor);
    var shared, free := Instance(Slot(Some(log), Some(owner)), |log|), Instance(Slot(Some(log), None), |log|);
    assert s.instances[i := mine][i := shared] == s.instances[i := shared];
    assert s.instances[i := shared][i := free] == s.instances[i := free];
    assert s.loads[owner := Load(i, floor, Fetched(log))][owner := Load(i, floor, Done(log))] == s.loads[owner := Load(i, floor, Done(log))];
  }

  lemma LoadEnds(s: System, t: nat, i: nat, owner: nat, log: seq<Event>)
    requires At(s, t, i) && s.tasks[t].Idle?
    ensures
      var free, got := Instance(Slot(Some(log), None), |log|), Have(i, Read, None, log, s.instances[i].floor);
      && Next(Loading(s, t, i, owner, free, Done(log), Waiting(s, i, owner)), Loading(s, t, i, owner, free, Done(log), got), Wake(t))
      && Next(Loading(s, t, i, owner, free, Done(log), got), Loaded(s, i, owner, log), Return(t))
  {
    var got := Have(i, Read, None, log, s.instances[i].floor);
    assert s.tasks[t := Waiting(s, i, owner)][t := got] == s.tasks[t := got];
    assert s.tasks[t := got][t := Idle] == s.tasks;
  }

  lemma LoadRun(run: seq<System>, steps: seq<Step>, t: nat, i: nat, owner: nat)
    returns (run': seq<System>, steps': seq<Step>)
    requires IsRun(run, steps)
    requires |run| == |steps| + 1 && At(run[|steps|], t, i) && run[|steps|].tasks[t].Idle?
    requires run[|steps|].instances[i].slot == Slot(None, None)
    requires owner !in run[|steps|].loads && owner + 1 !in run[|steps|].loads
    ensures RowsOk(run[|steps|].rows)
    ensures IsRun(run', steps') && |run'| == |steps'| + 1
    ensures run'[|steps'|] == Loaded(run[|steps|], i, owner, Log(run[|steps|].rows))
  {
    hide IsRun, Inv, RowsOk, Log, OrderedRows, Next, Loading, Loaded, SetTask;
    var s := run[|steps|];
    RunKeeps(run, steps, |steps|);
    InvRows(s);
    LogIsOrdered(s.rows);
    var log, floor, w := Log(s.rows), s.instances[i].floor, Waiting(s, i, owner);
    LoadBegins(s, t, i, owner, log);
    LoadSettles(s, t, i, owner, log);
    LoadEnds(s, t, i, owner, log);
    var mine := Instance(Slot(None, Some(owner)), floor);
    var shared, free := Instance(Slot(Some(log), Some(owner)), |log|), Instance(Slot(Some(log), None), |log|);
    run', steps' := OneMore(run, steps, StartRead(t, i), SetTask(s, t, Want(i, Read, None)));
    run', steps' := OneMore(run', steps', Call(t, owner), Loading(s, t, i, owner, mine, Fetching, w));
    run', steps' := OneMore(run', steps', Fetch(owner, log), Loading(s, t, i, owner, mine, Fetched(log), w));
    run', steps' := OneMore(run', steps', Settle(owner, owner + 1), Loading(s, t, i, owner, shared, Done(log), w));
    run', steps' := OneMore(run', steps', Finish(owner), Loading(s, t, i, owner, free, Done(log), w));
    run', steps' := OneMore(run', steps', Wake(t), Loading(s, t, i, owner, free, Done(log), Have(i, Read, None, log, floor)));
    run', steps' := OneMore(run', steps', Return(t), Loaded(s, i, owner, log));
  }

  const CREATE := Draft(CREATED, map[], Direct)
  const LIGHT := Draft(UPDATED, map["weight" := Num(1)], Direct)
  const HEAVY := Draft(UPDATED, map["weight" := Num(2), "dest" := Num(9)], Direct)

  function Fresh(id: string): System {
    var cold := Instance(Slot(None, None), 0);
    System(id, map[], {}, {}, map[0 := cold, 1 := cold], map[], map[0 := Idle, 1 := Idle])
  }

  function AfterOne(id: string): Fields {
    map["id" := Text(id), "status" := Text("CREATED"), "version" := Num(1)]
  }

  function AfterTwo(id: string): Fields {
    map["id" := Text(id), "status" := Text("CREATED"), "weight" := Num(1), "version" := Num(2)]
  }

  /** The order as the three events leave it, and as a stale reader sees it: the destination of the third
      event with the weight and the version of the second. */
  function AfterThree(id: string): Fields {
    map["id" := Text(id), "status" := Text("CREATED"), "weight" := Num(2), "dest" := Num(9), "version" := Num(3)]
  }

  function Stale(id: string): Fields { AfterThree(id)["weight" := Num(1)]["version" := Num(2)] }

  ghost predicate ThreeEvents(id: string, log: seq<Event>) {
    && |log| == 3 && Numbered(log)
    && log[0].etype == CREATED && log[0].payload == map[]
    && log[1].etype == UPDATED && log[1].payload == map["weight" := Num(1)]
    && log[2].etype == UPDATED && log[2].payload == map["weight" := Num(2), "dest" := Num(9)]
  }

  lemma Applied(id: string, log: seq<Event>)
    requires ThreeEvents(id, log)
    ensures ApplyEvent(Initial(id), log[0]) == AfterOne(id)
    ensures ApplyEvent(AfterOne(id), log[1]) == AfterTwo(id)
    ensures ApplyEvent(AfterTwo(id), log[2]) == AfterThree(id)
  {
    assert log[0].version == 1 && log[1].version == 2 && log[2].version == 3;
    assert ApplyEvent(Initial(id), log[0]) == AfterOne(id);
    assert ApplyEvent(AfterOne(id), log[1]) == AfterTwo(id);
    assert ApplyEvent(AfterTwo(id), log[2]) == AfterThree(id);
  }

  lemma Replays(id: string, log: seq<Event>)
    requires ThreeEvents(id, log)
    ensures Replay(Initial(id), log[..3]) == AfterThree(id)
    ensures "dest" !in Replay(Initial(id), log[..2]) && "dest" !in Replay(Initial(id), log[..1]) && "dest" !in Replay(Initial(id), log[..0])
  {
    hide ApplyEvent;
    Applied(id, log);
    assert log[..3][..2] == log[..2] && log[..2][..1] == log[..1] && log[..1][..0] == [] && log[..0] == [];
    assert Replay(Initial(id), log[..1]) == AfterOne(id);
    assert Replay(Initial(id), log[..2]) == AfterTwo(id);
  }

  lemma StaleIsBuilt(id: string, log: seq<Event>)
    requires ThreeEvents(id, log)
    ensures Rebuilt(id, Some(Snapshot(1, AfterThree(id))), log[..2]) == Some(Stale(id))
  {
    hide Rebuilt;
    RebuiltNumbered(id, Some(Snapshot(1, AfterThree(id))), log[..2]);
    assert log[..2][1..] == [log[1]] && [log[1]][..0] == [];
    assert ApplyEvent(AfterThree(id), log[1]) == Stale(id);
  }

  /** It is the replay of no part of the log. */
  lemma StaleIsNoReplay(id: string, log: seq<Event>, n: nat)
    requires ThreeEvents(id, log) && n <= 3
    ensures Stale(id) != Replay(Initial(id), log[..n])
  {
    hide Replay;
    Replays(id, log);
    assert Stale(id)["dest"] == Num(9) && Stale(id)["weight"] == Num(1) && AfterThree(id)["weight"] == Num(2);
    assert n == 0 || n == 1 || n == 2 || n == 3;
  }

  /** A call that finds the stream in the cache. */
  lemma CachedCall(s: System, t: nat, i: nat, goal: Goal, snap: Option<Snapshot>, events: seq<Event>, owner: nat)
    requires At(s, t, i) && s.tasks[t] == Want(i, goal, snap) && s.instances[i].slot.cache == Some(events) && owner !in s.loads
    ensures Next(s, SetTask(s, t, Have(i, goal, snap, events, s.instances[i].floor)), Call(t, owner))
  {
    assert s.instances[i := Instance(s.instances[i].slot, s.instances[i].floor)] == s.instances;
    assert LookUp(s, i, owner) == s;
  }

  lemma TwiceSet(s: System, t: nat, a: Task, b: Task)
    ensures SetTask(SetTask(s, t, a), t, b) == SetTask(s, t, b)
  {
    assert s.tasks[t := a][t := b] == s.tasks[t := b];
  }

  /** checkSnapshot up to its second read: the label is the highest version in the cache. */
  lemma PolicyRun(run: seq<System>, steps: seq<Step>, t: nat, i: nat, events: seq<Event>, owner: nat)
    returns (run': seq<System>, steps': seq<Step>)
    requires IsRun(run, steps)
    requires |run| == |steps| + 1 && At(run[|steps|], t, i) && run[|steps|].tasks[t].Idle?
    requires run[|steps|].instances[i].slot.cache == Some(events) && owner !in run[|steps|].loads
    requires events != [] && MaxVersion(events) >= 1
    ensures IsRun(run', steps') && |run'| == |steps'| + 1
    ensures run'[|steps'|] == SetTask(run[|steps|], t, Want(i, TakeSnapshot(MaxVersion(events)), None))
  {
    hide IsRun, MaxVersion;
    var s := run[|steps|];
    var a, got := SetTask(s, t, Want(i, Policy, None)), Have(i, Policy, None, events, s.instances[i].floor);
    run', steps' := OneMore(run, steps, StartPolicy(t, i), a);
    CachedCall(a, t, i, Policy, None, events, owner);
    TwiceSet(s, t, Want(i, Policy, None), got);
    run', steps' := OneMore(run', steps', Call(t, owner), SetTask(s, t, got));
    var next := Want(i, TakeSnapshot(MaxVersion(events)), None);
    TwiceSet(s, t, got, next);
    run', steps' := OneMore(run', steps', ApplyPolicy(t, None, None, 1), SetTask(s, t, next));
  }

  /** And from there on: the state is built from what the cache holds by now. */
  lemma TakeRun(run: seq<System>, steps: seq<Step>, t: nat, i: nat, upTo: int, events: seq<Event>, state: Fields, owner: nat)
    returns (run': seq<System>, steps': seq<Step>)
    requires IsRun(run, steps)
    requires |run| == |steps| + 1 && At(run[|steps|], t, i) && run[|steps|].tasks[t] == Want(i, TakeSnapshot(upTo), None)
    requires run[|steps|].instances[i].slot.cache == Some(events) && owner !in run[|steps|].loads
    requires Rebuilt(run[|steps|].aggregateId, None, events) == Some(state)
    ensures IsRun(run', steps') && |run'| == |steps'| + 1
    ensures run'[|steps'|] == SetTask(run[|steps|], t, Idle).(snapshots := run[|steps|].snapshots + {Snapshot(upTo, state)})
  {
    hide IsRun, Rebuilt;
    var s := run[|steps|];
    var got, storing := Have(i, TakeSnapshot(upTo), None, events, s.instances[i].floor), Storing(i, Snapshot(upTo, state));
    CachedCall(s, t, i, TakeSnapshot(upTo), None, events, owner);
    run', steps' := OneMore(run, steps, Call(t, owner), SetTask(s, t, got));
    TwiceSet(s, t, got, storing);
    run', steps' := OneMore(run', steps', TakeState(t), SetTask(s, t, storing));
    TwiceSet(s, t, storing, Idle);
    run', steps' := OneMore(run', steps', Store(t), SetTask(s, t, Idle).(snapshots := s.snapshots + {Snapshot(upTo, state)}));
  }

  /** A command reads a stored snapshot and the stream in its instance's cache. */
  lemma AskRun(run: seq<System>, steps: seq<Step>, t: nat, i: nat, snap: Snapshot, events: seq<Event>, owner: nat)
    returns (run': seq<System>, steps': seq<Step>)
    requires IsRun(run, steps)
    requires |run| == |steps| + 1 && At(run[|steps|], t, i) && run[|steps|].tasks[t].Idle? && snap in run[|steps|].snapshots
    requires run[|steps|].instances[i].slot.cache == Some(events) && owner !in run[|steps|].loads
    ensures IsRun(run', steps') && |run'| == |steps'| + 1
    ensures run'[|steps'|] ==
      SetTask(run[|steps|], t, Have(i, Execute(UpdateOrder(map[])), Some(snap), events, run[|steps|].instances[i].floor))
  {
    hide IsRun;
    var s, goal := run[|steps|], Execute(UpdateOrder(map[]));
    var want := Want(i, goal, Some(snap));
    run', steps' := OneMore(run, steps, StartCommand(t, i, UpdateOrder(map[]), Some(snap)), SetTask(s, t, want));
    CachedCall(SetTask(s, t, want), t, i, goal, Some(snap), events, owner);
    TwiceSet(s, t, want, Have(i, goal, Some(snap), events, s.instances[i].floor));
    run', steps' := OneMore(run', steps', Call(t, owner), SetTask(s, t, Have(i, goal, Some(snap), events, s.instances[i].floor)));
  }

  lemma Extended(slot: Slot, e: Event)
    requires slot.cache.Some? && Numbered(slot.cache.value) && e.version == |slot.cache.value| + 1
    ensures WithEvent(slot, e) == Slot(Some(slot.cache.value + [e]), None)
  {
  }

  lemma FreshRun(id: string)
    ensures IsRun([Fresh(id)], [])
    ensures RowsOk(Fresh(id).rows) && Log(Fresh(id).rows) == []
  {
  }

  /** The first event, cached by instance 0. */
  lemma FirstCached(id: string) returns (run: seq<System>, steps: seq<Step>, e: Event)
    ensures IsRun(run, steps) && |run| == |steps| + 1 && e == Event("1", CREATED, id, map[], 1, "")
    ensures
      var s := run[|steps|];
      && s.aggregateId == id && RowsOk(s.rows) && Log(s.rows) == [e]
      && s.instances == map[0 := Instance(Slot(Some([e]), None), 1), 1 := Instance(Slot(None, None), 0)]
      && s.tasks == map[0 := Idle, 1 := Idle] && s.loads.Keys == {0}
  {
    hide RowsOk, Log, IsRun;
    run, steps := [Fresh(id)], [];
    FreshRun(id);
    run, steps, e := AppendRun(run, steps, 1, 0, "1", CREATE);
    assert [] + [e] == [e];
    run, steps := LoadRun(run, steps, 1, 0, 0);
  }

  /** Its snapshot policy has taken its label. */
  lemma LabelTaken(id: string) returns (run: seq<System>, steps: seq<Step>, e: Event)
    ensures IsRun(run, steps) && |run| == |steps| + 1 && e == Event("1", CREATED, id, map[], 1, "")
    ensures
      var s := run[|steps|];
      && s.aggregateId == id && RowsOk(s.rows) && Log(s.rows) == [e]
      && s.instances == map[0 := Instance(Slot(Some([e]), None), 1), 1 := Instance(Slot(None, None), 0)]
      && s.tasks == map[0 := Want(0, TakeSnapshot(1), None), 1 := Idle] && s.loads.Keys == {0}
  {
    hide RowsOk, Log, IsRun;
    run, steps, e := FirstCached(id);
    assert MaxVersion([e]) == 1 by { assert [e][..0] == []; }
    run, steps := PolicyRun(run, steps, 0, 0, [e], 3);
  }

  /** The second event, cached by both instances, and the third one, cached by instance 0 only. */
  lemma ReaderLags(id: string) returns (run: seq<System>, steps: seq<Step>, log: seq<Event>)
    ensures IsRun(run, steps) && |run| == |steps| + 1 && ThreeEvents(id, log)
    ensures
      var s := run[|steps|];
      && s.aggregateId == id && RowsOk(s.rows) && Log(s.rows) == log
      && s.instances == map[0 := Instance(Slot(Some(log), None), 3), 1 := Instance(Slot(Some(log[..2]), None), 2)]
      && s.tasks == map[0 := Want(0, TakeSnapshot(1), None), 1 := Idle] && s.loads.Keys == {0, 5}
  {
    hide RowsOk, Log, Next, IsRun, WithEvent;
    var e1: Event, e2: Event, e3: Event;
    run, steps, e1 := LabelTaken(id);
    run, steps, e2 := AppendRun(run, steps, 1, 0, "2", LIGHT);
    Extended(Slot(Some([e1]), None), e2);
    assert [e1] + [e2] == [e1, e2];
    run, steps := LoadRun(run, steps, 1, 1, 5);
    run, steps, e3 := AppendRun(run, steps, 1, 0, "3", HEAVY);
    Extended(Slot(Some([e1, e2]), None), e3);
    log := [e1, e2, e3];
    assert [e1, e2] + [e3] == log && log[..2] == [e1, e2];
  }

  /** A run in which getAggregateState on instance 1 has read a stored snapshot and the two events in its cache, and
      gives a state that is the replay of no part of the log. */
  lemma StaleRun(id: string) returns (run: seq<System>, steps: seq<Step>)
    ensures IsRun(run, steps) && |run| == |steps| + 1
    ensures
      var s := run[|steps|];
      && RowsOk(s.rows) && |s.rows| == 3 && 1 in s.tasks && s.tasks[1].Have? && s.tasks[1].goal.Execute?
      && var state := Rebuilt(s.aggregateId, s.tasks[1].snap, s.tasks[1].events);
      && state == Some(Stale(id)) && VersionOf(Stale(id)) == 2
      && forall n :: 0 <= n <= 3 ==> Stale(id) != Replay(Initial(id), Log(s.rows)[..n])
  {
    hide RowsOk, Log, Next, IsRun, Rebuilt, Replay, ThreeEvents;
    var log: seq<Event>;
    run, steps, log := ReaderLags(id);
    var state := AfterThree(id);
    ThreeAre(id, log);
    Replays(id, log);
    RebuiltFromNothing(id, log);
    assert log[..3] == log;
    run, steps := TakeRun(run, steps, 0, 0, 1, log, state, 7);
    run, steps := AskRun(run, steps, 1, 1, Snapshot(1, state), log[..2], 7);
    StaleIsBuilt(id, log);
    RowsAre(run[|steps|].rows);
    forall n | 0 <= n <= 3 ensures Stale(id) != Replay(Initial(id), log[..n]) {
      StaleIsNoReplay(id, log, n);
    }
  }

  lemma ThreeAre(id: string, log: seq<Event>)
    requires ThreeEvents(id, log)
    ensures |log| == 3 && Numbered(log)
  {
  }
}
