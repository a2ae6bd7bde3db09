/** What holds over whole runs of the event store, whatever the interleaving. */
module EventStoreRuns {
  import opened OrderEvents
  import opened EventStoreCache
  import opened EventStoreProtocol
  import opened Wrappers

  /** The committed versions are exactly 1 to n, with no gap and no repeat. */
  lemma VersionsAreContiguous(run: seq<System>, steps: seq<Step>, k: nat)
    requires IsRun(run, steps) && k < |run|
    ensures forall v :: v in run[k].rows <==> 1 <= v <= |run[k].rows|
    ensures forall v :: v in run[k].rows ==> run[k].rows[v].version == v
  {
    hide IsRun;
    RunKeeps(run, steps, k);
  }

  lemma RunStep(run: seq<System>, steps: seq<Step>, k: nat)
    requires IsRun(run, steps) && k < |steps|
    ensures |run| == |steps| + 1 && Inv(run[k]) && Inv(run[k + 1]) && Next(run[k], run[k + 1], steps[k])
    ensures RowsOk(run[k].rows) && RowsOk(run[k + 1].rows) && Extends(Log(run[k].rows), Log(run[k + 1].rows))
    ensures InstancesGrow(run[k].instances, run[k + 1].instances) && run[k].snapshots <= run[k + 1].snapshots
    ensures run[k + 1].aggregateId == run[k].aggregateId
  {
    hide Inv, Next, Init, RowsOk, Log, InstancesGrow, Extends;
    RunKeeps(run, steps, k);
    RunKeeps(run, steps, k + 1);
    StepExtends(run[k], run[k + 1], steps[k]);
  }

  /** A committed event is never changed or removed, and instances only learn. */
  lemma {:induction false} HistoryGrows(run: seq<System>, steps: seq<Step>, j: nat, k: nat)
    requires IsRun(run, steps) && j <= k < |run|
    ensures RowsOk(run[j].rows) && RowsOk(run[k].rows) && Prefix(Log(run[j].rows), Log(run[k].rows))
    ensures InstancesGrow(run[j].instances, run[k].instances) && run[j].snapshots <= run[k].snapshots
    ensures run[k].aggregateId == run[j].aggregateId
    decreases k
  {
    hide IsRun, Log, RowsOk, Extends, Prefix, Inv, Next, InstancesGrow;
    RunKeeps(run, steps, j);
    InvRows(run[j]);
    if j == k {
      WholeIsPrefix(Log(run[j].rows));
      SameGrows(run[j].instances);
    } else {
      HistoryGrows(run, steps, j, k - 1);
      RunLength(run, steps);
      RunStep(run, steps, k - 1);
      PrefixGrows(Log(run[j].rows), Log(run[k - 1].rows), Log(run[k].rows));
      GrowthChains(run[j].instances, run[k - 1].instances, run[k].instances);
    }
  }

  lemma SameGrows(a: map<nat, Instance>)
    ensures InstancesGrow(a, a)
  {
  }

  lemma GrowthChains(a: map<nat, Instance>, b: map<nat, Instance>, c: map<nat, Instance>)
    requires InstancesGrow(a, b) && InstancesGrow(b, c)
    ensures InstancesGrow(a, c)
  {
  }

  lemma RunLength(run: seq<System>, steps: seq<Step>)
    requires IsRun(run, steps)
    ensures |run| == |steps| + 1
  {
  }

  /** A cached stream is the first so many committed events, with versions 1 to its length. */
  lemma CachesArePrefixes(run: seq<System>, steps: seq<Step>, k: nat, i: nat)
    requires IsRun(run, steps) && k < |run| && i in run[k].instances && run[k].instances[i].slot.cache.Some?
    ensures RowsOk(run[k].rows)
    ensures
      var stream := run[k].instances[i].slot.cache.value;
      Prefix(stream, Log(run[k].rows)) && Numbered(stream)
  {
    hide IsRun, Inv, Log, Prefix;
    RunKeeps(run, steps, k);
    InvRows(run[k]);
    InstanceIs(run[k], i);
    LogNumbered(run[k].rows);
    PrefixNumbered(run[k].instances[i].slot.cache.value, Log(run[k].rows));
  }

  /** Every stream handed to a caller is such a prefix too. */
  lemma StreamsArePrefixes(run: seq<System>, steps: seq<Step>, k: nat, t: nat)
    requires IsRun(run, steps) && k < |run| && t in run[k].tasks && run[k].tasks[t].Have?
    ensures RowsOk(run[k].rows) && Prefix(run[k].tasks[t].events, Log(run[k].rows))
    ensures run[k].tasks[t].need <= |run[k].tasks[t].events|
  {
    hide IsRun, Inv, Log, Prefix;
    RunKeeps(run, steps, k);
    InvRows(run[k]);
    TaskIs(run[k], t);
  }

  // ---- reading one's own writes -------------------------------------------

  ghost predicate InCall(s: System, r: nat) {
    r in s.tasks && (s.tasks[r].Wait? || s.tasks[r].Have?)
  }

  lemma CallContinues(s: System, s': System, step: Step, r: nat)
    requires Next(s, s', step) && InCall(s, r) && InCall(s', r)
    ensures s'.tasks[r].inst == s.tasks[r].inst && s'.tasks[r].need == s.tasks[r].need
  {
    hide AfterLookup, WithEvent, Rebuilt, CommandDraft, MaxVersion, OrderedRows, Latest, LookUp, Lookup;
    if step.Settle? {
      LookUpFloors(s, s.loads[step.o].inst, step.owner);
    } else if step.Call? {
      LookUpFloors(s, s.tasks[step.t].inst, step.owner);
    }
  }

  lemma {:induction false} CallKeepsNeed(run: seq<System>, steps: seq<Step>, b: nat, c: nat, r: nat)
    requires IsRun(run, steps) && b <= c < |run| && forall k :: b <= k <= c ==> InCall(run[k], r)
    ensures InCall(run[b], r) && InCall(run[c], r)
    ensures run[c].tasks[r].inst == run[b].tasks[r].inst && run[c].tasks[r].need == run[b].tasks[r].need
    decreases c
  {
    hide Next, Init;
    if b < c {
      CallKeepsNeed(run, steps, b, c - 1, r);
      assert InCall(run[c - 1], r) && InCall(run[c], r);
      CallContinues(run[c - 1], run[c], steps[c - 1], r);
    }
  }

  lemma AppendRaisesFloor(s: System, s': System, t: nat)
    requires CacheStep(s, s', t)
    ensures s.tasks[t].inst in s'.instances && s'.instances[s.tasks[t].inst].floor >= s.tasks[t].event.version
  {
  }

  lemma CallTakesFloor(s: System, s': System, r: nat, owner: nat)
    requires CallStep(s, s', r, owner)
    ensures InCall(s', r) && s'.tasks[r].inst == s.tasks[r].inst
    ensures s'.tasks[r].need == s.instances[s.tasks[r].inst].floor
  {
  }

  /** A getEventStream call made after a local appendEvent returned gives a stream with that event:
      the append finishes at step a, the call is made at step b > a on the same instance and is
      still the one in progress at c, where it has its stream. */
  lemma ReadYourWrites(run: seq<System>, steps: seq<Step>, a: nat, b: nat, c: nat, t: nat, r: nat)
    requires IsRun(run, steps) && a < b < c < |run|
    requires steps[a].CacheIt? && steps[a].t == t && steps[b].Call? && steps[b].t == r
    requires t in run[a].tasks && run[a].tasks[t].Committed?
    requires r in run[b].tasks && run[b].tasks[r].Want? && run[b].tasks[r].inst == run[a].tasks[t].inst
    requires (forall k :: b < k <= c ==> InCall(run[k], r)) && InCall(run[c], r) && run[c].tasks[r].Have?
    ensures run[a].tasks[t].event in run[c].tasks[r].events
  {
    hide IsRun, Inv, Log, Prefix, RowsOk, CacheStep, CallStep, LoadsGrow;
    RunLength(run, steps);
    var i, e := run[a].tasks[t].inst, run[a].tasks[t].event;
    RunStep(run, steps, a);
    AppendRaisesFloor(run[a], run[a + 1], t);
    HistoryGrows(run, steps, a + 1, b);
    RunStep(run, steps, b);
    CallTakesFloor(run[b], run[b + 1], r, steps[b].owner);
    CallKeepsNeed(run, steps, b + 1, c, r);
    StreamsArePrefixes(run, steps, c, r);
    HistoryGrows(run, steps, a, c);
    TaskIs(run[a], t);
    InBoth(run[c].tasks[r].events, Log(run[a].rows), Log(run[c].rows), e);
  }

  lemma InBoth(events: seq<Event>, log: seq<Event>, log': seq<Event>, e: Event)
    requires Prefix(events, log') && Prefix(log, log') && 1 <= e.version <= |log| && log[e.version - 1] == e
    requires e.version <= |events|
    ensures e in events
  {
    assert log'[..|log|][e.version - 1] == log'[e.version - 1] == log'[..|events|][e.version - 1];
  }

  // ---- no lost update -----------------------------------------------------

  /** Every draft on its way comes from a command. */
  ghost predicate CommandsOnly(s: System) {
    && (forall v :: v in s.rows ==> v in s.commanded)
    && (forall t :: t in s.tasks && s.tasks[t].Reading? ==> s.tasks[t].draft.basis.Seen?)
    && (forall t :: t in s.tasks && s.tasks[t].Ready? ==> s.tasks[t].draft.basis.Seen?)
  }

  lemma CommandsOnlyStep(s: System, s': System, step: Step)
    requires CommandsOnly(s) && Next(s, s', step) && !step.StartAppend?
    ensures CommandsOnly(s')
  {
    hide AfterLookup, WithEvent, Rebuilt, MaxVersion, OrderedRows, Latest, LookUp, Lookup, VersionOf;
    if step.Settle? {
      LookUpFloors(s, s.loads[step.o].inst, step.owner);
    } else if step.Call? {
      LookUpFloors(s, s.tasks[step.t].inst, step.owner);
    }
  }

  lemma {:induction false} CommandsOnlyRun(run: seq<System>, steps: seq<Step>, k: nat)
    requires IsRun(run, steps) && k < |run| && forall j :: 0 <= j < |steps| ==> !steps[j].StartAppend?
    ensures CommandsOnly(run[k])
  {
    hide Next;
    if k > 0 {
      CommandsOnlyRun(run, steps, k - 1);
      hide CommandsOnly, Init;
      CommandsOnlyStep(run[k - 1], run[k], steps[k - 1]);
    }
  }

  /** When all writes come from handleCommand, every committed ORDER_UPDATED carries as its
      previousState the replay of exactly the events before it: no update is lost. */
  lemma NoLostUpdate(run: seq<System>, steps: seq<Step>, k: nat, v: int)
    requires IsRun(run, steps) && k < |run| && forall j :: 0 <= j < |steps| ==> !steps[j].StartAppend?
    requires v in run[k].rows && run[k].rows[v].etype == UPDATED
    ensures RowsOk(run[k].rows)
    ensures
      var before := Log(run[k].rows)[..v - 1];
      Get(run[k].rows[v].payload, "previousState") ==
        if v == 1 then Null else Obj(Replay(Initial(run[k].aggregateId), before))
  {
    hide IsRun, SnapshotOk, InstanceOk, LoadOk, TaskOk, Replay, Known;
    RunKeeps(run, steps, k);
    CommandsOnlyRun(run, steps, k);
    var s := run[k];
    var log := Log(s.rows);
    RowsAre(s.rows);
    var before := log[..v - 1];
    forall i | 0 <= i < |before| ensures Known(before[i]) {
      assert i + 1 in s.commanded;
      assert CommandOk(s.aggregateId, log, i + 1);
    }
    assert v in s.commanded && CommandOk(s.aggregateId, log, v);
    assert log[v - 1] == s.rows[v];
  }

  /** A command that read the whole log, with whatever snapshot, expects exactly its last version. */
  lemma ExpectsLatest(run: seq<System>, steps: seq<Step>, k: nat, t: nat)
    requires IsRun(run, steps) && k < |run| && t in run[k].tasks && run[k].tasks[t].Have?
    requires RowsOk(run[k].rows) && AllKnown(Log(run[k].rows)) && run[k].tasks[t].events == Log(run[k].rows)
    ensures ExpectedVersion(Rebuilt(run[k].aggregateId, run[k].tasks[t].snap, run[k].tasks[t].events)) == |run[k].rows|
  {
    hide IsRun, Replay, Inv, Caught, Rebuilt, Log, Prefix, SnapshotOk, VersionOf, AllKnown;
    var s, task := run[k], run[k].tasks[t];
    RunKeeps(run, steps, k);
    InvRows(s);
    RowsAre(s.rows);
    TaskIs(s, t);
    LogNumbered(s.rows);
    UsableIn(s, task.snap);
    if Rebuilt(s.aggregateId, task.snap, task.events).Some? {
      RebuiltVersion(s.aggregateId, Log(s.rows), task.snap, task.events);
    } else {
      NothingRebuilt(s.aggregateId, task.snap, task.events);
    }
  }

  lemma NothingRebuilt(id: string, snap: Option<Snapshot>, events: seq<Event>)
    requires Numbered(events) && Rebuilt(id, snap, events).None?
    ensures events == []
  {
    assert snap.None?;
    hide Rebuilt;
    RebuiltNumbered(id, snap, events);
  }

  /** So it is not refused while nothing is appended: it goes on to insert the next version. */
  lemma UpToDateGoesOn(run: seq<System>, steps: seq<Step>, k: nat, t: nat, decided: System, ready: System, current: int)
    requires IsRun(run, steps) && k < |run| && t in run[k].tasks && run[k].tasks[t].Have?
    requires RowsOk(run[k].rows) && AllKnown(Log(run[k].rows)) && run[k].tasks[t].events == Log(run[k].rows)
    requires Next(run[k], decided, Decide(t)) && Next(decided, ready, ReadVersion(t, current))
    ensures t in ready.tasks && ready.tasks[t].Ready? && ready.tasks[t].next == |run[k].rows| + 1
  {
    hide IsRun, Rebuilt, Log, CommandDraft, AllKnown;
    ExpectsLatest(run, steps, k, t);
    LatestIsCount(decided.rows, current);
  }

  lemma LatestIsCount(rows: map<int, Event>, current: int)
    requires RowsOk(rows) && Latest(rows, current)
    ensures current == |rows|
  {
    if rows != map[] {
      var v :| v in rows;
      assert |rows| in rows;
    }
  }

  // ---- snapshots ----------------------------------------------------------

  /** Replaying the log from a stored snapshot's label gives the same as replaying everything, at the
      time it is stored and ever after, although the state may hold later events already. */
  lemma SnapshotsReplay(run: seq<System>, steps: seq<Step>, j: nat, k: nat, snap: Snapshot)
    requires IsRun(run, steps) && j <= k < |run| && snap in run[j].snapshots
    ensures RowsOk(run[k].rows) && 1 <= snap.version <= |run[k].rows|
    ensures Replay(snap.state, Log(run[k].rows)[snap.version..]) == Replay(Initial(run[k].aggregateId), Log(run[k].rows))
  {
    hide IsRun, Replay, Inv;
    HistoryGrows(run, steps, j, k);
    RunKeeps(run, steps, k);
    SnapshotIs(run[k], snap);
  }

  /** What getAggregateState computes from any stored snapshot, or from none, and any stream that was
      handed out, is caught up with the log from the stream's end on. */
  lemma StatesCatchUp(run: seq<System>, steps: seq<Step>, k: nat, t: nat)
    requires IsRun(run, steps) && k < |run| && t in run[k].tasks && run[k].tasks[t].Have?
    requires Rebuilt(run[k].aggregateId, run[k].tasks[t].snap, run[k].tasks[t].events).Some?
    ensures RowsOk(run[k].rows)
    ensures
      var state := Rebuilt(run[k].aggregateId, run[k].tasks[t].snap, run[k].tasks[t].events).value;
      Caught(state, |run[k].tasks[t].events|, Initial(run[k].aggregateId), Log(run[k].rows))
  {
    hide IsRun, Replay, Inv, Caught, Rebuilt, Log, Prefix, SnapshotOk;
    RunKeeps(run, steps, k);
    InvRows(run[k]);
    TaskIs(run[k], t);
    LogNumbered(run[k].rows);
    UsableIn(run[k], run[k].tasks[t].snap);
    RebuiltCaught(run[k].aggregateId, Log(run[k].rows), run[k].tasks[t].snap, run[k].tasks[t].events, |run[k].tasks[t].events|);
  }
}
