/** What becomes of the tasks behind a failed one: the part of pruneTaskMap in
    backend/scheduler/RenderScheduler.js that is meant to remove them. */
module SchedulerOrphans {
  import opened SchedulerState
  import opened RenderSchedulers
  import opened SchedulerRuns

  // ---- tasks that can never be done ---------------------------------------

  /** The task is gone, has failed for good, or waits over at most n pending tasks for such a one. */
  ghost predicate Hopeless(tasks: map<nat, Task>, id: nat, n: nat)
    decreases n
  {
    id !in tasks || tasks[id].status == Failed
    || (n > 0 && tasks[id].status == Pending && exists d :: d in tasks[id].dependencies && Hopeless(tasks, d, n - 1))
  }

  /** What a step that neither takes an edge away nor cancels leaves of a task. */
  ghost predicate Survives(s: State, s': State, step: Step, id: nat) {
    id in s.tasks && id in s'.tasks ==>
      && (forall d :: d in s.tasks[id].dependencies ==> d in s'.tasks[id].dependencies)
      && (s.tasks[id].status == Failed ==> s'.tasks[id].status == Failed)
      && (s.tasks[id].status == Pending && step != Start(id) ==> s'.tasks[id].status == Pending)
  }

  lemma StepSurvives(s: State, s': State, step: Step, max: nat, id: nat)
    requires Inv(s, max) && Next(s, s', step, max) && !step.Undepend? && !step.CancelOne?
    ensures Survives(s, s', step, id)
  {
    hide Inv, RemoveFirst, Pruned, IsNext, Survives, Linked, Scheduled, Moved, Started, EndStep;
    match step
    case ScheduleAt(p) => ScheduleSurvives(s, s', step, max, id);
    case Depend(t, d) => LinkSurvives(s, t, d, id);
    case Reprioritise(x, p) =>
      if Pends(s, x) {
        MoveSurvives(s, x, p, id);
      } else {
        SameSurvives(s, step, id);
      }
    case Start(x) => StartSurvives(s, x, id);
    case Succeed(x) => EndSurvives(s, s', x, max, id, false);
    case Throw(x) => EndSurvives(s, s', x, max, id, true);
  }

  lemma SameSurvives(s: State, step: Step, id: nat)
    ensures Survives(s, s, step, id)
  {
  }

  lemma ScheduleSurvives(s: State, s': State, step: Step, max: nat, id: nat)
    requires Inv(s, max) && step.ScheduleAt? && Next(s, s', step, max)
    ensures Survives(s, s', step, id)
  {
    hide Inv;
    NewId(s, max);
  }

  lemma LinkSurvives(s: State, t: nat, d: nat, id: nat)
    ensures Survives(s, Linked(s, t, d), Depend(t, d), id)
  {
  }

  lemma MoveSurvives(s: State, x: nat, p: nat, id: nat)
    requires Pends(s, x) && s.tasks[x].priority < |s.queues| && p < |s.queues|
    ensures Survives(s, Moved(s, x, p), Reprioritise(x, p), id)
  {
    hide RemoveFirst;
  }

  lemma StartSurvives(s: State, x: nat, id: nat)
    requires Pends(s, x) && s.tasks[x].priority < |s.queues|
    ensures Survives(s, Started(s, x), Start(x), id)
  {
    hide RemoveFirst;
  }

  lemma EndSurvives(s: State, s': State, x: nat, max: nat, id: nat, thrown: bool)
    requires Inv(s, max) && EndStep(s, s', x, thrown)
    ensures Survives(s, s', if thrown then Throw(x) else Succeed(x), id)
  {
    hide Inv, Without, Dead;
    RunningFacts(s, x, max);
  }

  lemma NotMet(tasks: map<nat, Task>, t: Task, d: nat)
    requires d in t.dependencies && !(d in tasks && tasks[d].status == Completed)
    ensures !Met(tasks, t)
  {
    var i :| 0 <= i < |t.dependencies| && t.dependencies[i] == d;
  }

  /** A task that waits for a hopeless one is not startable. */
  lemma NotStartable(s: State, s': State, id: nat, d: nat, n: nat, max: nat)
    requires id in s.tasks && d in s.tasks[id].dependencies && Hopeless(s.tasks, d, n)
    ensures !Next(s, s', Start(id), max)
  {
    hide Foremost, RemoveFirst;
    NotMet(s.tasks, s.tasks[id], d);
  }

  lemma {:induction false} HopelessKeeps(s: State, s': State, step: Step, max: nat, id: nat, n: nat)
    requires Inv(s, max) && Next(s, s', step, max) && !step.Undepend? && !step.CancelOne?
    requires id < s.nextTaskId && Hopeless(s.tasks, id, n)
    ensures id < s'.nextTaskId && Hopeless(s'.tasks, id, n) && step != Start(id)
    decreases n
  {
    hide Inv, Next;
    StepTracks(s, s', step, max, id);
    StepSurvives(s, s', step, max, id);
    if id in s.tasks && s.tasks[id].status == Pending {
      var d :| d in s.tasks[id].dependencies && Hopeless(s.tasks, d, n - 1);
      DependencyBelow(s, id, d, max);
      HopelessKeeps(s, s', step, max, d, n - 1);
      NotStartable(s, s', id, d, n - 1, max);
    }
  }

  lemma DependencyBelow(s: State, id: nat, d: nat, max: nat)
    requires Inv(s, max) && id in s.tasks && d in s.tasks[id].dependencies
    ensures d < s.nextTaskId
  {
    TaskBelow(s, id, max);
  }

  /** Until a dependency is removed or a task cancelled, what waits for a lost or failed task is never started. */
  lemma {:induction false} HopelessNeverStarts(run: seq<State>, steps: seq<Step>, max: nat, j: nat, k: nat, id: nat, n: nat)
    requires IsRun(run, steps, max) && j <= k < |run| && id < run[j].nextTaskId && Hopeless(run[j].tasks, id, n)
    requires forall i :: j <= i < k ==> !steps[i].Undepend? && !steps[i].CancelOne?
    ensures id < run[k].nextTaskId && Hopeless(run[k].tasks, id, n)
    ensures forall i :: j <= i < k ==> steps[i] != Start(id)
    decreases k
  {
    hide Inv, Next, Hopeless;
    if j < k {
      HopelessNeverStarts(run, steps, max, j, k - 1, id, n);
      RunStep(run, steps, max, k - 1, id);
      HopelessKeeps(run[k - 1], run[k], steps[k - 1], max, id, n);
    }
  }

  // ---- a task whose dependency is gone ------------------------------------

  /** Task d is gone; task id, while it is known, is pending and waits for it. */
  ghost predicate WaitsForLost(s: State, id: nat, d: nat) {
    && id < s.nextTaskId && d < s.nextTaskId && d !in s.tasks
    && (id in s.tasks ==> s.tasks[id].status == Pending && d in s.tasks[id].dependencies)
  }

  /** Dependencies on anything but x, when edges to x are taken away. */
  lemma {:induction false} OtherEdgesStay(s: State, ts: seq<nat>, x: nat, id: nat, d: nat)
    requires id in s.tasks && d in s.tasks[id].dependencies && d != x
    ensures id in UnlinkedAll(s, ts, x).tasks && d in UnlinkedAll(s, ts, x).tasks[id].dependencies
  {
    hide Unlinked;
    if ts != [] {
      OtherEdgesStay(s, ts[..|ts| - 1], x, id, d);
      OtherEdgeStays(UnlinkedAll(s, ts[..|ts| - 1], x), ts[|ts| - 1], x, id, d);
    }
  }

  lemma OtherEdgeStays(s: State, t: nat, x: nat, id: nat, d: nat)
    requires id in s.tasks && d in s.tasks[id].dependencies && (t != id || x != d)
    ensures id in Unlinked(s, t, x).tasks && d in Unlinked(s, t, x).tasks[id].dependencies
  {
    hide RemoveFirst;
    RemoveFirstCount(s.tasks[id].dependencies, x);
    assert multiset(s.tasks[id].dependencies)[d] > 0;
    if t == id && x in s.tasks[id].dependencies {
      assert multiset(RemoveFirst(s.tasks[id].dependencies, x))[d] > 0;
    }
  }

  lemma CancelLeavesEdge(s: State, x: nat, id: nat, d: nat)
    requires |s.queues| == LEVELS && id in s.tasks && d in s.tasks[id].dependencies && d !in s.tasks
    ensures id in Attempted(s, x).tasks ==> d in Attempted(s, x).tasks[id].dependencies
  {
    hide UnlinkedAll, Without, Dead;
    if Pends(s, x) {
      OtherEdgesStay(s, s.tasks[x].dependents, x, id, d);
    }
  }

  lemma EdgeStays(s: State, s': State, step: Step, max: nat, id: nat, d: nat)
    requires Inv(s, max) && Next(s, s', step, max) && id in s.tasks && d in s.tasks[id].dependencies && d !in s.tasks
    requires step != Undepend(id, d)
    ensures id in s'.tasks ==> d in s'.tasks[id].dependencies
  {
    hide Inv, Unlinked, Attempted, IsNext;
    if step.Undepend? {
      OtherEdgeStays(s, step.t, step.d, id, d);
    } else if step.CancelOne? {
      CancelLeavesEdge(s, step.id, id, d);
    } else {
      StepSurvives(s, s', step, max, id);
      hide Next;
    }
  }

  lemma PendingStays(s: State, s': State, step: Step, max: nat, id: nat)
    requires Inv(s, max) && Next(s, s', step, max) && Pends(s, id) && step != Start(id)
    ensures id in s'.tasks ==> s'.tasks[id].status == Pending
  {
    hide Inv, Unlinked, Attempted, IsNext, Kept;
    if step.Undepend? {
      UnlinkedKept(s, step.t, step.d);
      KeptStatus(s.tasks, s'.tasks, id);
    } else if step.CancelOne? {
      AttemptedKept(s, step.id);
      KeptStatus(s.tasks, s'.tasks, id);
    } else {
      StepSurvives(s, s', step, max, id);
      hide Next;
    }
  }

  lemma KeptStatus(tasks: map<nat, Task>, tasks': map<nat, Task>, id: nat)
    requires Kept(tasks, tasks')
    ensures id in tasks' ==> id in tasks && tasks'[id].status == tasks[id].status
  {
  }

  lemma LostKeeps(s: State, s': State, step: Step, max: nat, id: nat, d: nat)
    requires Inv(s, max) && Next(s, s', step, max) && WaitsForLost(s, id, d) && step != Undepend(id, d)
    ensures WaitsForLost(s', id, d) && step != Start(id)
  {
    hide Inv, Next;
    StepTracks(s, s', step, max, id);
    StepTracks(s, s', step, max, d);
    if id in s.tasks {
      NotStartable(s, s', id, d, 0, max);
      EdgeStays(s, s', step, max, id, d);
      PendingStays(s, s', step, max, id);
    }
  }

  /** Until that very dependency is removed, a task that waits for one that is gone is never started and
      stays pending for as long as it is known, whatever else is cancelled, linked, unlinked or pruned. */
  lemma {:induction false} LostNeverStarts(run: seq<State>, steps: seq<Step>, max: nat, j: nat, k: nat, id: nat, d: nat)
    requires IsRun(run, steps, max) && j <= k < |run| && WaitsForLost(run[j], id, d)
    requires forall i :: j <= i < k ==> steps[i] != Undepend(id, d)
    ensures WaitsForLost(run[k], id, d) && forall i :: j <= i < k ==> steps[i] != Start(id)
    decreases k
  {
    hide Inv, Next, WaitsForLost;
    if j < k {
      LostNeverStarts(run, steps, max, j, k - 1, id, d);
      RunStep(run, steps, max, k - 1, id);
      LostKeeps(run[k - 1], run[k], steps[k - 1], max, id, d);
    }
  }

  // ---- what pruning removes -----------------------------------------------

  /** In a reachable state pruning removes a pending task if and only if a task it directly depends on has
      failed for good and is still known. */
  lemma PendingRemovedIff(s: State, id: nat, max: nat)
    requires Inv(s, max) && Pends(s, id)
    ensures |s.queues| == LEVELS
    ensures id !in Pruned(s).tasks <==>
      exists d :: d in s.tasks[id].dependencies && d in s.tasks && s.tasks[d].status == Failed
  {
    hide TaskOk, QueueOk, EdgesOk, Without;
    forall d | d in s.tasks ensures s.tasks[d].status != Cancelled {
      TaskBelow(s, d, max);
      KnownStatus(s.nextTaskId, s.tasks[d]);
    }
  }

  lemma KnownStatus(next: nat, t: Task)
    requires TaskOk(next, t)
    ensures t.status != Cancelled
  {
  }

  /** A pending task with dependencies, none of which is known any more. */
  ghost predicate Orphan(s: State, id: nat, deps: seq<nat>) {
    && Pends(s, id) && s.tasks[id].dependencies == deps && deps != []
    && forall d :: d in deps ==> d < s.nextTaskId && d !in s.tasks
  }

  /** Steps that concern the task itself. */
  predicate Touches(step: Step, id: nat) {
    (step.Depend? && step.t == id) || (step.Undepend? && step.t == id) || step == CancelOne(id)
  }

  lemma {:induction false} UnlinkedAllSpares(s: State, ts: seq<nat>, x: nat, id: nat)
    requires id in s.tasks && x !in s.tasks[id].dependencies && x != id
    ensures id in UnlinkedAll(s, ts, x).tasks && UnlinkedAll(s, ts, x).tasks[id].dependencies == s.tasks[id].dependencies
    ensures UnlinkedAll(s, ts, x).tasks[id].status == s.tasks[id].status
  {
    hide RemoveFirst;
    if ts != [] {
      UnlinkedAllSpares(s, ts[..|ts| - 1], x, id);
    }
  }

  /** Cancelling another task that the orphan does not wait for leaves it alone. */
  lemma CancelSpares(s: State, x: nat, id: nat, deps: seq<nat>, max: nat)
    requires Inv(s, max) && Orphan(s, id, deps) && Pends(s, x) && x != id
    ensures |s.queues| == LEVELS && Pends(CancelledState(s, x), id) && CancelledState(s, x).tasks[id].dependencies == deps
  {
    hide Inv, UnlinkedAll, Without;
    CancelKeeps(s, x, max);
    UnlinkedAllSpares(s, s.tasks[x].dependents, x, id);
    var u := UnlinkedAll(s, s.tasks[x].dependents, x);
    UnlinkedAllKept(s, s.tasks[x].dependents, x);
    var m := Deleted(u.(queues := s.queues), {x});
    assert m.tasks[id] == u.tasks[id];
    PendingRemovedIff(m, id, max);
  }

  lemma OrphanTask(s: State, s': State, step: Step, max: nat, id: nat, deps: seq<nat>)
    requires Inv(s, max) && Next(s, s', step, max) && Orphan(s, id, deps) && !Touches(step, id) && step != Start(id)
    ensures Pends(s', id) && s'.tasks[id].dependencies == deps
  {
    hide Inv, RemoveFirst, IsNext, UnlinkedAll, Without, CancelledState, Pruned;
    QueuesAre(s, max);
    match step
    case ScheduleAt(p) => NewId(s, max);
    case Depend(t, d) =>
    case Undepend(t, d) =>
    case Reprioritise(x, p) =>
    case CancelOne(x) =>
      if Pends(s, x) {
        CancelSpares(s, x, id, deps, max);
      }
    case Start(x) =>
    case Succeed(x) => EndSpares(s, x, id, deps, max, false);
    case Throw(x) => EndSpares(s, x, id, deps, max, true);
  }

  lemma EndSpares(s: State, x: nat, id: nat, deps: seq<nat>, max: nat, thrown: bool)
    requires Inv(s, max) && Orphan(s, id, deps) && x in s.running
    ensures x in s.tasks && |s.queues| == LEVELS && s.tasks[x].status == Running
    ensures !thrown ==> Pends(Pruned(Finished(s, x)), id) && Pruned(Finished(s, x)).tasks[id].dependencies == deps
    ensures thrown && s.tasks[x].attempts >= MAX_ATTEMPTS ==>
      Pends(Pruned(GivenUp(s, x)), id) && Pruned(GivenUp(s, x)).tasks[id].dependencies == deps
  {
    hide Inv, Without;
    RunningFacts(s, x, max);
    if !thrown {
      FinishedKeeps(s, x, max);
      PendingRemovedIff(Finished(s, x), id, max);
    } else if s.tasks[x].attempts >= MAX_ATTEMPTS {
      GivenUpKeeps(s, x, max);
      PendingRemovedIff(GivenUp(s, x), id, max);
    }
  }

  lemma OrphanKeeps(s: State, s': State, step: Step, max: nat, id: nat, deps: seq<nat>)
    requires Inv(s, max) && Next(s, s', step, max) && Orphan(s, id, deps) && !Touches(step, id)
    ensures Orphan(s', id, deps) && step != Start(id)
  {
    hide Inv, Next;
    assert deps[0] in deps && Hopeless(s.tasks, deps[0], 0);
    NotStartable(s, s', id, deps[0], 0, max);
    OrphanTask(s, s', step, max, id, deps);
    forall d | d in deps ensures d < s'.nextTaskId && d !in s'.tasks {
      StepTracks(s, s', step, max, d);
    }
  }

  /** An orphan waits for ever: it stays pending and is not started, whatever happens to other tasks. */
  lemma {:induction false} OrphansStay(run: seq<State>, steps: seq<Step>, max: nat, j: nat, k: nat, id: nat, deps: seq<nat>)
    requires IsRun(run, steps, max) && j <= k < |run| && Orphan(run[j], id, deps)
    requires forall i :: j <= i < k ==> !Touches(steps[i], id)
    ensures Pends(run[k], id) && Orphan(run[k], id, deps)
    ensures forall i :: j <= i < k ==> steps[i] != Start(id)
    decreases k
  {
    hide Inv, Next, Orphan, Touches;
    if j < k {
      OrphansStay(run, steps, max, j, k - 1, id, deps);
      RunStep(run, steps, max, k - 1, id);
      OrphanKeeps(run[k - 1], run[k], steps[k - 1], max, id, deps);
    }
    assert Pends(run[k], id) by { OrphanPends(run[k], id, deps); }
  }

  lemma OrphanPends(s: State, id: nat, deps: seq<nat>)
    requires Orphan(s, id, deps)
    ensures Pends(s, id)
  {
  }

  // ---- a run that leaves an orphan ----------------------------------------

  /** Three tasks, 2 waiting for 1 and 3 for 2, with task 1 in this state. */
  function Chain(status: Status, attempts: nat): map<nat, Task> {
    map[1 := Task(0, status, attempts, [], [2]), 2 := Task(0, Pending, 0, [1], [3]), 3 := Task(0, Pending, 0, [2], [])]
  }

  function Idle(attempts: nat): State {
    State([if attempts == 0 then [1, 2, 3] else [2, 3, 1], [], [], [], []], {}, Chain(Pending, attempts), 4, false)
  }

  function Busy(attempts: nat): State { State([[2, 3], [], [], [], []], {1}, Chain(Running, attempts), 4, false) }

  /** Task 1 has failed, 2 was pruned away, 3 is still there. */
  const ORPHANED: State := State([[3], [], [], [], []], {}, map[1 := Task(0, Failed, 3, [], [2]), 3 := Task(0, Pending, 0, [2], [])], 4, true)

  function Added(count: nat): State
    requires count <= 3
  {
    var t := Task(0, Pending, 0, [], []);
    State([if count == 0 then [] else if count == 1 then [1] else if count == 2 then [1, 2] else [1, 2, 3], [], [], [], []], {},
          if count == 0 then map[] else if count == 1 then map[1 := t] else if count == 2 then map[1 := t, 2 := t]
          else map[1 := t, 2 := t, 3 := t], count + 1, false)
  }

  /** Once task 2 waits for task 1. */
  const HALF_LINKED: State :=
    State([[1, 2, 3], [], [], [], []], {},
          map[1 := Task(0, Pending, 0, [], [2]), 2 := Task(0, Pending, 0, [1], []), 3 := Task(0, Pending, 0, [], [])], 4, false)

  lemma AddOne(count: nat, max: nat)
    requires count < 3
    ensures Next(Added(count), Added(count + 1), ScheduleAt(0), max)
  {
    var s, s' := Added(count), Added(count + 1);
    assert Scheduled(s, 0).tasks == s'.tasks;
    assert s.queues[0] + [count + 1] == s'.queues[0];
    assert Scheduled(s, 0).queues == s'.queues;
  }

  lemma LinkBoth(max: nat)
    ensures Next(Added(3), HALF_LINKED, Depend(2, 1), max) && Next(HALF_LINKED, Idle(0), Depend(3, 2), max)
  {
    var none: seq<nat> := [];
    assert none + [1] == [1] && none + [2] == [2] && none + [3] == [3];
    assert Linked(Added(3), 2, 1).tasks == HALF_LINKED.tasks;
    assert Linked(HALF_LINKED, 3, 2).tasks == Idle(0).tasks;
  }

  /** Only task 1 can start. */
  lemma StartFirst(attempts: nat, max: nat)
    requires max >= 1 && attempts < 3
    ensures Next(Idle(attempts), Busy(attempts + 1), Start(1), max)
  {
    var s := Idle(attempts);
    var q := s.queues[0];
    assert !Met(s.tasks, s.tasks[2]) by { assert s.tasks[2].dependencies[0] == 1; }
    assert !Met(s.tasks, s.tasks[3]) by { assert s.tasks[3].dependencies[0] == 2; }
    var i := if attempts == 0 then 0 else 2;
    assert q[i] == 1 && NoneMet(q[..i], s.tasks);
    assert Foremost(s.queues, s.tasks, 1);
    assert RemoveFirst(q, 1) == [2, 3] by {
      assert [1, 2, 3][1..] == [2, 3] && [2, 3, 1][1..] == [3, 1] && [3, 1][1..] == [1] && [1][1..] == [];
    }
    assert Started(s, 1).tasks == Busy(attempts + 1).tasks;
    assert Started(s, 1).queues == Busy(attempts + 1).queues;
  }

  lemma ThrowAgain(attempts: nat, max: nat)
    requires 0 < attempts < 3
    ensures Next(Busy(attempts), Idle(attempts), Throw(1), max)
  {
    var s := Busy(attempts);
    assert Retried(s, 1).tasks == Idle(attempts).tasks;
    assert s.queues[0] + [1] == Idle(attempts).queues[0];
    assert Retried(s, 1).queues == Idle(attempts).queues;
    assert Retried(s, 1).running == {};
  }

  lemma ThrowLast(max: nat)
    ensures Next(Busy(3), ORPHANED, Throw(1), max)
  {
    var s := GivenUp(Busy(3), 1);
    assert s.tasks == Chain(Failed, 3);
    assert s.running == {};
    DeadInChain();
    assert Without([2, 3], {2}) == [3] by { assert [2, 3][1..] == [3] && [3][1..] == []; }
    assert Without([], {2}) == [];
    assert Pruned(s).queues == ORPHANED.queues;
    assert Pruned(s).tasks == ORPHANED.tasks;
  }

  lemma DeadInChain()
    ensures Dead(Chain(Failed, 3)) == {2}
  {
    var tasks := Chain(Failed, 3);
    assert 2 in tasks[1].dependents && Live(tasks[2]);
    assert 1 in tasks[2].dependencies && tasks[1].status == Failed;
    assert Prunable(tasks, 2) && !Prunable(tasks, 1) && !Prunable(tasks, 3);
  }

  lemma OneMore(run: seq<State>, steps: seq<Step>, step: Step, s': State, max: nat) returns (run': seq<State>, steps': seq<Step>)
    requires IsRun(run, steps, max) && Next(run[|steps|], s', step, max)
    ensures IsRun(run', steps', max) && run'[|steps'|] == s'
  {
    hide Next;
    run', steps' := run + [s'], steps + [step];
    forall k | 0 <= k < |steps'| ensures Next(run'[k], run'[k + 1], steps'[k], max) {
      if k < |steps| {
        assert Next(run[k], run[k + 1], steps[k], max);
      }
    }
  }

  lemma ThreeLinked(max: nat) returns (run: seq<State>, steps: seq<Step>)
    ensures IsRun(run, steps, max) && run[|steps|] == Idle(0)
  {
    hide Next, Idle, Added, IsRun;
    FirstIsEmpty();
    run, steps := [Added(0)], [];
    assert IsRun(run, steps, max) by { JustStarted(run, max); }
    AddOne(0, max);
    run, steps := OneMore(run, steps, ScheduleAt(0), Added(1), max);
    AddOne(1, max);
    run, steps := OneMore(run, steps, ScheduleAt(0), Added(2), max);
    AddOne(2, max);
    run, steps := OneMore(run, steps, ScheduleAt(0), Added(3), max);
    LinkBoth(max);
    run, steps := OneMore(run, steps, Depend(2, 1), HALF_LINKED, max);
    run, steps := OneMore(run, steps, Depend(3, 2), Idle(0), max);
  }

  lemma JustStarted(run: seq<State>, max: nat)
    requires run == [EMPTY]
    ensures IsRun(run, [], max)
  {
  }

  /** A run after which a pending task has outlived the only one it waits for. */
  lemma OrphanReached(max: nat) returns (run: seq<State>, steps: seq<Step>)
    requires max >= 1
    ensures IsRun(run, steps, max) && Orphan(run[|steps|], 3, [2])
  {
    hide Next, Chain, Idle, Busy, IsRun;
    run, steps := ThreeLinked(max);
    StartFirst(0, max);
    run, steps := OneMore(run, steps, Start(1), Busy(1), max);
    ThrowAgain(1, max);
    run, steps := OneMore(run, steps, Throw(1), Idle(1), max);
    StartFirst(1, max);
    run, steps := OneMore(run, steps, Start(1), Busy(2), max);
    ThrowAgain(2, max);
    run, steps := OneMore(run, steps, Throw(1), Idle(2), max);
    StartFirst(2, max);
    run, steps := OneMore(run, steps, Start(1), Busy(3), max);
    ThrowLast(max);
    run, steps := OneMore(run, steps, Throw(1), ORPHANED, max);
  }

  lemma FirstIsEmpty()
    ensures Added(0) == EMPTY
  {
    assert Added(0).tasks == map[];
  }
}
