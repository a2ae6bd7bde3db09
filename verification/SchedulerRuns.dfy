/** Whole runs of the scheduler: any interleaving of calls, starts and endings of tasks, without reset. */
module SchedulerRuns {
  import opened SchedulerState
  import opened RenderSchedulers
  import opened Wrappers

  /** What runs without interruption. Start is a turn of the loop that finds a task; Succeed and Throw
      are the two ends of a running task. */
  datatype Step = ScheduleAt(priority: int) | Depend(t: nat, d: nat) | Undepend(t: nat, d: nat)
                | Reprioritise(id: nat, level: nat) | CancelOne(id: nat)
                | Start(id: nat) | Succeed(id: nat) | Throw(id: nat)

  const EMPTY: State := State([[], [], [], [], []], {}, map[], 1, false)

  ghost predicate StartStep(s: State, s': State, id: nat, max: nat) {
    && |s.running| < max && Pends(s, id) && s.tasks[id].priority < |s.queues| && IsNext(s, id) && s' == Started(s, id)
  }

  ghost predicate EndStep(s: State, s': State, id: nat, thrown: bool) {
    && |s.queues| == LEVELS && id in s.running && id in s.tasks && s.tasks[id].priority < LEVELS
    && s' == if !thrown then Pruned(Finished(s, id))
             else if s.tasks[id].attempts < MAX_ATTEMPTS then Retried(s, id) else Pruned(GivenUp(s, id))
  }

  ghost predicate Next(s: State, s': State, step: Step, max: nat) {
    match step
    case ScheduleAt(p) =>
      if 0 <= p < |s.queues| then s' == Scheduled(s, p) else s' == s.(nextTaskId := s.nextTaskId + 1)
    case Depend(t, d) => s' == Linked(s, t, d)
    case Undepend(t, d) => s' == Unlinked(s, t, d)
    case Reprioritise(id, p) =>
      if Pends(s, id) then p < |s.queues| && s.tasks[id].priority < |s.queues| && s' == Moved(s, id, p) else s' == s
    case CancelOne(id) => |s.queues| == LEVELS && s' == Attempted(s, id)
    case Start(id) => StartStep(s, s', id, max)
    case Succeed(id) => EndStep(s, s', id, false)
    case Throw(id) => EndStep(s, s', id, true)
  }

  /** The move of a pending task to a priority that has no queue. */
  ghost predicate LosesTask(s: State, step: Step) {
    step.Reprioritise? && step.level >= LEVELS && Pends(s, step.id)
  }

  /** Every step is one call of the class, or one turn of its loop. The one step that is none of the run
      model's moves a pending task to a missing priority, and is the only one that breaks the invariant. */
  method Perform(scheduler: RenderScheduler, step: Step) returns (done: bool)
    requires scheduler.Valid()
    requires step.Succeed? || step.Throw? ==> step.id in scheduler.running
    modifies scheduler
    ensures scheduler.Valid() <==> !LosesTask(old(scheduler.View()), step)
    ensures LosesTask(old(scheduler.View()), step) ==>
      |old(scheduler.queues)| == LEVELS && old(scheduler.tasks)[step.id].priority < LEVELS
      && scheduler.View() == Dropped(old(scheduler.View()), step.id, step.level)
    ensures !step.Start? && scheduler.Valid() ==>
      Next(old(scheduler.View()), scheduler.View(), step, scheduler.maxConcurrent)
    ensures step.Start? && done ==>
      exists id :: Next(old(scheduler.View()), scheduler.View(), Start(id), scheduler.maxConcurrent)
    ensures step.Start? && !done ==> scheduler.View() == old(scheduler.View())
  {
    hide Inv, Met, RemoveFirst, Pruned, Linked, Unlinked, CancelledState, Scheduled, Moved, Foremost, Dropped;
    QueuesAre(scheduler.View(), scheduler.maxConcurrent);
    if step.Succeed? {
      RunningFacts(scheduler.View(), step.id, scheduler.maxConcurrent);
    }
    done := true;
    match step
    case ScheduleAt(p) => var r := scheduler.Schedule(p);
    case Depend(t, d) => var ok := scheduler.AddDependency(t, d);
    case Undepend(t, d) => var ok := scheduler.RemoveDependency(t, d);
    case Reprioritise(id, p) => var ok := scheduler.ChangePriority(id, p);
    case CancelOne(id) => var ok := scheduler.Cancel(id);
    case Start(_) =>
      var r := scheduler.ProcessOnce();
      done := r.Some?;
      if done {
        assert StartStep(old(scheduler.View()), scheduler.View(), r.value, scheduler.maxConcurrent);
        assert Next(old(scheduler.View()), scheduler.View(), Start(r.value), scheduler.maxConcurrent);
      }
    case Succeed(id) => scheduler.Complete(id);
    case Throw(id) => scheduler.Fail(id);
  }

  /** States that follow each other by steps. */
  ghost predicate IsPath(states: seq<State>, steps: seq<Step>, max: nat) {
    && |states| == |steps| + 1
    && forall k :: 0 <= k < |steps| ==> Next(states[k], states[k + 1], steps[k], max)
  }

  ghost predicate OnlyCancels(steps: seq<Step>) { forall k :: 0 <= k < |steps| ==> steps[k].CancelOne? }

  lemma JoinPaths(states: seq<State>, steps: seq<Step>, more: seq<State>, others: seq<Step>, max: nat)
    requires IsPath(states, steps, max) && IsPath(more, others, max) && more[0] == states[|steps|]
    ensures IsPath(states + more[1..], steps + others, max)
    ensures (states + more[1..])[0] == states[0] && (states + more[1..])[|steps + others|] == more[|others|]
    ensures OnlyCancels(steps) && OnlyCancels(others) ==> OnlyCancels(steps + others)
  {
    hide Next;
    var all, done := states + more[1..], steps + others;
    forall k | 0 <= k < |done| ensures Next(all[k], all[k + 1], done[k], max) {
      if k < |steps| {
        assert Next(states[k], states[k + 1], steps[k], max);
      } else {
        var i := k - |steps|;
        assert Next(more[i], more[i + 1], others[i], max);
        assert all[k] == more[i] && all[k + 1] == more[i + 1];
      }
    }
  }

  /** Cancelling a list of ids is a path of as many cancel steps. */
  lemma {:induction false} ListIsPath(s: State, ids: seq<nat>, max: nat) returns (states: seq<State>, steps: seq<Step>)
    requires |s.queues| == LEVELS
    ensures IsPath(states, steps, max) && states[0] == s && states[|steps|] == CancelledList(s, ids)
    ensures |steps| == |ids| && OnlyCancels(steps) && forall k :: 0 <= k < |ids| ==> steps[k].id == ids[k]
  {
    hide Attempted;
    if ids == [] {
      states, steps := [s], [];
    } else {
      var n := |ids| - 1;
      states, steps := ListIsPath(s, ids[..n], max);
      var m := CancelledList(s, ids[..n]);
      JoinPaths(states, steps, [m, Attempted(m, ids[n])], [CancelOne(ids[n])], max);
      states, steps := states + [m, Attempted(m, ids[n])][1..], steps + [CancelOne(ids[n])];
    }
  }

  lemma {:induction false} LevelsArePath(s: State, n: nat, max: nat) returns (states: seq<State>, steps: seq<Step>)
    requires |s.queues| == LEVELS && n <= LEVELS
    ensures IsPath(states, steps, max) && states[0] == s && states[|steps|] == CancelledLevels(s, n) && OnlyCancels(steps)
  {
    hide CancelledList, Next, OnlyCancels;
    if n == 0 {
      states, steps := [s], [];
      NoPath(s, max);
    } else {
      states, steps := LevelsArePath(s, n - 1, max);
      var m := CancelledLevels(s, n - 1);
      var more, others := ListIsPath(m, m.queues[n - 1], max);
      JoinPaths(states, steps, more, others, max);
      states, steps := states + more[1..], steps + others;
    }
  }

  lemma NoPath(s: State, max: nat)
    ensures IsPath([s], [], max) && OnlyCancels([])
  {
  }

  /** cancelAll is no step of its own: it is a path of cancel steps. */
  method PerformCancelAll(scheduler: RenderScheduler, priority: Option<nat>)
    returns (count: nat, ghost states: seq<State>, ghost steps: seq<Step>)
    requires scheduler.Valid() && (priority.Some? ==> priority.value < LEVELS)
    modifies scheduler
    ensures scheduler.Valid() && IsPath(states, steps, scheduler.maxConcurrent) && OnlyCancels(steps)
    ensures states[0] == old(scheduler.View()) && states[|steps|] == scheduler.View()
  {
    hide Inv, IsPath, OnlyCancels, CancelledList, CancelledLevels, LevelsCount, CancelCount;
    ghost var s := scheduler.View();
    QueuesAre(s, scheduler.maxConcurrent);
    count := scheduler.CancelAll(priority);
    if priority.Some? {
      states, steps := ListIsPath(s, s.queues[priority.value], scheduler.maxConcurrent);
    } else {
      states, steps := LevelsArePath(s, LEVELS, scheduler.maxConcurrent);
    }
  }

  // ---- safety -------------------------------------------------------------

  lemma NextKeeps(s: State, s': State, step: Step, max: nat)
    requires Inv(s, max) && Next(s, s', step, max)
    ensures Inv(s', max)
  {
    hide Inv, Scheduled, Linked, Unlinked, Moved, CancelledState, Pruned, Started, Finished, Retried, GivenUp, IsNext;
    QueuesAre(s, max);
    match step
    case ScheduleAt(p) =>
      if 0 <= p < LEVELS {
        ScheduledKeeps(s, p, max);
      } else {
        IdSkipped(s, max);
      }
    case Depend(t, d) => LinkedKeeps(s, t, d, max);
    case Undepend(t, d) => UnlinkedKeeps(s, t, d, max);
    case Reprioritise(id, p) =>
      if Pends(s, id) {
        MovedKeeps(s, id, p, max);
      }
    case CancelOne(id) =>
      if Pends(s, id) {
        CancelledKeeps(s, id, max);
      }
    case Start(id) => StartedKeeps(s, id, max);
    case Succeed(id) => EndKeeps(s, s', id, false, max);
    case Throw(id) => EndKeeps(s, s', id, true, max);
  }

  lemma IdSkipped(s: State, max: nat)
    requires Inv(s, max)
    ensures Inv(s.(nextTaskId := s.nextTaskId + 1), max)
  {
    hide TasksOk, EdgesOk, QueuesOk, WaitsOk, RunningOk;
    TasksLater(s.nextTaskId, s.tasks);
  }

  lemma CancelledKeeps(s: State, id: nat, max: nat)
    requires Inv(s, max) && Pends(s, id)
    ensures |s.queues| == LEVELS && Inv(CancelledState(s, id), max)
  {
    hide Inv, Pruned, Deleted, UnlinkedAll;
    CancelKeeps(s, id, max);
    var u := UnlinkedAll(s, s.tasks[id].dependents, id);
    PrunedKeeps(Deleted(u.(queues := s.queues), {id}), max);
  }

  lemma EndKeeps(s: State, s': State, id: nat, thrown: bool, max: nat)
    requires Inv(s, max) && EndStep(s, s', id, thrown)
    ensures Inv(s', max)
  {
    hide Inv, Pruned, Finished, Retried, GivenUp;
    RunningFacts(s, id, max);
    if !thrown {
      FinishedKeeps(s, id, max);
      PrunedKeeps(Finished(s, id), max);
    } else if s.tasks[id].attempts < MAX_ATTEMPTS {
      RetriedKeeps(s, id, max);
    } else {
      GivenUpKeeps(s, id, max);
      PrunedKeeps(GivenUp(s, id), max);
    }
  }

  ghost predicate IsRun(run: seq<State>, steps: seq<Step>, max: nat) {
    IsPath(run, steps, max) && run[0] == EMPTY
  }

  lemma EmptyHolds(max: nat)
    ensures Inv(EMPTY, max)
  {
  }

  lemma {:induction false} RunKeeps(run: seq<State>, steps: seq<Step>, max: nat, k: nat)
    requires IsRun(run, steps, max) && k < |run|
    ensures Inv(run[k], max)
  {
    hide Inv, Next;
    if k == 0 {
      EmptyHolds(max);
    } else {
      RunKeeps(run, steps, max, k - 1);
      assert Next(run[k - 1], run[k - 1 + 1], steps[k - 1], max);
      NextKeeps(run[k - 1], run[k], steps[k - 1], max);
    }
  }

  /** In every run the limit holds, and a task is in a queue just when it is pending and the queue is that
      of its priority, and then once. */
  lemma RunIsSafe(run: seq<State>, steps: seq<Step>, max: nat, k: nat)
    requires IsRun(run, steps, max) && k < |run|
    ensures |run[k].running| <= max && |run[k].queues| == LEVELS
    ensures forall id :: id in run[k].running <==> id in run[k].tasks && run[k].tasks[id].status == Running
    ensures forall p, id :: 0 <= p < LEVELS ==>
      multiset(run[k].queues[p])[id] == if Pends(run[k], id) && run[k].tasks[id].priority == p then 1 else 0
  {
    var s := run[k];
    RunKeeps(run, steps, max, k);
    forall p, id | 0 <= p < LEVELS
      ensures multiset(s.queues[p])[id] == if Pends(s, id) && s.tasks[id].priority == p then 1 else 0
    {
      QueueIs(s, p, max);
      CountOnce(s.queues[p], id);
      assert id in s.queues[p] <==> Waiting(s.tasks, id, p);
    }
    RunningAre(s, max);
  }

  lemma RunningAre(s: State, max: nat)
    requires Inv(s, max)
    ensures |s.running| <= max && |s.queues| == LEVELS
    ensures forall id :: id in s.running <==> id in s.tasks && s.tasks[id].status == Running
  {
    hide TasksOk, EdgesOk, WaitsOk, QueueOk;
  }

  lemma {:induction false} CountOnce(q: seq<nat>, x: nat)
    requires NoDuplicates(q)
    ensures multiset(q)[x] == if x in q then 1 else 0
  {
    if q != [] {
      CountOnce(q[1..], x);
      assert q == [q[0]] + q[1..];
      if x == q[0] {
        assert x !in q[1..];
      }
    }
  }

  // ---- one task over a run ------------------------------------------------

  /** No task is new, and those that stay keep their status and attempts. */
  ghost predicate Kept(tasks: map<nat, Task>, tasks': map<nat, Task>) {
    forall id :: id in tasks' ==>
      id in tasks && tasks'[id].status == tasks[id].status && tasks'[id].attempts == tasks[id].attempts
  }

  lemma UnlinkedKept(s: State, t: nat, d: nat)
    ensures Kept(s.tasks, Unlinked(s, t, d).tasks)
  {
    hide RemoveFirst;
  }

  lemma {:induction false} UnlinkedAllKept(s: State, ts: seq<nat>, d: nat)
    ensures Kept(s.tasks, UnlinkedAll(s, ts, d).tasks)
  {
    hide Unlinked;
    if ts != [] {
      UnlinkedAllKept(s, ts[..|ts| - 1], d);
      UnlinkedKept(UnlinkedAll(s, ts[..|ts| - 1], d), ts[|ts| - 1], d);
    }
  }

  lemma PrunedKept(s: State)
    requires |s.queues| == LEVELS
    ensures Kept(s.tasks, Pruned(s).tasks) && Pruned(s).nextTaskId == s.nextTaskId
  {
  }

  lemma AttemptedKept(s: State, id: nat)
    requires |s.queues| == LEVELS
    ensures Kept(s.tasks, Attempted(s, id).tasks) && Attempted(s, id).nextTaskId == s.nextTaskId
  {
    hide UnlinkedAll, Pruned;
    if Pends(s, id) {
      var u := UnlinkedAll(s, s.tasks[id].dependents, id);
      UnlinkedAllKept(s, s.tasks[id].dependents, id);
      UnlinkedAllQueues(s, s.tasks[id].dependents, id);
      PrunedKept(Deleted(u.(queues := s.queues), {id}));
    }
  }

  /** What one step does to one task. */
  ghost predicate Tracked(s: State, s': State, step: Step, id: nat) {
    && s'.nextTaskId >= s.nextTaskId
    && (id in s.tasks && id in s'.tasks ==>
          && s'.tasks[id].attempts == s.tasks[id].attempts + (if step == Start(id) then 1 else 0)
          && (s.tasks[id].status == Completed ==> s'.tasks[id].status == Completed))
    && (id !in s.tasks && id in s'.tasks ==>
          id == s.nextTaskId < s'.nextTaskId && s'.tasks[id].attempts == 0 && s'.tasks[id].status == Pending)
    && (step == Start(id) ==> Pends(s, id) && id in s'.tasks)
    && (step == Succeed(id) ==>
          id in s.tasks && s.tasks[id].status == Running && (id in s'.tasks ==> s'.tasks[id].status == Completed))
    && (id in s'.tasks && s'.tasks[id].status == Completed ==>
          step == Succeed(id) || (id in s.tasks && s.tasks[id].status == Completed))
  }

  lemma KeptTracked(s: State, s': State, step: Step, id: nat)
    requires Kept(s.tasks, s'.tasks) && s'.nextTaskId >= s.nextTaskId && !step.Start? && !step.Succeed?
    ensures Tracked(s, s', step, id)
  {
  }

  lemma StepTracks(s: State, s': State, step: Step, max: nat, id: nat)
    requires Inv(s, max) && Next(s, s', step, max)
    ensures Tracked(s, s', step, id)
  {
    hide Inv, Scheduled, Linked, Unlinked, Moved, Started, Pruned, Attempted, RemoveFirst, IsNext, Kept, Tracked, EndStep;
    match step
    case ScheduleAt(p) => ScheduledTracks(s, s', step, max, id);
    case Depend(t, d) =>
      LinkedKept(s, t, d);
      KeptTracked(s, s', step, id);
    case Undepend(t, d) =>
      UnlinkedKept(s, t, d);
      UnlinkedShape(s, t, d);
      KeptTracked(s, s', step, id);
    case Reprioritise(x, p) =>
      if Pends(s, x) {
        MovedKept(s, x, p);
      } else {
        SameKept(s.tasks);
      }
      KeptTracked(s, s', step, id);
    case CancelOne(x) =>
      AttemptedKept(s, x);
      KeptTracked(s, s', step, id);
    case Start(x) => StartedTracks(s, x, id);
    case Succeed(x) => EndTracks(s, s', x, false, max, id);
    case Throw(x) => EndTracks(s, s', x, true, max, id);
  }

  lemma ScheduledTracks(s: State, s': State, step: Step, max: nat, id: nat)
    requires Inv(s, max) && step.ScheduleAt? && Next(s, s', step, max)
    ensures Tracked(s, s', step, id)
  {
    hide Inv;
    NewId(s, max);
  }

  lemma StartedTracks(s: State, x: nat, id: nat)
    requires Pends(s, x) && s.tasks[x].priority < |s.queues|
    ensures Tracked(s, Started(s, x), Start(x), id)
  {
    hide RemoveFirst;
  }

  lemma NewId(s: State, max: nat)
    requires Inv(s, max)
    ensures s.nextTaskId !in s.tasks
  {
    NextIsNew(s);
  }

  lemma LinkedKept(s: State, t: nat, d: nat)
    ensures Kept(s.tasks, Linked(s, t, d).tasks) && Linked(s, t, d).nextTaskId == s.nextTaskId
  {
  }

  lemma MovedKept(s: State, id: nat, p: nat)
    requires Pends(s, id) && s.tasks[id].priority < |s.queues| && p < |s.queues|
    ensures Kept(s.tasks, Moved(s, id, p).tasks) && Moved(s, id, p).nextTaskId == s.nextTaskId
  {
    hide RemoveFirst;
  }

  lemma SameKept(tasks: map<nat, Task>)
    ensures Kept(tasks, tasks)
  {
  }

  lemma EndTracks(s: State, s': State, x: nat, thrown: bool, max: nat, id: nat)
    requires Inv(s, max) && EndStep(s, s', x, thrown)
    ensures Tracked(s, s', if thrown then Throw(x) else Succeed(x), id)
  {
    hide Inv, Pruned;
    RunningFacts(s, x, max);
    if !thrown {
      PrunedKept(Finished(s, x));
    } else if s.tasks[x].attempts >= MAX_ATTEMPTS {
      PrunedKept(GivenUp(s, x));
    }
  }

  /** How often a task was started. */
  function Starts(steps: seq<Step>, id: nat): nat {
    if steps == [] then 0 else Starts(steps[..|steps| - 1], id) + (if steps[|steps| - 1] == Start(id) then 1 else 0)
  }

  ghost predicate StartsOk(s: State, starts: nat, id: nat) {
    && (id in s.tasks ==> starts == s.tasks[id].attempts)
    && (id !in s.tasks && id >= s.nextTaskId ==> starts == 0)
    && starts <= MAX_ATTEMPTS
  }

  lemma RunStep(run: seq<State>, steps: seq<Step>, max: nat, k: nat, id: nat)
    requires IsRun(run, steps, max) && k < |steps|
    ensures |run| == |steps| + 1 && Inv(run[k], max) && Inv(run[k + 1], max) && Next(run[k], run[k + 1], steps[k], max)
    ensures Tracked(run[k], run[k + 1], steps[k], id)
  {
    hide Inv, Next, Tracked;
    RunKeeps(run, steps, max, k);
    RunKeeps(run, steps, max, k + 1);
    assert Next(run[k], run[k + 1], steps[k], max);
    StepTracks(run[k], run[k + 1], steps[k], max, id);
  }

  lemma {:induction false} StartsCounted(run: seq<State>, steps: seq<Step>, max: nat, k: nat, id: nat)
    requires IsRun(run, steps, max) && k <= |steps|
    ensures |run| == |steps| + 1 && StartsOk(run[k], Starts(steps[..k], id), id)
  {
    hide Inv, Next;
    if k > 0 {
      StartsCounted(run, steps, max, k - 1, id);
      RunStep(run, steps, max, k - 1, id);
      assert steps[..k][..k - 1] == steps[..k - 1];
      if id in run[k].tasks {
        TaskBelow(run[k], id, max);
      }
      if id in run[k - 1].tasks {
        TaskBelow(run[k - 1], id, max);
      }
    }
  }

  /** No task is executed more than three times, whatever happens to it. */
  lemma AtMostThreeStarts(run: seq<State>, steps: seq<Step>, max: nat, id: nat)
    requires IsRun(run, steps, max)
    ensures Starts(steps, id) <= 3
  {
    hide IsRun;
    assert |steps| <= |steps| && steps[..|steps|] == steps;
    StartsCounted(run, steps, max, |steps|, id);
  }

  /** Completed tasks have returned before. */
  lemma {:induction false} CompletedReturned(run: seq<State>, steps: seq<Step>, max: nat, k: nat, id: nat) returns (j: nat)
    requires IsRun(run, steps, max) && k < |run| && id in run[k].tasks && run[k].tasks[id].status == Completed
    ensures j < k && j < |steps| && steps[j] == Succeed(id)
    decreases k
  {
    hide Inv, Next;
    assert k > 0;
    RunStep(run, steps, max, k - 1, id);
    if steps[k - 1] == Succeed(id) {
      j := k - 1;
    } else {
      j := CompletedReturned(run, steps, max, k - 1, id);
    }
  }

  /** A task is started only after everything it depends on has returned. */
  lemma DependenciesFirst(run: seq<State>, steps: seq<Step>, max: nat, k: nat, id: nat, d: nat) returns (j: nat)
    requires IsRun(run, steps, max) && k < |steps| && steps[k] == Start(id)
    requires |run| == |steps| + 1 && id in run[k].tasks && d in run[k].tasks[id].dependencies
    ensures j < k && steps[j] == Succeed(d)
  {
    hide Inv, Foremost, RemoveFirst;
    RunStep(run, steps, max, k, id);
    var deps := run[k].tasks[id].dependencies;
    var i :| 0 <= i < |deps| && deps[i] == d;
    assert deps[i] in run[k].tasks && run[k].tasks[deps[i]].status == Completed;
    j := CompletedReturned(run, steps, max, k, d);
  }

  /** Once a task has returned it stays completed for as long as it is known. */
  lemma {:induction false} StaysCompleted(run: seq<State>, steps: seq<Step>, max: nat, j: nat, k: nat, id: nat)
    requires IsRun(run, steps, max) && j < k < |run| && steps[j] == Succeed(id)
    ensures id < run[k].nextTaskId && (id in run[k].tasks ==> run[k].tasks[id].status == Completed)
    decreases k
  {
    hide Inv, Next;
    RunStep(run, steps, max, k - 1, id);
    if j < k - 1 {
      StaysCompleted(run, steps, max, j, k - 1, id);
    } else {
      TaskBelow(run[j], id, max);
    }
  }

  /** A task that has returned is never started again. */
  lemma ReturnedOnce(run: seq<State>, steps: seq<Step>, max: nat, j: nat, k: nat, id: nat)
    requires IsRun(run, steps, max) && j < k < |steps| && steps[j] == Succeed(id)
    ensures steps[k] != Start(id) && steps[k] != Succeed(id)
  {
    hide Inv, Next;
    StaysCompleted(run, steps, max, j, k, id);
    RunStep(run, steps, max, k, id);
  }

  // ---- progress -----------------------------------------------------------

  /** The step is a task's third failure. */
  ghost predicate LastFailure(s: State, step: Step) {
    step.Throw? && step.id in s.tasks && s.tasks[step.id].attempts >= MAX_ATTEMPTS
  }

  lemma ExhaustsOnly(s: State, s': State, step: Step, max: nat)
    requires Next(s, s', step, max) && !s.exhausted && !LastFailure(s, step)
    ensures !s'.exhausted
  {
    hide RemoveFirst, UnlinkedAll, Dead, IsNext;
    if step.CancelOne? && Pends(s, step.id) {
      UnlinkedAllQueues(s, s.tasks[step.id].dependents, step.id);
    }
  }

  lemma {:induction false} NeverExhausted(run: seq<State>, steps: seq<Step>, max: nat, k: nat)
    requires IsRun(run, steps, max) && k < |run|
    requires forall j :: 0 <= j < k ==> !LastFailure(run[j], steps[j])
    ensures !run[k].exhausted
  {
    hide Next, LastFailure;
    if k > 0 {
      NeverExhausted(run, steps, max, k - 1);
      assert Next(run[k - 1], run[k - 1 + 1], steps[k - 1], max) && !LastFailure(run[k - 1], steps[k - 1]);
      ExhaustsOnly(run[k - 1], run[k], steps[k - 1], max);
    }
  }

  /** As long as no task fails three times and the dependencies have no cycle, an idle scheduler with a
      pending task can always start one, whatever was cancelled, moved or pruned before. */
  lemma AlwaysProgress(run: seq<State>, steps: seq<Step>, max: nat, k: nat, rank: nat -> nat, id: nat) returns (ready: nat)
    requires IsRun(run, steps, max) && k < |run|
    requires forall j :: 0 <= j < k ==> !LastFailure(run[j], steps[j])
    requires run[k].running == {} && Acyclic(run[k].tasks, rank) && Pends(run[k], id)
    ensures Pends(run[k], ready) && Met(run[k].tasks, run[k].tasks[ready])
  {
    hide Inv, Next, LastFailure, Met, Acyclic;
    RunKeeps(run, steps, max, k);
    NeverExhausted(run, steps, max, k);
    ready := SomethingCanStart(run[k], max, rank, id);
  }
}
