/** RenderScheduler of backend/scheduler/RenderScheduler.js. What runs without interruption is one
    method; a task that runs ends later, through Complete or Fail. */
module RenderSchedulers {
  import opened SchedulerState
  import opened Wrappers

  lemma {:induction false} SpliceAt(q: seq<nat>, i: nat)
    requires i < |q| && forall j :: 0 <= j < i ==> q[j] != q[i]
    ensures q[..i] + q[i + 1..] == RemoveFirst(q, q[i])
  {
    if i > 0 {
      SpliceAt(q[1..], i - 1);
      assert q[..i] + q[i + 1..] == [q[0]] + (q[1..][..i - 1] + q[1..][i..]);
    }
  }

  lemma {:induction false} RemoveAbsent(q: seq<nat>, x: nat)
    requires x !in q
    ensures RemoveFirst(q, x) == q
  {
    if q != [] {
      RemoveAbsent(q[1..], x);
    }
  }

  /** indexOf, then splice when it is found. */
  method SpliceOut(q: seq<nat>, x: nat) returns (r: seq<nat>)
    ensures r == RemoveFirst(q, x)
  {
    for i := 0 to |q|
      invariant forall j :: 0 <= j < i ==> q[j] != x
    {
      if q[i] == x {
        SpliceAt(q, i);
        return q[..i] + q[i + 1..];
      }
    }
    RemoveAbsent(q, x);
    r := q;
  }

  class RenderScheduler {
    const maxConcurrent: nat
    var queues: seq<seq<nat>>
    var running: set<nat>
    var tasks: map<nat, Task>
    var nextTaskId: nat
    ghost var exhausted: bool

    ghost function View(): State
      reads this
    {
      State(queues, running, tasks, nextTaskId, exhausted)
    }

    ghost predicate Valid()
      reads this
    {
      Inv(View(), maxConcurrent)
    }

    constructor (maxConcurrent: nat)
      ensures Valid() && this.maxConcurrent == maxConcurrent
      ensures View() == State([[], [], [], [], []], {}, map[], 1, false)
    {
      this.maxConcurrent := maxConcurrent;
      queues, running, tasks, nextTaskId, exhausted := [[], [], [], [], []], {}, map[], 1, false;
    }

    /** schedule. A priority that has no queue throws after the id was taken. */
    method Schedule(priority: int) returns (r: Option<nat>)
      requires Valid()
      modifies this
      ensures Valid() && nextTaskId == old(nextTaskId) + 1
      ensures r.Some? <==> 0 <= priority < LEVELS
      ensures r.Some? ==> r.value == old(nextTaskId) && View() == Scheduled(old(View()), priority)
      ensures r.None? ==> View() == old(View()).(nextTaskId := nextTaskId)
    {
      hide TaskOk, EdgesOk, QueueOk, WaitOk;
      var taskId := nextTaskId;
      nextTaskId := nextTaskId + 1;
      if 0 <= priority < LEVELS {
        ScheduledKeeps(old(View()), priority, maxConcurrent);
        queues := queues[priority := queues[priority] + [taskId]];
        tasks := tasks[taskId := Task(priority, Pending, 0, [], [])];
        return Some(taskId);
      }
      TasksLater(taskId, tasks);
      r := None;
    }

    method AddDependency(taskId: nat, dependencyId: nat) returns (ok: bool)
      requires Valid()
      modifies `tasks
      ensures Valid() && View() == Linked(old(View()), taskId, dependencyId)
      ensures ok <==> taskId in old(tasks) && dependencyId in old(tasks)
    {
      hide Inv;
      LinkedKeeps(View(), taskId, dependencyId, maxConcurrent);
      if taskId !in tasks || dependencyId !in tasks {
        return false;
      }
      tasks := tasks[taskId := tasks[taskId].(dependencies := tasks[taskId].dependencies + [dependencyId])];
      tasks := tasks[dependencyId := tasks[dependencyId].(dependents := tasks[dependencyId].dependents + [taskId])];
      ok := true;
    }

    method RemoveDependency(taskId: nat, dependencyId: nat) returns (ok: bool)
      modifies `tasks
      ensures View() == Unlinked(old(View()), taskId, dependencyId) && (old(Valid()) ==> Valid())
      ensures ok <==> taskId in old(tasks) && dependencyId in old(tasks)[taskId].dependencies
    {
      hide Inv, RemoveFirst;
      if Valid() {
        UnlinkedKeeps(View(), taskId, dependencyId, maxConcurrent);
      }
      if taskId !in tasks || dependencyId !in tasks[taskId].dependencies {
        return false;
      }
      var dependencies := SpliceOut(tasks[taskId].dependencies, dependencyId);
      tasks := tasks[taskId := tasks[taskId].(dependencies := dependencies)];
      if dependencyId in tasks {
        var dependents := SpliceOut(tasks[dependencyId].dependents, taskId);
        tasks := tasks[dependencyId := tasks[dependencyId].(dependents := dependents)];
      }
      ok := true;
    }

    /** changePriority. With a priority that has no queue the call throws when the task has left its old
        queue, and the task is lost: the invariant is kept exactly when there was nothing to move or
        the new priority exists. */
    method ChangePriority(taskId: nat, newPriority: nat) returns (ok: bool)
      requires Valid()
      modifies `tasks, `queues
      ensures Valid() <==> newPriority < LEVELS || taskId !in old(tasks) || old(tasks)[taskId].status != Pending
      ensures ok <==> newPriority < LEVELS && taskId in old(tasks) && old(tasks)[taskId].status == Pending
      ensures ok ==> |old(queues)| == LEVELS && old(tasks)[taskId].priority < LEVELS && View() == Moved(old(View()), taskId, newPriority)
      ensures taskId !in old(tasks) || old(tasks)[taskId].status != Pending ==> View() == old(View())
      ensures !Valid() ==> |old(queues)| == LEVELS && old(tasks)[taskId].priority < LEVELS && View() == Dropped(old(View()), taskId, newPriority)
    {
      hide Inv, RemoveFirst;
      ok := false;
      if taskId !in tasks || tasks[taskId].status != Pending {
        return;
      }
      ghost var s := View();
      var task := tasks[taskId];
      PendingFacts(s, taskId, maxConcurrent);
      var queue := SpliceOut(queues[task.priority], taskId);
      queues := queues[task.priority := queue];
      tasks := tasks[taskId := task.(priority := newPriority)];
      if newPriority >= LEVELS {
        Lost(View(), taskId, maxConcurrent);
        return;
      }
      queues := queues[newPriority := queues[newPriority] + [taskId]];
      MovedKeeps(s, taskId, newPriority, maxConcurrent);
      ok := true;
    }

    /** getNextTask: the first startable task of the most urgent queue that has one. */
    method GetNextTask() returns (r: Option<nat>)
      requires Valid()
      modifies `queues
      ensures r.None? ==> queues == old(queues) && forall id :: id in tasks && tasks[id].status == Pending ==> !Met(tasks, tasks[id])
      ensures r.Some? ==> r.value in tasks && tasks[r.value].status == Pending && Met(tasks, tasks[r.value])
      ensures r.Some? ==> tasks[r.value].priority < LEVELS == |old(queues)|
      ensures r.Some? ==> queues == old(queues)[tasks[r.value].priority := RemoveFirst(old(queues)[tasks[r.value].priority], r.value)]
      ensures r.Some? ==> forall id :: id in tasks && tasks[id].status == Pending && tasks[id].priority < tasks[r.value].priority ==>
        !Met(tasks, tasks[id])
      ensures r.Some? ==> Foremost(old(queues), tasks, r.value)
    {
      hide Inv, Met, RemoveFirst, QueueOk;
      ghost var s := View();
      QueuesAre(s, maxConcurrent);
      for priority := 0 to LEVELS
        invariant queues == old(queues)
        invariant forall p :: 0 <= p < priority ==> NoneMet(queues[p], tasks)
      {
        var queue := queues[priority];
        for i := 0 to |queue|
          invariant queues == old(queues)
          invariant forall j :: 0 <= j < i ==> queue[j] in tasks && !Met(tasks, tasks[queue[j]])
        {
          InQueue(s, priority, i, maxConcurrent);
          var task := tasks[queue[i]];
          var met := AreDependenciesMet(task);
          if met {
            SpliceAt(queue, i);
            queues := queues[priority := queue[..i] + queue[i + 1..]];
            EarlierNotMet(s, priority, maxConcurrent);
            return Some(queue[i]);
          }
        }
      }
      EarlierNotMet(s, LEVELS, maxConcurrent);
      r := None;
    }

    method AreDependenciesMet(task: Task) returns (met: bool)
      ensures met <==> Met(tasks, task)
    {
      for i := 0 to |task.dependencies|
        invariant forall j :: 0 <= j < i ==> task.dependencies[j] in tasks && tasks[task.dependencies[j]].status == Completed
      {
        if task.dependencies[i] !in tasks || tasks[task.dependencies[i]].status != Completed {
          return false;
        }
      }
      met := true;
    }

    /** One turn of processLoop: below the limit, the next task is started. */
    method ProcessOnce() returns (r: Option<nat>)
      requires Valid()
      modifies this
      ensures Valid()
      ensures r.Some? ==>
        |old(running)| < maxConcurrent && r.value in old(tasks) && old(tasks)[r.value].status == Pending
        && Met(old(tasks), old(tasks)[r.value]) && old(tasks)[r.value].attempts < MAX_ATTEMPTS
        && old(tasks)[r.value].priority < |old(queues)| && IsNext(old(View()), r.value) && View() == Started(old(View()), r.value)
      ensures r.None? ==> View() == old(View())
      ensures r.None? && |running| < maxConcurrent ==>
        forall id :: id in tasks && tasks[id].status == Pending ==> !Met(tasks, tasks[id])
    {
      hide Inv, Met, RemoveFirst, Foremost;
      if |running| >= maxConcurrent {
        return None;
      }
      r := GetNextTask();
      if r.Some? {
        assert IsNext(old(View()), r.value);
        StartedKeeps(old(View()), r.value, maxConcurrent);
        AttemptsLeft(old(View()), r.value, maxConcurrent);
        RunTask(r.value);
      }
    }

    /** runTask up to its await. */
    method RunTask(id: nat)
      requires id in tasks
      modifies `tasks, `running
      ensures tasks == old(tasks)[id := old(tasks)[id].(status := Running, attempts := old(tasks)[id].attempts + 1)]
      ensures running == old(running) + {id}
    {
      var task := tasks[id];
      tasks := tasks[id := task.(status := Running, attempts := task.attempts + 1)];
      running := running + {id};
    }

    /** runTask after its await, when the component returned. */
    method Complete(id: nat)
      requires Valid() && id in running
      modifies this
      ensures Valid() && old(|queues|) == LEVELS && id in old(tasks) && View() == Pruned(Finished(old(View()), id))
    {
      hide Inv;
      RunningFacts(View(), id, maxConcurrent);
      FinishedKeeps(View(), id, maxConcurrent);
      tasks := tasks[id := tasks[id].(status := Completed)];
      running := running - {id};
      PruneTaskMap();
    }

    /** runTask after its await, when the component threw: another try, or the end. */
    method Fail(id: nat)
      requires Valid() && id in running
      modifies this
      ensures Valid() && old(|queues|) == LEVELS && id in old(tasks) && old(tasks)[id].priority < LEVELS
      ensures old(tasks)[id].attempts < 3 ==> View() == Retried(old(View()), id)
      ensures old(tasks)[id].attempts >= 3 ==> View() == Pruned(GivenUp(old(View()), id))
    {
      hide Inv;
      RunningFacts(View(), id, maxConcurrent);
      var task := tasks[id];
      running := running - {id};
      if task.attempts < MAX_ATTEMPTS {
        RetriedKeeps(old(View()), id, maxConcurrent);
        tasks := tasks[id := task.(status := Pending)];
        queues := queues[task.priority := queues[task.priority] + [id]];
      } else {
        GivenUpKeeps(old(View()), id, maxConcurrent);
        tasks := tasks[id := task.(status := Failed)];
        exhausted := true;
        PruneTaskMap();
      }
    }

    method LiveDependents(task: Task) returns (live: bool)
      ensures live <==> exists d :: d in task.dependents && d in tasks && (tasks[d].status == Pending || tasks[d].status == Running)
    {
      for i := 0 to |task.dependents|
        invariant forall j :: 0 <= j < i ==>
          !(task.dependents[j] in tasks && (tasks[task.dependents[j]].status == Pending || tasks[task.dependents[j]].status == Running))
      {
        var d := task.dependents[i];
        if d in tasks && (tasks[d].status == Pending || tasks[d].status == Running) {
          return true;
        }
      }
      live := false;
    }

    method Blocked(task: Task) returns (blocked: bool)
      ensures blocked <==>
        exists d :: d in task.dependencies && d in tasks && (tasks[d].status == Cancelled || tasks[d].status == Failed)
    {
      for i := 0 to |task.dependencies|
        invariant forall j :: 0 <= j < i ==>
          !(task.dependencies[j] in tasks && (tasks[task.dependencies[j]].status == Cancelled || tasks[task.dependencies[j]].status == Failed))
      {
        var d := task.dependencies[i];
        if d in tasks && (tasks[d].status == Cancelled || tasks[d].status == Failed) {
          return true;
        }
      }
      blocked := false;
    }

    /** The first half of pruneTaskMap: what to delete is decided on the whole map. */
    method CollectDead() returns (toDelete: seq<nat>)
      requires Valid()
      ensures NoDuplicates(toDelete) && forall id :: id in toDelete <==> id in Dead(tasks)
    {
      hide Inv, HasLiveDependent, BlockedForever, Prunable;
      AllBelow(View(), maxConcurrent);
      toDelete := [];
      for taskId := 0 to nextTaskId
        invariant NoDuplicates(toDelete) && forall id :: id in toDelete <==> id in Dead(tasks) && id < taskId
      {
        if taskId in tasks {
          var delete := false;
          var task := tasks[taskId];
          if task.status == Completed || task.status == Failed {
            var live := LiveDependents(task);
            delete := !live;
          } else if task.status == Pending {
            delete := Blocked(task);
          }
          PrunableIs(tasks, taskId);
          if delete {
            toDelete := toDelete + [taskId];
          }
        }
      }
    }

    /** pruneTaskMap. */
    method PruneTaskMap()
      requires Valid()
      modifies `tasks, `queues
      ensures Valid() && |old(queues)| == LEVELS && View() == Pruned(old(View()))
    {
      hide Inv, RemoveFirst, Dead, Deleted, NoDuplicates;
      ghost var s := View();
      PrunedKeeps(s, maxConcurrent);
      var toDelete := CollectDead();
      DeletedNothing(s, toDelete[..0]);
      for k := 0 to |toDelete|
        invariant |queues| == LEVELS && View() == Deleted(s, Listed(toDelete[..k]))
      {
        var x := toDelete[k];
        DeletedOneMore(s, toDelete, k, maxConcurrent);
        var task := tasks[x];
        var queue := SpliceOut(queues[task.priority], x);
        queues := queues[task.priority := queue];
        tasks := tasks - {x};
      }
      assert toDelete[..|toDelete|] == toDelete;
      assert Listed(toDelete) == Dead(s.tasks);
    }

    /** cancel: only a pending task can be cancelled. Its dependents stop waiting for it. */
    method Cancel(taskId: nat) returns (ok: bool)
      requires Valid()
      modifies `tasks, `queues
      ensures Valid() && |old(queues)| == LEVELS
      ensures ok <==> taskId in old(tasks) && old(tasks)[taskId].status == Pending
      ensures ok ==> View() == CancelledState(old(View()), taskId)
      ensures !ok ==> View() == old(View())
    {
      hide Inv, RemoveFirst, Unlinked;
      ghost var s := View();
      QueuesAre(s, maxConcurrent);
      ok := false;
      if taskId !in tasks || tasks[taskId].status != Pending {
        return;
      }
      CancelKeeps(s, taskId, maxConcurrent);
      PendingFacts(s, taskId, maxConcurrent);
      var task := tasks[taskId];
      var queue := SpliceOut(queues[task.priority], taskId);
      queues := queues[task.priority := queue];
      ghost var mid := View();
      for k := 0 to |task.dependents|
        invariant View() == UnlinkedAll(s, task.dependents[..k], taskId).(queues := mid.queues)
      {
        assert task.dependents[..k + 1][..k] == task.dependents[..k];
        UnlinkedIgnoresQueues(UnlinkedAll(s, task.dependents[..k], taskId), mid.queues, task.dependents[k], taskId);
        var removed := RemoveDependency(task.dependents[k], taskId);
      }
      assert task.dependents[..|task.dependents|] == task.dependents;
      UnlinkedAllQueues(s, task.dependents, taskId);
      tasks := tasks - {taskId};
      CancelSplices(s, taskId, maxConcurrent);
      PruneTaskMap();
      ok := true;
    }

    /** cancelAll for one priority, or for all of them, from the most urgent down. */
    method CancelAll(priority: Option<nat>) returns (count: nat)
      requires Valid() && (priority.Some? ==> priority.value < LEVELS)
      modifies `tasks, `queues
      ensures Valid() && |queues| == LEVELS == |old(queues)|
      ensures priority.Some? ==> queues[priority.value] == []
      ensures priority.Some? ==> View() == CancelledList(old(View()), old(queues)[priority.value])
      ensures priority.Some? ==> count == CancelCount(old(View()), old(queues)[priority.value])
      ensures priority.None? ==> forall p :: 0 <= p < LEVELS ==> queues[p] == []
      ensures priority.None? ==> View() == CancelledLevels(old(View()), LEVELS) && count == LevelsCount(old(View()), LEVELS)
    {
      hide Inv, CancelledList, CancelCount;
      QueuesAre(View(), maxConcurrent);
      count := 0;
      if priority.Some? {
        count := CancelQueue(priority.value);
      } else {
        for p := 0 to LEVELS
          invariant Valid() && |queues| == LEVELS && forall r :: 0 <= r < p ==> queues[r] == []
          invariant View() == CancelledLevels(old(View()), p) && count == LevelsCount(old(View()), p)
        {
          var n := CancelQueue(p);
          count := count + n;
        }
      }
    }

    method CancelQueue(p: nat) returns (count: nat)
      requires Valid() && p < LEVELS
      modifies `tasks, `queues
      ensures Valid() && |queues| == LEVELS == |old(queues)| && queues[p] == []
      ensures forall r :: 0 <= r < LEVELS && old(queues)[r] == [] ==> queues[r] == []
      ensures View() == CancelledList(old(View()), old(queues)[p]) && count == CancelCount(old(View()), old(queues)[p])
    {
      hide Inv, CancelledState;
      QueuesAre(View(), maxConcurrent);
      var snapshot := queues[p];
      count := 0;
      for k := 0 to |snapshot|
        invariant Valid() && |queues| == LEVELS && OnlyFrom(queues[p], snapshot, k)
        invariant forall r :: 0 <= r < LEVELS && old(queues)[r] == [] ==> queues[r] == []
        invariant View() == CancelledList(old(View()), snapshot[..k]) && count == CancelCount(old(View()), snapshot[..k])
      {
        assert snapshot[..k + 1][..k] == snapshot[..k];
        ghost var before := View();
        var ok := Cancel(snapshot[k]);
        QueuesAre(View(), maxConcurrent);
        if ok {
          count := count + 1;
          AfterCancel(before, View(), snapshot, k, p);
        } else {
          NotQueued(before, snapshot[k], p, maxConcurrent);
          SkipOne(queues[p], snapshot, k);
        }
      }
      assert snapshot[..|snapshot|] == snapshot;
      assert queues[p] == [] by { NothingLeft(queues[p], snapshot); }
    }
  }

  lemma AfterCancel(s: State, s': State, snapshot: seq<nat>, k: nat, p: nat)
    requires k < |snapshot| && snapshot[k] in s.tasks && |s.queues| == LEVELS == |s'.queues| && p < LEVELS
    requires s' == CancelledState(s, snapshot[k]) && OnlyFrom(s.queues[p], snapshot, k)
    ensures OnlyFrom(s'.queues[p], snapshot, k + 1)
    ensures forall r :: 0 <= r < LEVELS && s.queues[r] == [] ==> s'.queues[r] == []
  {
    hide CancelledState;
    forall x | x in s'.queues[p] ensures x in snapshot[k + 1..] {
      CancelShrinks(s, snapshot[k], p, x);
      assert snapshot[k..] == [snapshot[k]] + snapshot[k + 1..];
    }
    forall r | 0 <= r < LEVELS && s.queues[r] == [] ensures s'.queues[r] == [] {
      if s'.queues[r] != [] {
        CancelShrinks(s, snapshot[k], r, s'.queues[r][0]);
      }
    }
  }

  lemma NotQueued(s: State, id: nat, p: nat, max: nat)
    requires Inv(s, max) && p < LEVELS && !(id in s.tasks && s.tasks[id].status == Pending)
    ensures |s.queues| == LEVELS && id !in s.queues[p]
  {
    QueueIs(s, p, max);
  }

  lemma SkipOne(q: seq<nat>, snapshot: seq<nat>, k: nat)
    requires k < |snapshot| && OnlyFrom(q, snapshot, k) && snapshot[k] !in q
    ensures OnlyFrom(q, snapshot, k + 1)
  {
    assert snapshot[k..] == [snapshot[k]] + snapshot[k + 1..];
  }

  lemma NothingLeft(q: seq<nat>, snapshot: seq<nat>)
    requires OnlyFrom(q, snapshot, |snapshot|)
    ensures q == []
  {
    EmptyOrFirst(q);
  }

  lemma EmptyOrFirst(q: seq<nat>)
    ensures q == [] || q[0] in q
  {
  }

  // ---- facts for the methods ----------------------------------------------

  /** Cancelling only takes ids out of queues, among them the cancelled one. */
  lemma CancelShrinks(s: State, id: nat, p: nat, x: nat)
    requires id in s.tasks && |s.queues| == LEVELS && p < LEVELS && x in CancelledState(s, id).queues[p]
    ensures x in s.queues[p] && x != id
  {
    hide UnlinkedAll;
    var u := UnlinkedAll(s, s.tasks[id].dependents, id).(queues := s.queues);
    var m := Deleted(u, {id});
    WithoutFacts(s.queues[p], {id});
    WithoutFacts(m.queues[p], Dead(m.tasks));
  }

  /** The queue only holds ids still to come. */
  ghost predicate OnlyFrom(q: seq<nat>, snapshot: seq<nat>, k: nat)
    requires k <= |snapshot|
  {
    forall x :: x in q ==> x in snapshot[k..]
  }

  /** The scheduler cannot get stuck: when nothing runs, no task has failed for good and the dependencies
      have no cycle, a turn that starts nothing means that nothing is pending. */
  lemma NeverStuck(s: State, max: nat, rank: nat -> nat)
    requires Inv(s, max) && !s.exhausted && s.running == {} && Acyclic(s.tasks, rank)
    requires forall id :: id in s.tasks && s.tasks[id].status == Pending ==> !Met(s.tasks, s.tasks[id])
    ensures forall id :: id in s.tasks ==> s.tasks[id].status == Completed
  {
    hide Met, TaskOk, EdgesOk, QueueOk;
    forall id | id in s.tasks ensures s.tasks[id].status == Completed {
      SoundStatus(s, id, max);
      if s.tasks[id].status == Pending {
        var ready := SomethingCanStart(s, max, rank, id);
      }
    }
  }

  ghost function CancelledState(s: State, id: nat): State
    requires id in s.tasks && |s.queues| == LEVELS
  {
    var u := UnlinkedAll(s, s.tasks[id].dependents, id);
    Pruned(Deleted(u.(queues := s.queues), {id}))
  }

  /** What cancel does with an id, pending or not. */
  ghost function Attempted(s: State, id: nat): (r: State)
    requires |s.queues| == LEVELS
    ensures |r.queues| == LEVELS
  {
    if id in s.tasks && s.tasks[id].status == Pending then CancelledState(s, id) else s
  }

  ghost function CancelledList(s: State, ids: seq<nat>): (r: State)
    requires |s.queues| == LEVELS
    ensures |r.queues| == LEVELS
  {
    if ids == [] then s else Attempted(CancelledList(s, ids[..|ids| - 1]), ids[|ids| - 1])
  }

  /** How many of the ids were still pending when their turn came. */
  ghost function CancelCount(s: State, ids: seq<nat>): nat
    requires |s.queues| == LEVELS
  {
    if ids == [] then 0
    else
      var m, id := CancelledList(s, ids[..|ids| - 1]), ids[|ids| - 1];
      CancelCount(s, ids[..|ids| - 1]) + (if id in m.tasks && m.tasks[id].status == Pending then 1 else 0)
  }

  ghost function CancelledLevels(s: State, n: nat): (r: State)
    requires |s.queues| == LEVELS && n <= LEVELS
    ensures |r.queues| == LEVELS
  {
    if n == 0 then s else var m := CancelledLevels(s, n - 1); CancelledList(m, m.queues[n - 1])
  }

  ghost function LevelsCount(s: State, n: nat): nat
    requires |s.queues| == LEVELS && n <= LEVELS
  {
    if n == 0 then 0 else var m := CancelledLevels(s, n - 1); LevelsCount(s, n - 1) + CancelCount(m, m.queues[n - 1])
  }

  ghost function Listed(ids: seq<nat>): set<nat> { set id | id in ids }

  ghost predicate NoneMet(q: seq<nat>, tasks: map<nat, Task>) {
    forall j :: 0 <= j < |q| ==> q[j] in tasks && !Met(tasks, tasks[q[j]])
  }

  /** No task before id in its queue can start. */
  ghost predicate Foremost(queues: seq<seq<nat>>, tasks: map<nat, Task>, id: nat)
    requires id in tasks && tasks[id].priority < |queues|
  {
    var q := queues[tasks[id].priority];
    exists i :: 0 <= i < |q| && q[i] == id && NoneMet(q[..i], tasks)
  }

  ghost predicate Pends(s: State, id: nat) { id in s.tasks && s.tasks[id].status == Pending }

  /** The task is next: no task of a more urgent queue can start, nor one before it in its own queue. */
  ghost predicate IsNext(s: State, id: nat)
    requires id in s.tasks && s.tasks[id].priority < |s.queues|
  {
    && Met(s.tasks, s.tasks[id]) && Foremost(s.queues, s.tasks, id)
    && forall x :: Pends(s, x) && s.tasks[x].priority < s.tasks[id].priority ==> !Met(s.tasks, s.tasks[x])
  }

  lemma QueuesAre(s: State, max: nat)
    requires Inv(s, max)
    ensures |s.queues| == LEVELS && forall p :: 0 <= p < LEVELS ==> QueueOk(s.queues[p], s.tasks, p)
  {
  }

  lemma InQueue(s: State, p: nat, i: nat, max: nat)
    requires Inv(s, max) && p < LEVELS && |s.queues| == LEVELS && i < |s.queues[p]|
    ensures Waiting(s.tasks, s.queues[p][i], p) && forall j :: 0 <= j < i ==> s.queues[p][j] != s.queues[p][i]
  {
    QueueIs(s, p, max);
  }

  lemma EarlierNotMet(s: State, priority: nat, max: nat)
    requires Inv(s, max) && priority <= LEVELS == |s.queues| && forall p :: 0 <= p < priority ==> NoneMet(s.queues[p], s.tasks)
    ensures forall id :: id in s.tasks && s.tasks[id].status == Pending && s.tasks[id].priority < priority ==> !Met(s.tasks, s.tasks[id])
    ensures forall id :: id in s.tasks ==> s.tasks[id].priority < LEVELS
  {
    hide Met, EdgesOk, WaitsOk, RunningOk;
    forall id | id in s.tasks ensures s.tasks[id].priority < LEVELS {
      TaskBelow(s, id, max);
    }
    forall id | id in s.tasks && s.tasks[id].status == Pending && s.tasks[id].priority < priority
      ensures !Met(s.tasks, s.tasks[id])
    {
      var p := s.tasks[id].priority;
      QueueIs(s, p, max);
      assert Waiting(s.tasks, id, p) && id in s.queues[p];
      assert NoneMet(s.queues[p], s.tasks);
    }
  }

  lemma AttemptsLeft(s: State, id: nat, max: nat)
    requires Inv(s, max) && id in s.tasks && s.tasks[id].status == Pending
    ensures s.tasks[id].attempts < MAX_ATTEMPTS
  {
    TaskBelow(s, id, max);
  }

  lemma RunningFacts(s: State, id: nat, max: nat)
    requires Inv(s, max) && id in s.running
    ensures id in s.tasks && s.tasks[id].status == Running && s.tasks[id].priority < LEVELS == |s.queues|
  {
    TaskBelow(s, id, max);
  }

  lemma PendingFacts(s: State, id: nat, max: nat)
    requires Inv(s, max) && id in s.tasks && s.tasks[id].status == Pending
    ensures s.tasks[id].priority < LEVELS == |s.queues| && id in s.queues[s.tasks[id].priority]
    ensures NoDuplicates(s.queues[s.tasks[id].priority])
  {
    TaskBelow(s, id, max);
    QueueIs(s, s.tasks[id].priority, max);
    assert Waiting(s.tasks, id, s.tasks[id].priority);
  }

  lemma Lost(s: State, id: nat, max: nat)
    requires id in s.tasks && s.tasks[id].priority >= LEVELS
    ensures !Inv(s, max)
  {
    if Inv(s, max) {
      TaskBelow(s, id, max);
    }
  }

  /** Moving a pending task between queues. */
  lemma MovedKeeps(s: State, id: nat, newPriority: nat, max: nat)
    requires Inv(s, max) && id in s.tasks && s.tasks[id].status == Pending && newPriority < LEVELS
    ensures s.tasks[id].priority < LEVELS == |s.queues|
    ensures Inv(Moved(s, id, newPriority), max)
  {
    hide TasksOk, EdgesOk, WaitsOk, QueueOk, Waiting, RemoveFirst, Without;
    PendingFacts(s, id, max);
    TaskBelow(s, id, max);
    var t := s.tasks[id];
    var left := s.queues[t.priority := RemoveFirst(s.queues[t.priority], id)];
    var t', gone := t.(priority := newPriority), s.tasks[id := t.(status := Completed)];
    var queues' := left[newPriority := left[newPriority] + [id]];
    RemoveIsWithout(s.queues[t.priority], id);
    forall p | 0 <= p < LEVELS ensures QueueOk(queues'[p], s.tasks[id := t'], p) {
      QueueIs(s, p, max);
      MoveWaiting(s.tasks, id, newPriority, p);
      if p == t.priority {
        QueueWithout(s.queues[p], s.tasks, gone, p, {id});
      } else {
        QueueSame(s.queues[p], s.tasks, gone, p);
      }
      if p == newPriority {
        QueueAppend(left[p], gone, s.tasks[id := t'], p, id);
      } else {
        QueueSame(left[p], gone, s.tasks[id := t'], p);
      }
    }
    assert s.running - {id} == s.running;
    StatusKeeps(s, id, t', queues', s.running, s.exhausted, max);
    assert s.(queues := queues', running := s.running, tasks := s.tasks[id := t'], exhausted := s.exhausted)
        == s.(queues := queues', tasks := s.tasks[id := t']);
  }

  lemma MoveWaiting(tasks: map<nat, Task>, id: nat, newPriority: nat, p: nat)
    requires id in tasks && tasks[id].status == Pending
    ensures
      var gone, moved := tasks[id := tasks[id].(status := Completed)], tasks[id := tasks[id].(priority := newPriority)];
      && (forall x :: Waiting(gone, x, p) <==> Waiting(tasks, x, p) && (x != id || p != tasks[id].priority))
      && (forall x :: x != id ==> (Waiting(moved, x, p) <==> Waiting(gone, x, p)))
      && !Waiting(gone, id, p) && (Waiting(moved, id, p) <==> p == newPriority)
  {
  }

  lemma PrunableIs(tasks: map<nat, Task>, id: nat)
    requires id in tasks
    ensures id in Dead(tasks) <==>
      ((tasks[id].status == Completed || tasks[id].status == Failed)
       && !(exists d :: d in tasks[id].dependents && d in tasks && Live(tasks[d])))
      || (tasks[id].status == Pending
          && exists d :: d in tasks[id].dependencies && d in tasks && (tasks[d].status == Cancelled || tasks[d].status == Failed))
  {
  }

  lemma AllBelow(s: State, max: nat)
    requires Inv(s, max)
    ensures forall id :: id in s.tasks ==> id < s.nextTaskId
  {
  }

  lemma DeletedNothing(s: State, ids: seq<nat>)
    requires |s.queues| == LEVELS && ids == []
    ensures Deleted(s, Listed(ids)) == s
  {
    assert Listed(ids) == {};
    forall p | 0 <= p < LEVELS ensures Without(s.queues[p], {}) == s.queues[p] {
      NothingRemoved(s.queues[p], {});
    }
    assert Deleted(s, {}).queues == s.queues && s.tasks - {} == s.tasks;
  }

  lemma DeletedOneMore(s: State, ids: seq<nat>, k: nat, max: nat)
    requires Inv(s, max) && k < |ids| && NoDuplicates(ids) && forall id :: id in ids ==> id in Dead(s.tasks)
    ensures |s.queues| == LEVELS && ids[k] in Deleted(s, Listed(ids[..k])).tasks
    ensures
      var m, x := Deleted(s, Listed(ids[..k])), ids[k];
      var p := m.tasks[x].priority;
      p < LEVELS == |m.queues|
      && m.(queues := m.queues[p := RemoveFirst(m.queues[p], x)], tasks := m.tasks - {x}) == Deleted(s, Listed(ids[..k + 1]))
  {
    hide TasksOk, EdgesOk, WaitsOk, QueueOk, Without, RemoveFirst, Prunable;
    var x, gone := ids[k], Listed(ids[..k]);
    assert x in Dead(s.tasks) && x !in gone;
    var m := Deleted(s, gone);
    assert Listed(ids[..k + 1]) == gone + {x} by { assert ids[..k + 1] == ids[..k] + [x]; }
    TaskBelow(s, x, max);
    var p := m.tasks[x].priority;
    forall r | 0 <= r < LEVELS
      ensures Without(s.queues[r], gone + {x}) == if r == p then RemoveFirst(m.queues[r], x) else m.queues[r]
    {
      QueueIs(s, r, max);
      NoDuplicatesIn(s.queues[r], s.tasks, r);
      WithoutFacts(s.queues[r], gone);
      WithoutTwice(s.queues[r], gone, {x});
      if r == p {
        RemoveIsWithout(m.queues[r], x);
      } else {
        NotThere(s.queues[r], s.tasks, r, x);
        NothingRemoved(m.queues[r], {x});
      }
    }
    assert m.tasks - {x} == s.tasks - (gone + {x});
    assert m.queues[p := RemoveFirst(m.queues[p], x)] == Deleted(s, gone + {x}).queues;
  }

  lemma NotThere(q: seq<nat>, tasks: map<nat, Task>, p: nat, x: nat)
    requires QueueOk(q, tasks, p) && x in tasks && tasks[x].priority != p
    ensures x !in q
  {
  }

  lemma {:induction false} UnlinkedAllQueues(s: State, ts: seq<nat>, d: nat)
    ensures
      var u := UnlinkedAll(s, ts, d);
      u.queues == s.queues && u.running == s.running && u.exhausted == s.exhausted && u.nextTaskId == s.nextTaskId
      && SameShape(s.tasks, u.tasks)
  {
    if ts != [] {
      var m := UnlinkedAll(s, ts[..|ts| - 1], d);
      UnlinkedAllQueues(s, ts[..|ts| - 1], d);
      UnlinkedShape(m, ts[|ts| - 1], d);
      ShapeTwice(s.tasks, m.tasks, UnlinkedAll(s, ts, d).tasks);
    }
  }

  lemma UnlinkedShape(s: State, t: nat, d: nat)
    ensures
      var u := Unlinked(s, t, d);
      u.queues == s.queues && u.running == s.running && u.exhausted == s.exhausted && u.nextTaskId == s.nextTaskId
      && SameShape(s.tasks, u.tasks)
  {
    hide RemoveFirst;
  }

  lemma UnlinkedIgnoresQueues(m: State, queues: seq<seq<nat>>, t: nat, d: nat)
    ensures Unlinked(m.(queues := queues), t, d) == Unlinked(m, t, d).(queues := queues)
  {
    hide RemoveFirst;
  }

  /** Taking a pending task out after its dependents were unlinked from it. */
  lemma CancelKeeps(s: State, id: nat, max: nat)
    requires Inv(s, max) && id in s.tasks && s.tasks[id].status == Pending
    ensures |s.queues| == LEVELS
    ensures
      var u := UnlinkedAll(s, s.tasks[id].dependents, id);
      Inv(Deleted(u.(queues := s.queues), {id}), max)
  {
    hide TasksOk, WaitsOk, QueueOk, UnlinkedAll, EdgesOk, Deleted;
    var ts := s.tasks[id].dependents;
    var u := UnlinkedAll(s, ts, id);
    UnlinkedAllKeeps(s, ts, id, max);
    UnlinkedAllQueues(s, ts, id);
    assert u.(queues := s.queues) == u;
    forall x, d | x in u.tasks && x != id && Live(u.tasks[x]) && d in {id} ensures d !in u.tasks[x].dependencies {
      assert x in s.tasks.Keys;
      NobodyWaits(s, id, x);
    }
    DeletedKeeps(u, {id}, max);
  }

  lemma CancelSplices(s: State, id: nat, max: nat)
    requires Inv(s, max) && id in s.tasks && s.tasks[id].status == Pending
    ensures |s.queues| == LEVELS && s.tasks[id].priority < LEVELS
    ensures
      var u, p := UnlinkedAll(s, s.tasks[id].dependents, id), s.tasks[id].priority;
      u.(queues := s.queues[p := RemoveFirst(s.queues[p], id)], tasks := u.tasks - {id}) == Deleted(u.(queues := s.queues), {id})
  {
    hide TasksOk, WaitsOk, QueueOk, EdgesOk, Without, RemoveFirst, UnlinkedAll;
    PendingFacts(s, id, max);
    var p := s.tasks[id].priority;
    forall r | 0 <= r < LEVELS
      ensures Without(s.queues[r], {id}) == if r == p then RemoveFirst(s.queues[r], id) else s.queues[r]
    {
      QueueIs(s, r, max);
      if r == p {
        RemoveIsWithout(s.queues[r], id);
      } else {
        NotThere(s.queues[r], s.tasks, r, id);
        NothingRemoved(s.queues[r], {id});
      }
    }
    assert s.queues[p := RemoveFirst(s.queues[p], id)]
        == Deleted(UnlinkedAll(s, s.tasks[id].dependents, id).(queues := s.queues), {id}).queues;
  }
}
