/** The state of backend/scheduler/RenderScheduler.js and its invariant: priority queues, running tasks,
    and a task map with dependency edges listed at both ends. */
module SchedulerState {
  datatype Status = Pending | Running | Completed | Failed | Cancelled

  datatype Task = Task(priority: nat, status: Status, attempts: nat, dependencies: seq<nat>, dependents: seq<nat>)

  const LEVELS: nat := 5
  const MAX_ATTEMPTS: nat := 3

  /** `exhausted` records that some task has failed for good. */
  datatype State = State(queues: seq<seq<nat>>, running: set<nat>, tasks: map<nat, Task>, nextTaskId: nat, exhausted: bool)

  // ---- lists of ids -------------------------------------------------------

  ghost predicate NoDuplicates(q: seq<nat>) { forall i, j :: 0 <= i < j < |q| ==> q[i] != q[j] }

  /** indexOf and splice: the first occurrence goes, if there is one. */
  function RemoveFirst(q: seq<nat>, x: nat): seq<nat> {
    if q == [] then [] else if q[0] == x then q[1..] else [q[0]] + RemoveFirst(q[1..], x)
  }

  function Without(q: seq<nat>, dead: set<nat>): seq<nat> {
    if q == [] then [] else if q[0] in dead then Without(q[1..], dead) else [q[0]] + Without(q[1..], dead)
  }

  lemma {:induction false} RemoveFirstCount(q: seq<nat>, x: nat)
    ensures multiset(RemoveFirst(q, x)) == multiset(q) - multiset{x}
    ensures forall y :: y in RemoveFirst(q, x) ==> y in q
  {
    if q != [] {
      assert q == [q[0]] + q[1..];
      if q[0] != x {
        RemoveFirstCount(q[1..], x);
      }
    }
  }

  lemma {:induction false} WithoutFacts(q: seq<nat>, dead: set<nat>)
    ensures forall y :: y in Without(q, dead) <==> y in q && y !in dead
    ensures NoDuplicates(q) ==> NoDuplicates(Without(q, dead))
  {
    if q != [] {
      WithoutFacts(q[1..], dead);
      assert q == [q[0]] + q[1..];
    }
  }

  /** In a list without duplicates, splicing out and filtering are the same. */
  lemma {:induction false} RemoveIsWithout(q: seq<nat>, x: nat)
    requires NoDuplicates(q)
    ensures RemoveFirst(q, x) == Without(q, {x})
  {
    if q != [] {
      if q[0] == x {
        assert x !in q[1..];
        NothingRemoved(q[1..], {x});
      } else {
        RemoveIsWithout(q[1..], x);
      }
    }
  }

  lemma {:induction false} NothingRemoved(q: seq<nat>, dead: set<nat>)
    requires forall y :: y in q ==> y !in dead
    ensures Without(q, dead) == q
  {
    if q != [] {
      NothingRemoved(q[1..], dead);
    }
  }

  lemma {:induction false} WithoutTwice(q: seq<nat>, a: set<nat>, b: set<nat>)
    ensures Without(Without(q, a), b) == Without(q, a + b)
  {
    if q != [] {
      WithoutTwice(q[1..], a, b);
    }
  }

  // ---- the invariant ------------------------------------------------------

  predicate Live(t: Task) { t.status == Pending || t.status == Running }

  ghost predicate Below(ids: seq<nat>, n: nat) { forall d :: d in ids ==> d < n }

  /** A task on its own: known ids, a proper priority, at most three attempts. */
  ghost predicate TaskOk(next: nat, t: Task) {
    && t.priority < LEVELS && t.status != Cancelled && Below(t.dependencies, next) && Below(t.dependents, next)
    && t.attempts <= MAX_ATTEMPTS
    && (t.status == Pending ==> t.attempts < MAX_ATTEMPTS)
    && (t.status == Running ==> t.attempts >= 1)
    && (t.status == Failed ==> t.attempts == MAX_ATTEMPTS)
  }

  ghost predicate TasksOk(next: nat, tasks: map<nat, Task>) {
    forall id :: id in tasks ==> id < next && TaskOk(next, tasks[id])
  }

  /** The running tasks are those with that status. */
  ghost predicate RunningOk(running: set<nat>, tasks: map<nat, Task>) {
    forall id :: id in running <==> id in tasks && tasks[id].status == Running
  }

  ghost predicate Waiting(tasks: map<nat, Task>, id: nat, p: nat) {
    id in tasks && tasks[id].status == Pending && tasks[id].priority == p
  }

  /** The queue of priority p has exactly the pending tasks of that priority, each once. */
  ghost predicate QueueOk(q: seq<nat>, tasks: map<nat, Task>, p: nat) {
    NoDuplicates(q) && forall id :: id in q <==> Waiting(tasks, id, p)
  }

  ghost predicate QueuesOk(queues: seq<seq<nat>>, tasks: map<nat, Task>) {
    |queues| == LEVELS && forall p :: 0 <= p < LEVELS ==> QueueOk(queues[p], tasks, p)
  }

  /** An edge is listed as often at its one end as at its other. */
  ghost predicate EdgesOk(tasks: map<nat, Task>) {
    forall t, d :: t in tasks && d in tasks ==> Uses(tasks[t], d) == UsedBy(tasks[d], t)
  }

  /** How often d is listed among the dependencies of t, and t among the dependents of d. */
  ghost function Uses(t: Task, d: nat): nat { multiset(t.dependencies)[d] }

  ghost function UsedBy(d: Task, t: nat): nat { multiset(d.dependents)[t] }

  /** What a live task waits for is still known. */
  ghost predicate WaitOk(tasks: map<nat, Task>, t: Task) {
    t.status != Failed && (Live(t) ==> forall d :: d in t.dependencies ==> d in tasks)
  }

  /** Until a task fails for good, every task can still get its turn. */
  ghost predicate WaitsOk(exhausted: bool, tasks: map<nat, Task>) {
    !exhausted ==> forall id :: id in tasks ==> WaitOk(tasks, tasks[id])
  }

  ghost predicate Inv(s: State, maxConcurrent: nat) {
    && TasksOk(s.nextTaskId, s.tasks) && RunningOk(s.running, s.tasks) && |s.running| <= maxConcurrent
    && QueuesOk(s.queues, s.tasks) && EdgesOk(s.tasks) && WaitsOk(s.exhausted, s.tasks)
  }

  // ---- what the operations do ---------------------------------------------

  function Scheduled(s: State, priority: nat): State
    requires priority < |s.queues|
  {
    var id := s.nextTaskId;
    s.(queues := s.queues[priority := s.queues[priority] + [id]],
       tasks := s.tasks[id := Task(priority, Pending, 0, [], [])], nextTaskId := id + 1)
  }

  function Linked(s: State, t: nat, d: nat): State {
    if t in s.tasks && d in s.tasks then
      var a := s.tasks[t := s.tasks[t].(dependencies := s.tasks[t].dependencies + [d])];
      s.(tasks := a[d := a[d].(dependents := a[d].dependents + [t])])
    else s
  }

  function Unlinked(s: State, t: nat, d: nat): State {
    if t in s.tasks && d in s.tasks[t].dependencies then
      var a := s.tasks[t := s.tasks[t].(dependencies := RemoveFirst(s.tasks[t].dependencies, d))];
      s.(tasks := if d in a then a[d := a[d].(dependents := RemoveFirst(a[d].dependents, t))] else a)
    else s
  }

  /** removeDependency(t, d) for every t of a list. */
  function UnlinkedAll(s: State, ts: seq<nat>, d: nat): State {
    if ts == [] then s else Unlinked(UnlinkedAll(s, ts[..|ts| - 1], d), ts[|ts| - 1], d)
  }

  ghost predicate HasLiveDependent(tasks: map<nat, Task>, id: nat)
    requires id in tasks
  {
    exists d :: d in tasks[id].dependents && d in tasks && Live(tasks[d])
  }

  ghost predicate BlockedForever(tasks: map<nat, Task>, id: nat)
    requires id in tasks
  {
    exists d :: d in tasks[id].dependencies && d in tasks && (tasks[d].status == Cancelled || tasks[d].status == Failed)
  }

  /** What pruneTaskMap deletes. */
  ghost predicate Prunable(tasks: map<nat, Task>, id: nat)
    requires id in tasks
  {
    match tasks[id].status
    case Completed => !HasLiveDependent(tasks, id)
    case Failed => !HasLiveDependent(tasks, id)
    case Pending => BlockedForever(tasks, id)
    case _ => false
  }

  ghost function Dead(tasks: map<nat, Task>): set<nat> { set id | id in tasks && Prunable(tasks, id) }

  ghost function Deleted(s: State, dead: set<nat>): State
    requires |s.queues| == LEVELS
  {
    s.(queues := seq(LEVELS, p requires 0 <= p < LEVELS => Without(s.queues[p], dead)), tasks := s.tasks - dead)
  }

  ghost function Pruned(s: State): State
    requires |s.queues| == LEVELS
  {
    Deleted(s, Dead(s.tasks))
  }

  predicate Met(tasks: map<nat, Task>, t: Task) {
    forall i :: 0 <= i < |t.dependencies| ==> t.dependencies[i] in tasks && tasks[t.dependencies[i]].status == Completed
  }

  function Started(s: State, id: nat): State
    requires id in s.tasks && s.tasks[id].priority < |s.queues|
  {
    var t := s.tasks[id];
    s.(queues := s.queues[t.priority := RemoveFirst(s.queues[t.priority], id)], running := s.running + {id},
       tasks := s.tasks[id := t.(status := Running, attempts := t.attempts + 1)])
  }

  /** A pending task goes to the end of another queue. */
  function Moved(s: State, id: nat, newPriority: nat): State
    requires id in s.tasks && s.tasks[id].priority < |s.queues| && newPriority < |s.queues|
  {
    var t := s.tasks[id];
    var left := s.queues[t.priority := RemoveFirst(s.queues[t.priority], id)];
    s.(queues := left[newPriority := left[newPriority] + [id]], tasks := s.tasks[id := t.(priority := newPriority)])
  }

  /** What a move to a priority without queue leaves: the task is in no queue. */
  function Dropped(s: State, id: nat, newPriority: nat): State
    requires id in s.tasks && s.tasks[id].priority < |s.queues|
  {
    var t := s.tasks[id];
    s.(queues := s.queues[t.priority := RemoveFirst(s.queues[t.priority], id)], tasks := s.tasks[id := t.(priority := newPriority)])
  }

  /** A running task is done. */
  function Finished(s: State, id: nat): State
    requires id in s.tasks
  {
    s.(running := s.running - {id}, tasks := s.tasks[id := s.tasks[id].(status := Completed)])
  }

  /** A running task threw, and is tried again. */
  function Retried(s: State, id: nat): State
    requires id in s.tasks && s.tasks[id].priority < |s.queues|
  {
    var t := s.tasks[id];
    s.(queues := s.queues[t.priority := s.queues[t.priority] + [id]], running := s.running - {id},
       tasks := s.tasks[id := t.(status := Pending)])
  }

  /** A running task threw for the last time. */
  function GivenUp(s: State, id: nat): State
    requires id in s.tasks
  {
    s.(running := s.running - {id}, tasks := s.tasks[id := s.tasks[id].(status := Failed)], exhausted := true)
  }

  // ---- edges --------------------------------------------------------------

  lemma LinkedCounts(s: State, t: nat, d: nat, x: nat, y: nat)
    requires t in s.tasks && d in s.tasks && x in s.tasks
    ensures x in Linked(s, t, d).tasks
    ensures Uses(Linked(s, t, d).tasks[x], y) == Uses(s.tasks[x], y) + (if x == t && y == d then 1 else 0)
    ensures UsedBy(Linked(s, t, d).tasks[x], y) == UsedBy(s.tasks[x], y) + (if x == d && y == t then 1 else 0)
  {
  }

  lemma LinkedEdges(s: State, t: nat, d: nat)
    requires EdgesOk(s.tasks)
    ensures EdgesOk(Linked(s, t, d).tasks)
  {
    if t in s.tasks && d in s.tasks {
      var tasks' := Linked(s, t, d).tasks;
      assert tasks'.Keys == s.tasks.Keys;
      hide Linked, Uses, UsedBy;
      forall x, y | x in tasks' && y in tasks' ensures Uses(tasks'[x], y) == UsedBy(tasks'[y], x) {
        LinkedCounts(s, t, d, x, y);
        LinkedCounts(s, t, d, y, x);
      }
    }
  }

  lemma RemoveCount(q: seq<nat>, x: nat, y: nat)
    ensures multiset(RemoveFirst(q, x))[y] == if y == x && multiset(q)[y] > 0 then multiset(q)[y] - 1 else multiset(q)[y]
  {
    RemoveFirstCount(q, x);
  }

  lemma UnlinkedUses(s: State, t: nat, d: nat, x: nat, y: nat)
    requires t in s.tasks && d in s.tasks[t].dependencies && x in s.tasks
    ensures x in Unlinked(s, t, d).tasks
    ensures Uses(Unlinked(s, t, d).tasks[x], y) == Uses(s.tasks[x], y) - (if x == t && y == d then 1 else 0)
  {
    hide RemoveFirst;
    RemoveCount(s.tasks[t].dependencies, d, y);
    assert multiset(s.tasks[t].dependencies)[d] > 0;
  }

  lemma UnlinkedUsedBy(s: State, t: nat, d: nat, x: nat, y: nat)
    requires t in s.tasks && d in s.tasks[t].dependencies && x in s.tasks && (x == d && y == t ==> UsedBy(s.tasks[x], y) > 0)
    ensures x in Unlinked(s, t, d).tasks
    ensures UsedBy(Unlinked(s, t, d).tasks[x], y) == UsedBy(s.tasks[x], y) - (if x == d && y == t then 1 else 0)
  {
    hide RemoveFirst;
    if x == d {
      RemoveCount(s.tasks[d].dependents, t, y);
    }
  }

  lemma UnlinkedKeys(s: State, t: nat, d: nat)
    ensures Unlinked(s, t, d).tasks.Keys == s.tasks.Keys
  {
  }

  lemma UnlinkedEdges(s: State, t: nat, d: nat)
    requires EdgesOk(s.tasks)
    ensures EdgesOk(Unlinked(s, t, d).tasks)
  {
    if t in s.tasks && d in s.tasks[t].dependencies {
      var tasks' := Unlinked(s, t, d).tasks;
      UnlinkedKeys(s, t, d);
      assert Uses(s.tasks[t], d) > 0;
      hide Unlinked, Uses, UsedBy;
      forall x, y | x in tasks' && y in tasks' ensures Uses(tasks'[x], y) == UsedBy(tasks'[y], x) {
        UnlinkedUses(s, t, d, x, y);
        UnlinkedUsedBy(s, t, d, y, x);
      }
    }
  }

  lemma DeletedEdges(tasks: map<nat, Task>, dead: set<nat>)
    requires EdgesOk(tasks)
    ensures EdgesOk(tasks - dead)
  {
    hide Uses, UsedBy;
    var tasks' := tasks - dead;
    forall x, y | x in tasks' && y in tasks' ensures Uses(tasks'[x], y) == UsedBy(tasks'[y], x) {
      assert Uses(tasks[x], y) == UsedBy(tasks[y], x);
    }
  }

  lemma EdgeBothWays(tasks: map<nat, Task>, t: nat, d: nat)
    requires EdgesOk(tasks) && t in tasks && d in tasks && d in tasks[t].dependencies
    ensures t in tasks[d].dependents
  {
    assert Uses(tasks[t], d) == UsedBy(tasks[d], t);
  }

  /** Statuses change, edges stay. */
  lemma StatusEdges(tasks: map<nat, Task>, id: nat, t: Task)
    requires EdgesOk(tasks) && id in tasks
    requires t.dependencies == tasks[id].dependencies && t.dependents == tasks[id].dependents
    ensures EdgesOk(tasks[id := t])
  {
    hide Uses, UsedBy;
    var tasks' := tasks[id := t];
    forall x, y | x in tasks' && y in tasks' ensures Uses(tasks'[x], y) == UsedBy(tasks'[y], x) {
      assert Uses(tasks[x], y) == UsedBy(tasks[y], x);
      SameUses(t, tasks[id], y);
      SameUses(t, tasks[id], x);
    }
  }

  lemma SameUses(t: Task, u: Task, y: nat)
    requires t.dependencies == u.dependencies && t.dependents == u.dependents
    ensures Uses(t, y) == Uses(u, y) && UsedBy(t, y) == UsedBy(u, y)
  {
  }

  // ---- every operation keeps the invariant --------------------------------

  lemma TasksUpdate(next: nat, tasks: map<nat, Task>, id: nat, t: Task)
    requires TasksOk(next, tasks) && id < next && TaskOk(next, t)
    ensures TasksOk(next, tasks[id := t])
  {
  }

  lemma QueueAppend(q: seq<nat>, tasks: map<nat, Task>, tasks': map<nat, Task>, p: nat, id: nat)
    requires QueueOk(q, tasks, p) && !Waiting(tasks, id, p) && Waiting(tasks', id, p)
    requires forall x :: x != id ==> (Waiting(tasks, x, p) <==> Waiting(tasks', x, p))
    ensures QueueOk(q + [id], tasks', p)
  {
    assert id !in q;
  }

  lemma QueueWithout(q: seq<nat>, tasks: map<nat, Task>, tasks': map<nat, Task>, p: nat, dead: set<nat>)
    requires QueueOk(q, tasks, p) && forall x :: Waiting(tasks', x, p) <==> Waiting(tasks, x, p) && x !in dead
    ensures QueueOk(Without(q, dead), tasks', p)
  {
    WithoutFacts(q, dead);
  }

  lemma QueueSame(q: seq<nat>, tasks: map<nat, Task>, tasks': map<nat, Task>, p: nat)
    requires QueueOk(q, tasks, p) && forall x :: Waiting(tasks', x, p) <==> Waiting(tasks, x, p)
    ensures QueueOk(q, tasks', p)
  {
  }

  lemma ScheduledEdges(s: State, priority: nat)
    requires TasksOk(s.nextTaskId, s.tasks) && EdgesOk(s.tasks) && priority < |s.queues|
    ensures EdgesOk(Scheduled(s, priority).tasks)
  {
    var id, tasks' := s.nextTaskId, Scheduled(s, priority).tasks;
    forall x, y | x in tasks' && y in tasks' ensures Uses(tasks'[x], y) == UsedBy(tasks'[y], x) {
      if x != id && y != id {
        assert Uses(s.tasks[x], y) == UsedBy(s.tasks[y], x);
      } else if x != id {
        NotListed(s, x, id);
      } else if y != id {
        NotListed(s, y, id);
      }
    }
  }

  lemma NotListed(s: State, x: nat, id: nat)
    requires TasksOk(s.nextTaskId, s.tasks) && x in s.tasks && id >= s.nextTaskId
    ensures id !in s.tasks[x].dependencies && id !in s.tasks[x].dependents
  {
    assert TaskOk(s.nextTaskId, s.tasks[x]);
  }

  lemma TaskOkLater(next: nat, t: Task)
    requires TaskOk(next, t)
    ensures TaskOk(next + 1, t)
  {
  }

  lemma TasksLater(next: nat, tasks: map<nat, Task>)
    requires TasksOk(next, tasks)
    ensures TasksOk(next + 1, tasks)
  {
    hide TaskOk;
    forall id | id in tasks ensures TaskOk(next + 1, tasks[id]) {
      TaskOkLater(next, tasks[id]);
    }
  }

  lemma WaitsUpdate(exhausted: bool, tasks: map<nat, Task>, id: nat, t: Task)
    requires WaitsOk(exhausted, tasks) && (!exhausted ==> WaitOk(tasks[id := t], t))
    ensures WaitsOk(exhausted, tasks[id := t])
  {
    if !exhausted {
      var tasks' := tasks[id := t];
      forall x | x in tasks' ensures WaitOk(tasks', tasks'[x]) {
        if x != id {
          assert WaitOk(tasks, tasks[x]);
        }
      }
    }
  }

  lemma ScheduledKeeps(s: State, priority: nat, max: nat)
    requires Inv(s, max) && priority < LEVELS
    ensures Inv(Scheduled(s, priority), max)
  {
    hide TaskOk, WaitOk, EdgesOk, QueueOk, TasksOk, WaitsOk;
    ScheduledEdges(s, priority);
    var id, s', t := s.nextTaskId, Scheduled(s, priority), Task(priority, Pending, 0, [], []);
    NextIsNew(s);
    TasksLater(id, s.tasks);
    FreshTaskOk(id + 1, priority);
    TasksUpdate(id + 1, s.tasks, id, t);
    WaitsUpdate(s.exhausted, s.tasks, id, t) by { FreshWaits(s'.tasks, t); }
    forall p | 0 <= p < LEVELS ensures QueueOk(s'.queues[p], s'.tasks, p) {
      if p == priority {
        QueueAppend(s.queues[p], s.tasks, s'.tasks, p, id);
      } else {
        QueueSame(s.queues[p], s.tasks, s'.tasks, p);
      }
    }
  }

  lemma NextIsNew(s: State)
    requires TasksOk(s.nextTaskId, s.tasks)
    ensures s.nextTaskId !in s.tasks
  {
  }

  lemma FreshTaskOk(next: nat, priority: nat)
    requires priority < LEVELS
    ensures TaskOk(next, Task(priority, Pending, 0, [], []))
  {
  }

  lemma FreshWaits(tasks: map<nat, Task>, t: Task)
    requires t.status == Pending && t.dependencies == []
    ensures WaitOk(tasks, t)
  {
  }

  /** The same tasks with the same statuses, priorities and attempts. */
  ghost predicate SameShape(tasks: map<nat, Task>, tasks': map<nat, Task>) {
    && tasks.Keys == tasks'.Keys
    && forall id :: id in tasks ==> tasks'[id].status == tasks[id].status && tasks'[id].priority == tasks[id].priority
  }

  lemma ShapeKeeps(s: State, tasks': map<nat, Task>, max: nat)
    requires Inv(s, max) && SameShape(s.tasks, tasks')
    requires TasksOk(s.nextTaskId, tasks') && EdgesOk(tasks') && WaitsOk(s.exhausted, tasks')
    ensures Inv(s.(tasks := tasks'), max)
  {
    hide TaskOk, WaitOk, EdgesOk, QueueOk, TasksOk, WaitsOk;
    forall p | 0 <= p < LEVELS ensures QueueOk(s.queues[p], tasks', p) {
      forall x ensures Waiting(tasks', x, p) <==> Waiting(s.tasks, x, p) {
        assert x in s.tasks <==> x in tasks'.Keys;
      }
      QueueSame(s.queues[p], s.tasks, tasks', p);
    }
    forall id ensures id in s.running <==> id in tasks' && tasks'[id].status == Running {
      assert id in tasks' <==> id in s.tasks.Keys;
    }
  }

  lemma ShapeUpdate(tasks: map<nat, Task>, id: nat, t: Task)
    requires id in tasks && t.status == tasks[id].status && t.priority == tasks[id].priority
    ensures SameShape(tasks, tasks[id := t])
  {
  }

  lemma ShapeTwice(a: map<nat, Task>, b: map<nat, Task>, c: map<nat, Task>)
    requires SameShape(a, b) && SameShape(b, c)
    ensures SameShape(a, c)
  {
    forall id | id in a ensures c[id].status == a[id].status && c[id].priority == a[id].priority {
      assert id in b.Keys;
    }
  }

  /** One task gets other dependencies or dependents, known ones. */
  lemma RelistedOk(next: nat, exhausted: bool, tasks: map<nat, Task>, id: nat, deps: seq<nat>, users: seq<nat>)
    requires TasksOk(next, tasks) && WaitsOk(exhausted, tasks) && id in tasks && Below(deps, next) && Below(users, next)
    requires forall d :: d in deps ==> d in tasks[id].dependencies || d in tasks
    ensures
      var t := tasks[id].(dependencies := deps, dependents := users);
      TasksOk(next, tasks[id := t]) && WaitsOk(exhausted, tasks[id := t]) && SameShape(tasks, tasks[id := t])
  {
    var t := tasks[id].(dependencies := deps, dependents := users);
    assert TaskOk(next, tasks[id]);
    TasksUpdate(next, tasks, id, t);
    ShapeUpdate(tasks, id, t);
    if !exhausted {
      assert WaitOk(tasks, tasks[id]);
    }
    WaitsUpdate(exhausted, tasks, id, t);
  }

  lemma ListsBelow(next: nat, tasks: map<nat, Task>, id: nat)
    requires TasksOk(next, tasks) && id in tasks
    ensures id < next && Below(tasks[id].dependencies, next) && Below(tasks[id].dependents, next)
  {
    assert TaskOk(next, tasks[id]);
  }

  lemma ListBelow(ids: seq<nat>, d: nat, n: nat)
    requires Below(ids, n) && d < n
    ensures Below(ids + [d], n)
  {
  }

  lemma InvParts(s: State, max: nat)
    requires Inv(s, max)
    ensures TasksOk(s.nextTaskId, s.tasks) && EdgesOk(s.tasks) && WaitsOk(s.exhausted, s.tasks)
  {
    hide TasksOk, EdgesOk, WaitsOk;
  }

  lemma LinkedKeeps(s: State, t: nat, d: nat, max: nat)
    requires Inv(s, max)
    ensures Inv(Linked(s, t, d), max)
  {
    InvParts(s, max);
    LinkedEdges(s, t, d);
    hide TaskOk, WaitOk, EdgesOk, QueueOk, TasksOk, WaitsOk, SameShape, RunningOk, QueuesOk, Waiting, Inv, Below;
    if t in s.tasks && d in s.tasks {
      var next, deps := s.nextTaskId, s.tasks[t].dependencies + [d];
      ListsBelow(next, s.tasks, t);
      ListsBelow(next, s.tasks, d);
      ListBelow(s.tasks[t].dependencies, d, next);
      RelistedOk(next, s.exhausted, s.tasks, t, deps, s.tasks[t].dependents);
      var a := s.tasks[t := s.tasks[t].(dependencies := deps)];
      ListsBelow(next, a, d);
      ListBelow(a[d].dependents, t, next);
      RelistedOk(next, s.exhausted, a, d, a[d].dependencies, a[d].dependents + [t]);
      var b := a[d := a[d].(dependents := a[d].dependents + [t])];
      ShapeTwice(s.tasks, a, b);
      ShapeKeeps(s, b, max);
    }
  }

  lemma UnlinkedKeeps(s: State, t: nat, d: nat, max: nat)
    requires Inv(s, max)
    ensures Inv(Unlinked(s, t, d), max)
  {
    UnlinkedEdges(s, t, d);
    hide TaskOk, WaitOk, EdgesOk, QueueOk, TasksOk, WaitsOk, SameShape, RemoveFirst, RunningOk, QueuesOk, Waiting;
    if t in s.tasks && d in s.tasks[t].dependencies {
      var next, deps := s.nextTaskId, RemoveFirst(s.tasks[t].dependencies, d);
      RemoveFirstCount(s.tasks[t].dependencies, d);
      ListsBelow(next, s.tasks, t);
      RelistedOk(next, s.exhausted, s.tasks, t, deps, s.tasks[t].dependents);
      var a := s.tasks[t := s.tasks[t].(dependencies := deps)];
      if d in a {
        RemoveFirstCount(a[d].dependents, t);
        ListsBelow(next, a, d);
        RelistedOk(next, s.exhausted, a, d, a[d].dependencies, RemoveFirst(a[d].dependents, t));
        var b := a[d := a[d].(dependents := RemoveFirst(a[d].dependents, t))];
        ShapeTwice(s.tasks, a, b);
        ShapeKeeps(s, b, max);
      } else {
        ShapeKeeps(s, a, max);
      }
    }
  }

  lemma {:induction false} UnlinkedAllKeeps(s: State, ts: seq<nat>, d: nat, max: nat)
    requires Inv(s, max)
    ensures Inv(UnlinkedAll(s, ts, d), max)
  {
    hide Inv, Unlinked;
    if ts != [] {
      UnlinkedAllKeeps(s, ts[..|ts| - 1], d, max);
      UnlinkedKeeps(UnlinkedAll(s, ts[..|ts| - 1], d), ts[|ts| - 1], d, max);
    }
  }

  /** Unlinking a task from its dependents one by one leaves none of them depending on it. */
  lemma {:induction false} UnlinkedAllUses(s: State, ts: seq<nat>, d: nat, x: nat)
    requires EdgesOk(s.tasks) && x in s.tasks && d in s.tasks && multiset(ts)[x] <= Uses(s.tasks[x], d)
    ensures EdgesOk(UnlinkedAll(s, ts, d).tasks) && UnlinkedAll(s, ts, d).tasks.Keys == s.tasks.Keys
    ensures x in UnlinkedAll(s, ts, d).tasks && Uses(UnlinkedAll(s, ts, d).tasks[x], d) == Uses(s.tasks[x], d) - multiset(ts)[x]
  {
    hide EdgesOk, Unlinked;
    if ts != [] {
      var front, t := ts[..|ts| - 1], ts[|ts| - 1];
      assert ts == front + [t];
      UnlinkedAllUses(s, front, d, x);
      var m := UnlinkedAll(s, front, d);
      UnlinkedKeys(m, t, d);
      UnlinkedEdges(m, t, d);
      assert x in m.tasks.Keys;
      UnlinkOne(m, t, d, x);
    }
  }

  lemma UnlinkOne(s: State, t: nat, d: nat, x: nat)
    requires x in s.tasks && (t == x ==> Uses(s.tasks[x], d) > 0)
    ensures x in Unlinked(s, t, d).tasks && Uses(Unlinked(s, t, d).tasks[x], d) == Uses(s.tasks[x], d) - (if t == x then 1 else 0)
  {
    if t in s.tasks && d in s.tasks[t].dependencies {
      UnlinkedUses(s, t, d, x, d);
    }
  }

  lemma NobodyWaits(s: State, d: nat, x: nat)
    requires EdgesOk(s.tasks) && x in s.tasks && d in s.tasks
    ensures
      var m := UnlinkedAll(s, s.tasks[d].dependents, d);
      x in m.tasks && d !in m.tasks[x].dependencies
  {
    assert Uses(s.tasks[x], d) == UsedBy(s.tasks[d], x);
    UnlinkedAllUses(s, s.tasks[d].dependents, d, x);
  }

  // ---- deleting -----------------------------------------------------------

  lemma DeletedWaiting(tasks: map<nat, Task>, dead: set<nat>, x: nat, p: nat)
    ensures Waiting(tasks - dead, x, p) <==> Waiting(tasks, x, p) && x !in dead
  {
  }

  lemma DeletedKeeps(s: State, dead: set<nat>, max: nat)
    requires Inv(s, max) && dead !! s.running
    requires !s.exhausted ==> forall x, d :: x in s.tasks && x !in dead && Live(s.tasks[x]) && d in dead ==> d !in s.tasks[x].dependencies
    ensures Inv(Deleted(s, dead), max)
  {
    DeletedEdges(s.tasks, dead);
    hide TaskOk, EdgesOk, QueueOk, Waiting, Without;
    var s' := Deleted(s, dead);
    forall p | 0 <= p < LEVELS ensures QueueOk(s'.queues[p], s'.tasks, p) {
      forall x ensures Waiting(s'.tasks, x, p) <==> Waiting(s.tasks, x, p) && x !in dead {
        DeletedWaiting(s.tasks, dead, x, p);
      }
      QueueWithout(s.queues[p], s.tasks, s'.tasks, p, dead);
    }
    if !s.exhausted {
      forall x | x in s'.tasks ensures WaitOk(s'.tasks, s'.tasks[x]) {
        assert WaitOk(s.tasks, s.tasks[x]);
      }
    }
  }

  /** Pruning deletes no task that another one still waits for, as long as none has failed for good. */
  lemma PrunedKeeps(s: State, max: nat)
    requires Inv(s, max)
    ensures |s.queues| == LEVELS && Inv(Pruned(s), max)
  {
    hide TaskOk, QueueOk, TasksOk;
    var dead := Dead(s.tasks);
    if !s.exhausted {
      forall x, d | x in s.tasks && x !in dead && Live(s.tasks[x]) && d in dead ensures d !in s.tasks[x].dependencies {
        if d in s.tasks[x].dependencies {
          WaitedForStays(s, x, d, max);
        }
      }
    }
    DeletedKeeps(s, dead, max);
  }

  lemma WaitedForStays(s: State, x: nat, d: nat, max: nat)
    requires Inv(s, max) && !s.exhausted && x in s.tasks && Live(s.tasks[x]) && d in s.tasks[x].dependencies
    ensures d !in Dead(s.tasks)
  {
    hide TasksOk, QueuesOk;
    if d in s.tasks {
      EdgeBothWays(s.tasks, x, d);
      assert HasLiveDependent(s.tasks, d);
      NothingBlocked(s, d, max);
    }
  }

  lemma NothingBlocked(s: State, d: nat, max: nat)
    requires Inv(s, max) && !s.exhausted && d in s.tasks
    ensures !BlockedForever(s.tasks, d)
  {
    forall e | e in s.tasks ensures s.tasks[e].status != Cancelled && s.tasks[e].status != Failed {
      SoundStatus(s, e, max);
    }
  }

  lemma SoundStatus(s: State, e: nat, max: nat)
    requires Inv(s, max) && !s.exhausted && e in s.tasks
    ensures s.tasks[e].status != Cancelled && s.tasks[e].status != Failed
  {
    assert TaskOk(s.nextTaskId, s.tasks[e]) && WaitOk(s.tasks, s.tasks[e]);
  }

  // ---- starting and ending ------------------------------------------------

  /** One task changes its status, and queues and running set follow. */
  lemma StatusKeeps(s: State, id: nat, t: Task, queues: seq<seq<nat>>, running: set<nat>, exhausted: bool, max: nat)
    requires Inv(s, max) && id in s.tasks && TaskOk(s.nextTaskId, t) && |running| <= max
    requires t.dependencies == s.tasks[id].dependencies && t.dependents == s.tasks[id].dependents
    requires running == (if t.status == Running then s.running + {id} else s.running - {id})
    requires |queues| == LEVELS && forall p :: 0 <= p < LEVELS ==> QueueOk(queues[p], s.tasks[id := t], p)
    requires !exhausted ==> !s.exhausted && t.status != Failed && (Live(t) ==> Live(s.tasks[id]))
    ensures Inv(s.(queues := queues, running := running, tasks := s.tasks[id := t], exhausted := exhausted), max)
  {
    hide TasksOk, TaskOk, EdgesOk, QueueOk, Waiting, RunningOk, WaitsOk, WaitOk;
    StatusEdges(s.tasks, id, t);
    TaskBelow(s, id, max);
    TasksUpdate(s.nextTaskId, s.tasks, id, t);
    RunningUpdate(s.running, s.tasks, id, t);
    StatusWaits(s.exhausted, exhausted, s.tasks, id, t);
  }

  lemma RunningUpdate(running: set<nat>, tasks: map<nat, Task>, id: nat, t: Task)
    requires RunningOk(running, tasks)
    ensures RunningOk(if t.status == Running then running + {id} else running - {id}, tasks[id := t])
  {
  }

  lemma StatusWaits(before: bool, exhausted: bool, tasks: map<nat, Task>, id: nat, t: Task)
    requires id in tasks && WaitsOk(before, tasks) && t.dependencies == tasks[id].dependencies
    requires !exhausted ==> !before && t.status != Failed && (Live(t) ==> Live(tasks[id]))
    ensures WaitsOk(exhausted, tasks[id := t])
  {
    if !exhausted {
      assert WaitOk(tasks, tasks[id]);
      WaitsUpdate(exhausted, tasks, id, t);
    }
  }

  lemma TaskBelow(s: State, id: nat, max: nat)
    requires Inv(s, max) && id in s.tasks
    ensures id < s.nextTaskId && TaskOk(s.nextTaskId, s.tasks[id])
  {
  }

  lemma QueueIs(s: State, p: nat, max: nat)
    requires Inv(s, max) && p < LEVELS
    ensures |s.queues| == LEVELS && QueueOk(s.queues[p], s.tasks, p)
  {
  }

  lemma WaitingUpdate(tasks: map<nat, Task>, id: nat, t: Task, x: nat, p: nat)
    ensures Waiting(tasks[id := t], x, p) <==> if x == id then t.status == Pending && t.priority == p else Waiting(tasks, x, p)
  {
  }

  lemma StartedKeeps(s: State, id: nat, max: nat)
    requires Inv(s, max) && id in s.tasks && s.tasks[id].status == Pending && |s.running| < max
    ensures |s.queues| == LEVELS && s.tasks[id].priority < LEVELS && Inv(Started(s, id), max)
  {
    hide TasksOk, EdgesOk, WaitsOk, RunningOk, QueueOk, RemoveFirst, Without, Waiting;
    TaskBelow(s, id, max);
    var t, t' := s.tasks[id], s.tasks[id].(status := Running, attempts := s.tasks[id].attempts + 1);
    var s' := Started(s, id);
    forall p | 0 <= p < LEVELS ensures QueueOk(s'.queues[p], s'.tasks, p) {
      QueueIs(s, p, max);
      forall x ensures Waiting(s'.tasks, x, p) <==> Waiting(s.tasks, x, p) && (x != id || p != t.priority) {
        WaitingUpdate(s.tasks, id, t', x, p);
        WaitingUpdate(s.tasks, id, t, x, p);
        assert s.tasks[id := t] == s.tasks;
      }
      if p == t.priority {
        QueueWithout(s.queues[p], s.tasks, s'.tasks, p, {id});
        NoDuplicatesIn(s.queues[p], s.tasks, p);
        RemoveIsWithout(s.queues[p], id);
      } else {
        QueueSame(s.queues[p], s.tasks, s'.tasks, p);
      }
    }
    StatusKeeps(s, id, t', s'.queues, s'.running, s.exhausted, max);
  }

  lemma NoDuplicatesIn(q: seq<nat>, tasks: map<nat, Task>, p: nat)
    requires QueueOk(q, tasks, p)
    ensures NoDuplicates(q)
  {
  }

  /** The task that ends was running, so it is in no queue. */
  lemma EndedQueues(s: State, id: nat, t: Task, max: nat)
    requires Inv(s, max) && id in s.tasks && s.tasks[id].status == Running && t.priority == s.tasks[id].priority
    ensures |s.queues| == LEVELS && t.priority < LEVELS
    ensures forall p :: 0 <= p < LEVELS ==>
      QueueOk(if t.status == Pending && p == t.priority then s.queues[p] + [id] else s.queues[p], s.tasks[id := t], p)
  {
    hide TasksOk, EdgesOk, WaitsOk, RunningOk, QueueOk, Waiting;
    TaskBelow(s, id, max);
    forall p | 0 <= p < LEVELS
      ensures QueueOk(if t.status == Pending && p == t.priority then s.queues[p] + [id] else s.queues[p], s.tasks[id := t], p)
    {
      QueueIs(s, p, max);
      forall x ensures Waiting(s.tasks[id := t], x, p) <==> (if x == id then t.status == Pending && t.priority == p else Waiting(s.tasks, x, p)) {
        WaitingUpdate(s.tasks, id, t, x, p);
      }
      NotWaiting(s.tasks, id, p);
      if t.status == Pending && p == t.priority {
        QueueAppend(s.queues[p], s.tasks, s.tasks[id := t], p, id);
      } else {
        QueueSame(s.queues[p], s.tasks, s.tasks[id := t], p);
      }
    }
  }

  lemma NotWaiting(tasks: map<nat, Task>, id: nat, p: nat)
    requires id in tasks && tasks[id].status != Pending
    ensures !Waiting(tasks, id, p)
  {
  }

  lemma OneLess(running: set<nat>, id: nat)
    ensures |running - {id}| <= |running|
  {
    assert running == (running - {id}) + (running * {id});
  }

  lemma FinishedKeeps(s: State, id: nat, max: nat)
    requires Inv(s, max) && id in s.tasks && s.tasks[id].status == Running
    ensures Inv(Finished(s, id), max)
  {
    hide TasksOk, EdgesOk, WaitsOk, RunningOk, QueueOk, Waiting;
    TaskBelow(s, id, max);
    var t' := s.tasks[id].(status := Completed);
    EndedQueues(s, id, t', max);
    OneLess(s.running, id);
    StatusKeeps(s, id, t', s.queues, s.running - {id}, s.exhausted, max);
  }

  lemma RetriedKeeps(s: State, id: nat, max: nat)
    requires Inv(s, max) && id in s.tasks && s.tasks[id].status == Running && s.tasks[id].attempts < MAX_ATTEMPTS
    ensures |s.queues| == LEVELS && s.tasks[id].priority < LEVELS && Inv(Retried(s, id), max)
  {
    hide TasksOk, EdgesOk, WaitsOk, RunningOk, QueueOk, Waiting;
    TaskBelow(s, id, max);
    var t' := s.tasks[id].(status := Pending);
    EndedQueues(s, id, t', max);
    OneLess(s.running, id);
    StatusKeeps(s, id, t', Retried(s, id).queues, s.running - {id}, s.exhausted, max);
  }

  lemma GivenUpKeeps(s: State, id: nat, max: nat)
    requires Inv(s, max) && id in s.tasks && s.tasks[id].status == Running && s.tasks[id].attempts >= MAX_ATTEMPTS
    ensures Inv(GivenUp(s, id), max)
  {
    hide TasksOk, EdgesOk, WaitsOk, RunningOk, QueueOk, Waiting;
    TaskBelow(s, id, max);
    var t' := s.tasks[id].(status := Failed);
    EndedQueues(s, id, t', max);
    OneLess(s.running, id);
    StatusKeeps(s, id, t', s.queues, s.running - {id}, true, max);
  }

  // ---- progress -----------------------------------------------------------

  /** A rank that falls along every dependency of a pending task: the dependencies have no cycle. */
  ghost predicate Acyclic(tasks: map<nat, Task>, rank: nat -> nat) {
    forall t, d :: t in tasks && d in tasks && tasks[t].status == Pending && d in tasks[t].dependencies ==> rank(d) < rank(t)
  }

  /** With nothing running, no task failed for good and no cycle, some pending task can start. */
  lemma {:induction false} SomethingCanStart(s: State, max: nat, rank: nat -> nat, id: nat) returns (ready: nat)
    requires Inv(s, max) && !s.exhausted && s.running == {} && Acyclic(s.tasks, rank)
    requires id in s.tasks && s.tasks[id].status == Pending
    ensures ready in s.tasks && s.tasks[ready].status == Pending && Met(s.tasks, s.tasks[ready])
    decreases rank(id)
  {
    hide TasksOk, QueuesOk, EdgesOk, TaskOk;
    var t := s.tasks[id];
    if Met(s.tasks, t) {
      ready := id;
    } else {
      var i :| 0 <= i < |t.dependencies| && !(t.dependencies[i] in s.tasks && s.tasks[t.dependencies[i]].status == Completed);
      var d := t.dependencies[i];
      assert WaitOk(s.tasks, t);
      SoundStatus(s, d, max);
      ready := SomethingCanStart(s, max, rank, d);
    }
  }
}
