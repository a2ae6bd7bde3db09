/** First come, first served: within one priority the scheduler starts tasks in the order in which they entered
    the queue, unless a task still waits for a dependency (backend/scheduler/RenderScheduler.js). */
module SchedulerOrder {
  import opened SchedulerState
  import opened RenderSchedulers
  import opened SchedulerRuns

  /** Both are in the list, a before b. */
  ghost predicate Ahead(q: seq<nat>, a: nat, b: nat) {
    exists i, j :: 0 <= i < j < |q| && q[i] == a && q[j] == b
  }

  /** a is in the list, and b is not before it. */
  ghost predicate First(q: seq<nat>, a: nat, b: nat) { a in q && (b in q ==> Ahead(q, a, b)) }

  lemma {:induction false} FirstWithout(q: seq<nat>, dead: set<nat>, a: nat, b: nat)
    requires First(q, a, b) && a !in dead && a != b
    ensures First(Without(q, dead), a, b)
  {
    WithoutFacts(q, dead);
    if b in Without(q, dead) {
      AheadWithout(q, dead, a, b);
    }
  }

  lemma {:induction false} AheadWithout(q: seq<nat>, dead: set<nat>, a: nat, b: nat)
    requires Ahead(q, a, b) && a !in dead && b !in dead
    ensures Ahead(Without(q, dead), a, b)
  {
    var i, j :| 0 <= i < j < |q| && q[i] == a && q[j] == b;
    var rest := q[1..];
    assert rest[j - 1] == b;
    if i == 0 {
      WithoutFacts(rest, dead);
      var w := Without(rest, dead);
      assert b in rest;
      var l :| 0 <= l < |w| && w[l] == b;
      assert ([a] + w)[0] == a && ([a] + w)[l + 1] == b;
    } else {
      assert rest[i - 1] == a && Ahead(rest, a, b);
      AheadWithout(rest, dead, a, b);
      var w := Without(rest, dead);
      var l, m :| 0 <= l < m < |w| && w[l] == a && w[m] == b;
      if q[0] !in dead {
        assert ([q[0]] + w)[l + 1] == a && ([q[0]] + w)[m + 1] == b;
      }
    }
  }

  lemma FirstAppend(q: seq<nat>, x: nat, a: nat, b: nat)
    requires First(q, a, b) && a != b
    ensures First(q + [x], a, b)
  {
    var all := q + [x];
    var l :| 0 <= l < |q| && q[l] == a;
    assert all[l] == a;
    if b in q {
      var i, j :| 0 <= i < j < |q| && q[i] == a && q[j] == b;
      assert all[i] == a && all[j] == b;
    } else if b == x {
      assert all[|q|] == b;
    }
  }

  lemma FirstRemoved(q: seq<nat>, x: nat, a: nat, b: nat)
    requires NoDuplicates(q) && First(q, a, b) && a != b && x != a
    ensures First(RemoveFirst(q, x), a, b)
  {
    RemoveIsWithout(q, x);
    FirstWithout(q, {x}, a, b);
  }

  // ---- one step -----------------------------------------------------------

  /** a waits in the queue of priority p, and b is not before it there. */
  ghost predicate Leads(s: State, p: nat, a: nat, b: nat) { p < |s.queues| && First(s.queues[p], a, b) }

  lemma QueueFacts(s: State, p: nat, a: nat, max: nat)
    requires Inv(s, max) && p < |s.queues| && a in s.queues[p]
    ensures |s.queues| == LEVELS && NoDuplicates(s.queues[p]) && Pends(s, a) && s.tasks[a].priority == p && a != s.nextTaskId
  {
    QueuesAre(s, max);
    assert QueueOk(s.queues[p], s.tasks, p);
  }

  lemma PrunedLeads(s: State, p: nat, a: nat, b: nat)
    requires |s.queues| == LEVELS && Leads(s, p, a, b) && a != b && a in Pruned(s).queues[p]
    ensures Leads(Pruned(s), p, a, b)
  {
    WithoutFacts(s.queues[p], Dead(s.tasks));
    FirstWithout(s.queues[p], Dead(s.tasks), a, b);
  }

  /** No step lets b overtake a, except a move of a itself. */
  lemma StepLeads(s: State, s': State, step: Step, max: nat, p: nat, a: nat, b: nat)
    requires Inv(s, max) && Next(s, s', step, max) && Leads(s, p, a, b) && a != b
    requires p < |s'.queues| && a in s'.queues[p] && !(step.Reprioritise? && step.id == a)
    ensures Leads(s', p, a, b)
  {
    hide Inv, First, Pruned, NoDuplicates, RemoveFirst, IsNext, CancelledState, Ahead;
    assert a in s.queues[p] by { InFirst(s.queues[p], a, b); }
    QueueFacts(s, p, a, max);
    QueuesAre(s, max);
    match step
    case ScheduleAt(pr) => FirstAppend(s.queues[p], s.nextTaskId, a, b);
    case Depend(t, d) =>
    case Undepend(t, d) =>
    case Reprioritise(id, pr) =>
      if Pends(s, id) {
        MovedLeads(s, id, pr, max, p, a, b);
      }
    case CancelOne(id) =>
      if Pends(s, id) {
        CancelLeads(s, id, p, a, b);
      }
    case Start(id) => StartLeads(s, id, max, p, a, b);
    case Succeed(id) => EndLeads(s, s', id, false, max, p, a, b);
    case Throw(id) => EndLeads(s, s', id, true, max, p, a, b);
  }

  lemma InFirst(q: seq<nat>, a: nat, b: nat)
    requires First(q, a, b)
    ensures a in q
  {
  }

  lemma MovedLeads(s: State, id: nat, pr: nat, max: nat, p: nat, a: nat, b: nat)
    requires Inv(s, max) && Leads(s, p, a, b) && a != b && id != a && Pends(s, id)
    requires s.tasks[id].priority < |s.queues| && pr < |s.queues|
    ensures Leads(Moved(s, id, pr), p, a, b)
  {
    hide Inv, First, NoDuplicates, RemoveFirst;
    QueuesAre(s, max);
    var level := s.tasks[id].priority;
    assert NoDuplicates(s.queues[level]) by { assert QueueOk(s.queues[level], s.tasks, level); }
    var left := s.queues[level := RemoveFirst(s.queues[level], id)];
    if level == p {
      FirstRemoved(s.queues[p], id, a, b);
    }
    assert First(left[p], a, b);
    FirstAppend(left[p], id, a, b);
  }

  lemma StartLeads(s: State, id: nat, max: nat, p: nat, a: nat, b: nat)
    requires Inv(s, max) && Leads(s, p, a, b) && a != b && Pends(s, id) && s.tasks[id].priority < |s.queues|
    requires a in Started(s, id).queues[p]
    ensures Leads(Started(s, id), p, a, b)
  {
    hide Inv, First, NoDuplicates;
    QueuesAre(s, max);
    var level := s.tasks[id].priority;
    assert NoDuplicates(s.queues[level]) by { assert QueueOk(s.queues[level], s.tasks, level); }
    if level == p {
      RemoveIsWithout(s.queues[p], id);
      WithoutFacts(s.queues[p], {id});
      FirstRemoved(s.queues[p], id, a, b);
    }
  }

  lemma CancelLeads(s: State, id: nat, p: nat, a: nat, b: nat)
    requires |s.queues| == LEVELS && Leads(s, p, a, b) && a != b && Pends(s, id) && a in CancelledState(s, id).queues[p]
    ensures |CancelledState(s, id).queues| == LEVELS && Leads(CancelledState(s, id), p, a, b)
  {
    hide First, UnlinkedAll;
    var u := UnlinkedAll(s, s.tasks[id].dependents, id);
    var m := Deleted(u.(queues := s.queues), {id});
    WithoutFacts(s.queues[p], {id});
    WithoutFacts(m.queues[p], Dead(m.tasks));
    FirstWithout(s.queues[p], {id}, a, b);
    PrunedLeads(m, p, a, b);
  }

  lemma EndLeads(s: State, s': State, id: nat, thrown: bool, max: nat, p: nat, a: nat, b: nat)
    requires Inv(s, max) && EndStep(s, s', id, thrown) && Leads(s, p, a, b) && a != b
    requires p < |s'.queues| && a in s'.queues[p]
    ensures Leads(s', p, a, b)
  {
    hide Inv, First, Pruned;
    if !thrown {
      PrunedLeads(Finished(s, id), p, a, b);
    } else if s.tasks[id].attempts < MAX_ATTEMPTS {
      FirstAppend(s.queues[p], id, a, b);
    } else {
      PrunedLeads(GivenUp(s, id), p, a, b);
    }
  }

  // ---- whole runs ---------------------------------------------------------

  /** While a stays in the queue of priority p and is not moved, nothing that was not before it gets before it. */
  lemma {:induction false} StaysAhead(run: seq<State>, steps: seq<Step>, max: nat, p: nat, a: nat, b: nat, j: nat, k: nat)
    requires IsRun(run, steps, max) && j <= k < |run| && a != b && Leads(run[j], p, a, b)
    requires forall i :: j <= i <= k ==> p < |run[i].queues| && a in run[i].queues[p]
    requires forall i :: j <= i < k ==> !(steps[i].Reprioritise? && steps[i].id == a)
    ensures Leads(run[k], p, a, b)
    decreases k
  {
    hide Inv, Next, Leads;
    if j < k {
      StaysAhead(run, steps, max, p, a, b, j, k - 1);
      RunKeeps(run, steps, max, k - 1);
      assert Next(run[k - 1], run[k - 1 + 1], steps[k - 1], max);
      StepLeads(run[k - 1], run[k], steps[k - 1], max, p, a, b);
    }
  }

  /** First come, first served: if a task that was not before a in the queue is started while a still waits there,
      then a has a dependency that is not completed. */
  lemma FirstComeFirstServed(run: seq<State>, steps: seq<Step>, max: nat, p: nat, a: nat, b: nat, j: nat, k: nat)
    requires IsRun(run, steps, max) && j <= k < |steps| && a != b && Leads(run[j], p, a, b)
    requires forall i :: j <= i <= k ==> p < |run[i].queues| && a in run[i].queues[p]
    requires forall i :: j <= i < k ==> !(steps[i].Reprioritise? && steps[i].id == a)
    requires steps[k] == Start(b) && b in run[k].queues[p]
    ensures a in run[k].tasks
    ensures exists d ::
      d in run[k].tasks[a].dependencies && (d !in run[k].tasks || run[k].tasks[d].status != Completed)
  {
    hide Inv, NoDuplicates, Ahead;
    var s := run[k];
    StaysAhead(run, steps, max, p, a, b, j, k);
    RunKeeps(run, steps, max, k);
    assert Next(run[k], run[k + 1], steps[k], max);
    QueueFacts(s, p, a, max);
    QueueFacts(s, p, b, max);
    var i :| 0 <= i < |s.queues[p]| && s.queues[p][i] == b && NoneMet(s.queues[p][..i], s.tasks);
    AheadOf(s.queues[p], a, b, i);
    var l :| 0 <= l < i && s.queues[p][l] == a;
    assert s.queues[p][..i][l] == a;
    assert !Met(s.tasks, s.tasks[a]);
  }

  lemma AheadOf(q: seq<nat>, a: nat, b: nat, i: nat)
    requires NoDuplicates(q) && i < |q| && q[i] == b && Ahead(q, a, b)
    ensures exists l :: 0 <= l < i && q[l] == a
  {
    var l, m :| 0 <= l < m < |q| && q[l] == a && q[m] == b;
    assert m == i;
  }
}
