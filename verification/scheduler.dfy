/** The agent scheduler: resource accounting and priority selection. */
module Scheduler {
  import opened Wrappers
  import Lex

  datatype Priority = Low | Normal | High | Critical
  datatype Status = Queued | Running | Completed | Failed | Cancelled
  datatype AgentStatus = Created | Validated | Ready | Active | Suspended | Terminated

  datatype Task = Task(id: string, agent: string, priority: Priority, units: nat, status: Status)

  datatype AuditAction = Requested | Done | Refused
  datatype AuditEvent = AuditEvent(action: AuditAction, success: bool, taskId: string, agent: string)

  datatype SchedulerError =
    | DuplicateTask | NotQueued | UnknownAgent | NotSchedulable | ExceedsCapacity
    | EmptyTaskId | UnknownTask | InsufficientResources | NotRunning | AccountingOverflow

  type Tasks = map<string, Task>
  type Agents = map<string, AgentStatus>

  datatype State = State(tasks: Tasks, capacity: nat, available: int, audit: seq<AuditEvent>)

  datatype Op = Submit(task: Task) | Start(id: string) | Finish(id: string, status: Status)

  /** complete, fail and cancel are _finish with these statuses. */
  predicate IsTerminal(s: Status) { s.Completed? || s.Failed? || s.Cancelled? }

  /** The task model's validators let no task without an id through. */
  predicate Legal(op: Op) {
    match op
    case Submit(t) => t.id != ""
    case Start(_) => true
    case Finish(_, status) => IsTerminal(status)
  }

  datatype Outcome = Outcome(state: State, result: Result<Task, SchedulerError>)

  function Rejection(t: Task): AuditEvent { AuditEvent(Refused, false, t.id, t.agent) }

  function Reject(s: State, t: Task, e: SchedulerError): Outcome {
    Outcome(s.(audit := s.audit + [Rejection(t)]), Err(e))
  }

  predicate Schedulable(agents: Agents, agent: string) {
    agent in agents && (agents[agent].Ready? || agents[agent].Active?)
  }

  function AgentError(agents: Agents, agent: string): SchedulerError {
    if agent !in agents then UnknownAgent else NotSchedulable
  }

  /** One call, with the registry as it is at the time. */
  function Apply(s: State, op: Op, agents: Agents): (r: Outcome)
  {
    match op
    case Submit(t) =>
      if t.id in s.tasks then Reject(s, t, DuplicateTask)
      else if !t.status.Queued? then Reject(s, t, NotQueued)
      else if !Schedulable(agents, t.agent) then Reject(s, t, AgentError(agents, t.agent))
      else if t.units > s.capacity then Reject(s, t, ExceedsCapacity)
      else Outcome(s.(tasks := s.tasks[t.id := t],
                      audit := s.audit + [AuditEvent(Requested, true, t.id, t.agent)]), Ok(t))
    case Start(id) =>
      if id == "" then Outcome(s, Err(EmptyTaskId))
      else if id !in s.tasks then Outcome(s, Err(UnknownTask))
      else
        var t := s.tasks[id];
        if !t.status.Queued? then Reject(s, t, NotQueued)
        else if !Schedulable(agents, t.agent) then Reject(s, t, AgentError(agents, t.agent))
        else if t.units > s.available then Reject(s, t, InsufficientResources)
        else
          var started := t.(status := Running);
          Outcome(s.(tasks := s.tasks[id := started], available := s.available - t.units,
                     audit := s.audit + [AuditEvent(Requested, true, t.id, t.agent)]), Ok(started))
    case Finish(id, status) =>
      if id == "" then Outcome(s, Err(EmptyTaskId))
      else if id !in s.tasks then Outcome(s, Err(UnknownTask))
      else
        var t := s.tasks[id];
        if !t.status.Running? then Reject(s, t, NotRunning)
        else if s.available + t.units > s.capacity then Outcome(s, Err(AccountingOverflow))
        else
          var finished := t.(status := status);
          Outcome(s.(tasks := s.tasks[id := finished], available := s.available + t.units,
                     audit := s.audit + [if status.Failed? then Rejection(t) else AuditEvent(Done, true, t.id, t.agent)]),
                  Ok(finished))
  }

  // ---------- next_task ----------

  function Rank(p: Priority): nat {
    match p case Critical => 0 case High => 1 case Normal => 2 case Low => 3
  }

  /** The order of the sort key (priority rank, task_id). */
  predicate Before(t: Task, u: Task) {
    Rank(t.priority) < Rank(u.priority) || (Rank(t.priority) == Rank(u.priority) && Lex.StrLess(t.id, u.id))
  }

  function QueuedIds(tasks: Tasks): (ids: set<string>) {
    set id | id in tasks && tasks[id].status.Queued?
  }

  ghost predicate IsNext(tasks: Tasks, id: string) {
    id in QueuedIds(tasks) && forall other :: other in QueuedIds(tasks) && other != id ==> Before(tasks[id], tasks[other])
  }

  lemma BeforeTransitive(t: Task, u: Task, v: Task)
    requires Before(t, u) && Before(u, v)
    ensures Before(t, v)
  {
    if Rank(t.priority) == Rank(v.priority) { Lex.Transitive(Lex.Codes(t.id), Lex.Codes(u.id), Lex.Codes(v.id)); }
  }

  lemma BeforeTotal(t: Task, u: Task)
    requires t.id != u.id
    ensures Before(t, u) || Before(u, t)
  {
    Lex.Total(Lex.Codes(t.id), Lex.Codes(u.id));
    if Lex.Codes(t.id) == Lex.Codes(u.id) { Lex.CodesInjective(t.id, u.id); }
  }

  lemma NextIsUnique(tasks: Tasks, a: string, b: string)
    requires IsNext(tasks, a) && IsNext(tasks, b)
    ensures a == b
  {
    if a != b {
      BeforeTransitive(tasks[a], tasks[b], tasks[a]);
      Lex.Irreflexive(Lex.Codes(tasks[a].id));
    }
  }

  /** By name: what comes next is critical if anything queued is, else high if anything
      queued is, else normal if anything queued is, else low. */
  lemma NextPriority(tasks: Tasks, id: string)
    requires IsNext(tasks, id)
    ensures id in tasks && tasks[id].status.Queued?
    ensures (exists q :: q in tasks && tasks[q].status.Queued? && tasks[q].priority.Critical?)
       ==> tasks[id].priority.Critical?
    ensures (exists q :: q in tasks && tasks[q].status.Queued? && tasks[q].priority.High?)
       ==> tasks[id].priority.Critical? || tasks[id].priority.High?
    ensures (exists q :: q in tasks && tasks[q].status.Queued? && tasks[q].priority.Normal?)
       ==> !tasks[id].priority.Low?
  {
  }

  /** Ids decide only within one priority: it is the task with the least id of those that
      are queued with the same priority, none being queued with a higher one. */
  lemma NextExactly(tasks: Tasks, id: string)
    requires Keyed(tasks)
    ensures IsNext(tasks, id) <==>
      && id in tasks && tasks[id].status.Queued?
      && forall q :: q in tasks && tasks[q].status.Queued? && q != id ==>
           match tasks[id].priority
           case Critical => tasks[q].priority.Critical? ==> Lex.StrLess(id, q)
           case High => !tasks[q].priority.Critical? && (tasks[q].priority.High? ==> Lex.StrLess(id, q))
           case Normal => tasks[q].priority.Low? || (tasks[q].priority.Normal? && Lex.StrLess(id, q))
           case Low => tasks[q].priority.Low? && Lex.StrLess(id, q)
  {
    hide Lex.StrLess;
    forall q | q in tasks && tasks[q].status.Queued?
      ensures q in QueuedIds(tasks) && tasks[q].id == q
    {
    }
  }

  // ---------- what a call does, by its condition ----------

  /** Exactly which submissions are accepted, and what any leaves behind. */
  lemma SubmitExactly(s: State, t: Task, agents: Agents)
    ensures var o := Apply(s, Submit(t), agents);
      var fits := t.units <= s.capacity;
      var may := t.agent in agents && (agents[t.agent] == Ready || agents[t.agent] == Active);
      && (o.result.Ok? <==> t.id !in s.tasks && t.status == Queued && may && fits)
      && (o.result == Err(DuplicateTask) <==> t.id in s.tasks)
      && (o.result == Err(NotQueued) <==> t.id !in s.tasks && t.status != Queued)
      && (o.result == Err(UnknownAgent) <==> t.id !in s.tasks && t.status == Queued && t.agent !in agents)
      && (o.result == Err(NotSchedulable) <==> t.id !in s.tasks && t.status == Queued && t.agent in agents && !may)
      && (o.result == Err(ExceedsCapacity) <==> t.id !in s.tasks && t.status == Queued && may && !fits)
      && o.state == State(if o.result.Ok? then s.tasks[t.id := t] else s.tasks, s.capacity, s.available,
           s.audit + [if o.result.Ok? then AuditEvent(Requested, true, t.id, t.agent)
                      else AuditEvent(Refused, false, t.id, t.agent)])
  {
  }

  /** Exactly which tasks start: a start takes the task's units and nothing else. */
  lemma StartExactly(s: State, id: string, agents: Agents)
    ensures var o := Apply(s, Start(id), agents);
      && (o.result.Ok? <==>
            && id != "" && id in s.tasks && s.tasks[id].status == Queued
            && s.tasks[id].agent in agents
            && (agents[s.tasks[id].agent] == Ready || agents[s.tasks[id].agent] == Active)
            && s.tasks[id].units <= s.available)
      && (o.result == Err(EmptyTaskId) <==> id == "")
      && (o.result == Err(UnknownTask) <==> id != "" && id !in s.tasks)
      && (o.result == Err(NotQueued) <==> id != "" && id in s.tasks && s.tasks[id].status != Queued)
      && (o.result == Err(UnknownAgent) <==>
            id != "" && id in s.tasks && s.tasks[id].status == Queued && s.tasks[id].agent !in agents)
      && (o.result == Err(NotSchedulable) <==>
            && id != "" && id in s.tasks && s.tasks[id].status == Queued && s.tasks[id].agent in agents
            && agents[s.tasks[id].agent] != Ready && agents[s.tasks[id].agent] != Active)
      && (o.result == Err(InsufficientResources) <==>
            && id != "" && id in s.tasks && s.tasks[id].status == Queued && s.tasks[id].agent in agents
            && (agents[s.tasks[id].agent] == Ready || agents[s.tasks[id].agent] == Active)
            && s.tasks[id].units > s.available)
      && (o.result.Ok? ==>
            var t := s.tasks[id];
            && o.result.value == t.(status := Running)
            && o.state == State(s.tasks[id := t.(status := Running)], s.capacity, s.available - t.units,
                                s.audit + [AuditEvent(Requested, true, t.id, t.agent)]))
      && (o.result.Err? ==>
            o.state == s.(audit := if id != "" && id in s.tasks
                                   then s.audit + [AuditEvent(Refused, false, s.tasks[id].id, s.tasks[id].agent)]
                                   else s.audit))
  {
  }

  /** Exactly which tasks finish: a finish gives the units back and nothing else. */
  lemma FinishExactly(s: State, id: string, status: Status, agents: Agents)
    ensures var o := Apply(s, Finish(id, status), agents);
      && (o.result.Ok? <==>
            && id != "" && id in s.tasks && s.tasks[id].status == Running
            && s.available + s.tasks[id].units <= s.capacity)
      && (o.result == Err(EmptyTaskId) <==> id == "")
      && (o.result == Err(UnknownTask) <==> id != "" && id !in s.tasks)
      && (o.result == Err(NotRunning) <==> id != "" && id in s.tasks && s.tasks[id].status != Running)
      && (o.result == Err(AccountingOverflow) <==>
            && id != "" && id in s.tasks && s.tasks[id].status == Running
            && s.available + s.tasks[id].units > s.capacity)
      && (o.result.Ok? ==>
            var t := s.tasks[id];
            && o.result.value == t.(status := status)
            && o.state == State(s.tasks[id := t.(status := status)], s.capacity, s.available + t.units,
                 s.audit + [if status == Failed then AuditEvent(Refused, false, t.id, t.agent)
                            else AuditEvent(Done, true, t.id, t.agent)]))
      && (o.result.Err? ==>
            o.state == s.(audit := if id != "" && id in s.tasks && s.tasks[id].status != Running
                                   then s.audit + [AuditEvent(Refused, false, s.tasks[id].id, s.tasks[id].agent)]
                                   else s.audit))
  {
  }

  class AgentScheduler {
    const capacity: nat
    var tasks: Tasks
    var available: int
    var audit: seq<AuditEvent>

    function View(): State reads this { State(tasks, capacity, available, audit) }

    ghost predicate Valid() reads this { Keyed(tasks) }

    constructor (capacity: nat, available: nat)
      requires available <= capacity
      ensures Valid() && View() == State(map[], capacity, available, [])
    {
      this.capacity := capacity;
      this.tasks, this.available, this.audit := map[], available, [];
    }

    method Submit(task: Task, agents: Agents) returns (r: Result<Task, SchedulerError>)
      requires Valid() && task.id != ""
      modifies this
      ensures Valid() && Outcome(View(), r) == Apply(old(View()), Op.Submit(task), agents)
    {
      if task.id in tasks {
        audit := audit + [Rejection(task)];
        return Err(DuplicateTask);
      }
      if task.status != Queued {
        audit := audit + [Rejection(task)];
        return Err(NotQueued);
      }
      if task.agent !in agents {
        audit := audit + [Rejection(task)];
        return Err(UnknownAgent);
      }
      if agents[task.agent] != Ready && agents[task.agent] != Active {
        audit := audit + [Rejection(task)];
        return Err(NotSchedulable);
      }
      if task.units > capacity {
        audit := audit + [Rejection(task)];
        return Err(ExceedsCapacity);
      }
      tasks := tasks[task.id := task];
      audit := audit + [AuditEvent(Requested, true, task.id, task.agent)];
      return Ok(task);
    }

    /** The queued task that comes first, if there is one. */
    method NextTask() returns (r: Option<Task>)
      requires Valid()
      ensures r.None? <==> QueuedIds(tasks) == {}
      ensures r.Some? ==> r.value.id in tasks && r.value == tasks[r.value.id] && IsNext(tasks, r.value.id)
    {
      var queued := QueuedIds(tasks);
      if queued == {} {
        return None;
      }
      var best :| best in queued;
      var left := queued - {best};
      while left != {}
        invariant left <= queued && best in queued && best !in left
        invariant forall id :: id in queued - left && id != best ==> Before(tasks[best], tasks[id])
      {
        var id :| id in left;
        if Before(tasks[id], tasks[best]) {
          forall other | other in queued - left && other != best
            ensures Before(tasks[id], tasks[other])
          {
            BeforeTransitive(tasks[id], tasks[best], tasks[other]);
          }
          best := id;
        } else {
          BeforeTotal(tasks[id], tasks[best]);
        }
        left := left - {id};
      }
      return Some(tasks[best]);
    }

    method Start(taskId: string, agents: Agents) returns (r: Result<Task, SchedulerError>)
      requires Valid()
      modifies this
      ensures Valid() && Outcome(View(), r) == Apply(old(View()), Op.Start(taskId), agents)
    {
      if taskId == "" {
        return Err(EmptyTaskId);
      }
      if taskId !in tasks {
        return Err(UnknownTask);
      }
      var task := tasks[taskId];
      if task.status != Queued {
        audit := audit + [Rejection(task)];
        return Err(NotQueued);
      }
      if task.agent !in agents {
        audit := audit + [Rejection(task)];
        return Err(UnknownAgent);
      }
      if agents[task.agent] != Ready && agents[task.agent] != Active {
        audit := audit + [Rejection(task)];
        return Err(NotSchedulable);
      }
      if task.units > available {
        audit := audit + [Rejection(task)];
        return Err(InsufficientResources);
      }
      available := available - task.units;
      var updated := task.(status := Running);
      tasks := tasks[taskId := updated];
      audit := audit + [AuditEvent(Requested, true, task.id, task.agent)];
      return Ok(updated);
    }

    method Finish(taskId: string, status: Status, agents: Agents) returns (r: Result<Task, SchedulerError>)
      requires Valid() && IsTerminal(status)
      modifies this
      ensures Valid() && Outcome(View(), r) == Apply(old(View()), Op.Finish(taskId, status), agents)
    {
      if taskId == "" {
        return Err(EmptyTaskId);
      }
      if taskId !in tasks {
        return Err(UnknownTask);
      }
      var task := tasks[taskId];
      if task.status != Running {
        audit := audit + [Rejection(task)];
        return Err(NotRunning);
      }
      var newAvailable := available + task.units;
      if newAvailable > capacity {
        return Err(AccountingOverflow);
      }
      available := newAvailable;
      var updated := task.(status := status);
      tasks := tasks[taskId := updated];
      if status == Failed {
        audit := audit + [Rejection(updated)];
      } else {
        audit := audit + [AuditEvent(Done, true, task.id, task.agent)];
      }
      return Ok(updated);
    }
  }

  // ---------- conservation ----------

  ghost predicate Keyed(tasks: Tasks) {
    forall id :: id in tasks ==> tasks[id].id == id && id != ""
  }

  function RunningShare(t: Task): nat { if t.status.Running? then t.units else 0 }

  ghost function SumOver(ids: set<string>, tasks: Tasks): (n: nat)
    requires ids <= tasks.Keys
  {
    if ids == {} then 0 else
      var id :| id in ids;
      RunningShare(tasks[id]) + SumOver(ids - {id}, tasks)
  }

  /** The units of all running tasks. */
  ghost function RunningUnits(tasks: Tasks): (n: nat) { SumOver(tasks.Keys, tasks) }

  lemma {:induction false} SumTakeOut(ids: set<string>, tasks: Tasks, id: string)
    requires ids <= tasks.Keys && id in ids
    ensures SumOver(ids, tasks) == RunningShare(tasks[id]) + SumOver(ids - {id}, tasks)
    decreases |ids|
  {
    var first :| first in ids && SumOver(ids, tasks) == RunningShare(tasks[first]) + SumOver(ids - {first}, tasks);
    if first != id {
      SumTakeOut(ids - {first}, tasks, id);
      SumTakeOut(ids - {id}, tasks, first);
      assert ids - {first} - {id} == ids - {id} - {first};
    }
  }

  lemma {:induction false} SumAgrees(ids: set<string>, tasks: Tasks, tasks': Tasks)
    requires ids <= tasks.Keys && ids <= tasks'.Keys
    requires forall id :: id in ids ==> tasks[id] == tasks'[id]
    ensures SumOver(ids, tasks) == SumOver(ids, tasks')
    decreases |ids|
  {
    if ids != {} {
      var id :| id in ids;
      SumTakeOut(ids, tasks, id);
      SumTakeOut(ids, tasks', id);
      SumAgrees(ids - {id}, tasks, tasks');
    }
  }

  lemma RunningUnitsUpdate(tasks: Tasks, id: string, t: Task)
    ensures RunningUnits(tasks[id := t])
         == RunningUnits(tasks) + RunningShare(t) - if id in tasks then RunningShare(tasks[id]) else 0
  {
    var tasks' := tasks[id := t];
    SumTakeOut(tasks'.Keys, tasks', id);
    SumAgrees(tasks.Keys - {id}, tasks, tasks');
    if id in tasks {
      SumTakeOut(tasks.Keys, tasks, id);
      assert tasks'.Keys == tasks.Keys;
    } else {
      assert tasks'.Keys - {id} == tasks.Keys - {id} == tasks.Keys;
    }
  }

  /** What every reachable state satisfies, for the given initial availability. */
  ghost predicate Inv(s: State, initial: nat) {
    && Keyed(s.tasks)
    && (forall id :: id in s.tasks ==> s.tasks[id].units <= s.capacity)
    && initial <= s.capacity
    && 0 <= s.available
    && s.available + RunningUnits(s.tasks) == initial
  }

  lemma ApplyKeepsInv(s: State, initial: nat, op: Op, agents: Agents)
    requires Inv(s, initial) && Legal(op)
    ensures Inv(Apply(s, op, agents).state, initial)
  {
    hide RunningUnits;
    match op {
      case Submit(t) => RunningUnitsUpdate(s.tasks, t.id, t);
      case Start(id) =>
        if id in s.tasks { RunningUnitsUpdate(s.tasks, id, s.tasks[id].(status := Running)); }
      case Finish(id, status) =>
        if id in s.tasks { RunningUnitsUpdate(s.tasks, id, s.tasks[id].(status := status)); }
    }
  }

  /** A run: calls, each with the registry as it was then. */
  function Run(s: State, calls: seq<(Op, Agents)>): (s': State)
  {
    if calls == [] then s else
      var front, last := Run(s, calls[..|calls| - 1]), calls[|calls| - 1];
      Apply(front, last.0, last.1).state
  }

  ghost predicate LegalRun(calls: seq<(Op, Agents)>) {
    forall i :: 0 <= i < |calls| ==> Legal(calls[i].0)
  }

  /** What is asked of a run: submitted tasks have an id, and tasks are finished as completed,
      failed or cancelled. */
  lemma LegalRunExactly(calls: seq<(Op, Agents)>)
    ensures LegalRun(calls) <==> forall i :: 0 <= i < |calls| ==>
      match calls[i].0
      case Submit(t) => t.id != ""
      case Start(_) => true
      case Finish(_, status) => status == Completed || status == Failed || status == Cancelled
  {
    forall i | 0 <= i < |calls|
      ensures Legal(calls[i].0) <==>
        match calls[i].0
        case Submit(t) => t.id != ""
        case Start(_) => true
        case Finish(_, status) => status == Completed || status == Failed || status == Cancelled
    {
    }
  }

  function Initial(capacity: nat, available: nat): State {
    State(map[], capacity, available, [])
  }

  /** Conservation: in every reachable state the available units and those of the running
      tasks add up to the initial availability, so available stays between 0 and capacity. */
  lemma {:induction false} Conservation(capacity: nat, available: nat, calls: seq<(Op, Agents)>)
    requires available <= capacity && LegalRun(calls)
    ensures var s := Run(Initial(capacity, available), calls);
      Inv(s, available) && s.capacity == capacity && 0 <= s.available <= s.capacity
  {
    if calls != [] {
      var front := calls[..|calls| - 1];
      Conservation(capacity, available, front);
      var last := calls[|calls| - 1];
      assert Legal(last.0);
      ApplyKeepsInv(Run(Initial(capacity, available), front), available, last.0, last.1);
    }
  }

  /** The guard against overflow never fires in a reachable state. */
  lemma OverflowUnreachable(capacity: nat, available: nat, calls: seq<(Op, Agents)>, op: Op, agents: Agents)
    requires available <= capacity && LegalRun(calls)
    ensures Apply(Run(Initial(capacity, available), calls), op, agents).result != Err(AccountingOverflow)
  {
    Conservation(capacity, available, calls);
    var s := Run(Initial(capacity, available), calls);
    if op.Finish? && op.id in s.tasks {
      SumTakeOut(s.tasks.Keys, s.tasks, op.id);
    }
  }

  /** Tasks are never dropped or rewritten: only the status moves, from queued to running
      to one terminal status. */
  lemma {:induction false} TasksOnlyProgress(s: State, calls: seq<(Op, Agents)>, id: string)
    requires LegalRun(calls) && id in s.tasks
    ensures var s' := Run(s, calls);
      && id in s'.tasks
      && s'.tasks[id] == s.tasks[id].(status := s'.tasks[id].status)
      && (|| s'.tasks[id].status == s.tasks[id].status
          || (s.tasks[id].status == Queued && s'.tasks[id].status != Queued)
          || (s.tasks[id].status == Running && s'.tasks[id].status != Queued))
      && (s.tasks[id].status == Completed || s.tasks[id].status == Failed || s.tasks[id].status == Cancelled ==>
            s'.tasks[id] == s.tasks[id])
  {
    if calls != [] {
      assert Legal(calls[|calls| - 1].0);
      TasksOnlyProgress(s, calls[..|calls| - 1], id);
    }
  }

  // ---------- draining ----------

  datatype Drained = Finished(order: seq<string>, state: State) | Stuck(started: seq<string>, failedAt: string)

  lemma {:induction false} LeastOf(tasks: Tasks, ids: set<string>) returns (id: string)
    requires ids != {} && ids <= tasks.Keys && Keyed(tasks)
    ensures id in ids && forall other :: other in ids && other != id ==> Before(tasks[id], tasks[other])
    decreases |ids|
  {
    id :| id in ids;
    if ids != {id} {
      var best := LeastOf(tasks, ids - {id});
      BeforeTotal(tasks[best], tasks[id]);
      if Before(tasks[id], tasks[best]) {
        forall other | other in ids && other != id && other != best
          ensures Before(tasks[id], tasks[other])
        {
          BeforeTransitive(tasks[id], tasks[best], tasks[other]);
        }
      } else {
        id := best;
      }
    }
  }

  lemma NextExists(tasks: Tasks)
    requires QueuedIds(tasks) != {} && Keyed(tasks)
    ensures exists id :: IsNext(tasks, id)
  {
    var id := LeastOf(tasks, QueuedIds(tasks));
    assert IsNext(tasks, id);
  }

  ghost function TheNext(tasks: Tasks): (id: string)
    requires QueuedIds(tasks) != {} && Keyed(tasks)
    ensures IsNext(tasks, id)
  {
    NextExists(tasks);
    var id :| IsNext(tasks, id);
    id
  }

  /** Repeating next_task, start and complete until nothing is queued or a call fails. */
  ghost function Drain(s: State, agents: Agents): (d: Drained)
    requires Keyed(s.tasks)
    decreases |QueuedIds(s.tasks)|
  {
    if QueuedIds(s.tasks) == {} then Finished([], s) else
      var id := TheNext(s.tasks);
      var started := Apply(s, Start(id), agents);
      if started.result.Err? then Stuck([], id) else
      var done := Apply(started.state, Finish(id, Completed), agents);
      if done.result.Err? then Stuck([], id) else
      QueueShrinks(s, id, agents);
      match Drain(done.state, agents)
      case Finished(order, s') => Finished([id] + order, s')
      case Stuck(order, at) => Stuck([id] + order, at)
  }

  lemma QueueShrinks(s: State, id: string, agents: Agents)
    requires Keyed(s.tasks) && id in QueuedIds(s.tasks)
    ensures var started := Apply(s, Start(id), agents);
      var done := Apply(started.state, Finish(id, Completed), agents);
      started.result.Ok? && done.result.Ok? ==>
        && Keyed(done.state.tasks)
        && done.state.tasks == s.tasks[id := s.tasks[id].(status := Completed)]
        && done.state.available == s.available && done.state.capacity == s.capacity
        && QueuedIds(done.state.tasks) == QueuedIds(s.tasks) - {id}
        && |QueuedIds(done.state.tasks)| < |QueuedIds(s.tasks)|
  {
    var tasks' := s.tasks[id := s.tasks[id].(status := Completed)];
    assert s.tasks[id := s.tasks[id].(status := Running)][id := s.tasks[id].(status := Completed)] == tasks';
    assert QueuedIds(tasks') == QueuedIds(s.tasks) - {id};
  }

  predicate Startable(s: State, agents: Agents, id: string)
    requires id in s.tasks
  {
    Schedulable(agents, s.tasks[id].agent) && s.tasks[id].units <= s.available
  }

  /** Draining goes through exactly when every queued task's agent is schedulable and its
      units fit what is available now. */
  lemma {:induction false} DrainFinishesExactly(s: State, agents: Agents)
    requires Keyed(s.tasks) && s.available <= s.capacity
    ensures Drain(s, agents).Finished? <==> forall id :: id in QueuedIds(s.tasks) ==> Startable(s, agents, id)
    decreases |QueuedIds(s.tasks)|
  {
    if QueuedIds(s.tasks) != {} {
      var id := TheNext(s.tasks);
      var started := Apply(s, Start(id), agents);
      assert id in QueuedIds(s.tasks) && id != "";
      assert started.result.Ok? <==> Startable(s, agents, id);
      if started.result.Ok? {
        var done := Apply(started.state, Finish(id, Completed), agents);
        QueueShrinks(s, id, agents);
        DrainFinishesExactly(done.state, agents);
        assert forall other :: other in QueuedIds(s.tasks) && other != id ==> other in QueuedIds(done.state.tasks);
      }
    }
  }

  /** Different queued tasks in increasing (priority rank, task_id) order, none missing. */
  ghost predicate AllInOrder(order: seq<string>, tasks: Tasks) {
    && (forall id :: id in order <==> id in QueuedIds(tasks))
    && (forall i, j :: 0 <= i < j < |order| ==> order[i] != order[j])
    && (forall i, j :: 0 <= i < j < |order| && order[i] in tasks && order[j] in tasks
          ==> Before(tasks[order[i]], tasks[order[j]]))
  }

  lemma FirstInOrder(id: string, rest: seq<string>, tasks: Tasks, tasks': Tasks)
    requires IsNext(tasks, id) && AllInOrder(rest, tasks')
    requires id in tasks && tasks' == tasks[id := tasks[id].(status := Completed)]
    ensures AllInOrder([id] + rest, tasks)
  {
    hide Before;
    var order := [id] + rest;
    assert forall i :: 0 <= i < |rest| ==> rest[i] in rest;
    forall i | 1 <= i < |order|
      ensures order[i] in tasks && order[i] != id && order[i] in QueuedIds(tasks) && tasks[order[i]] == tasks'[order[i]]
    {
      assert order[i] == rest[i - 1];
    }
    forall other
      ensures other in order <==> other in QueuedIds(tasks)
    {
      assert other in order <==> other == id || other in rest;
    }
    forall i, j | 0 <= i < j < |order|
      ensures order[i] != order[j] && Before(tasks[order[i]], tasks[order[j]])
    {
      if i > 0 { assert order[i] == rest[i - 1] && order[j] == rest[j - 1]; }
    }
  }

  /** And then every queued task is started once, in order, and ends completed, and nothing
      else changes. */
  lemma {:induction false} DrainIsOrdered(s: State, agents: Agents)
    requires Keyed(s.tasks) && Drain(s, agents).Finished?
    ensures var d := Drain(s, agents);
      && AllInOrder(d.order, s.tasks)
      && d.state.available == s.available
      && d.state.tasks == map id | id in s.tasks ::
           if s.tasks[id].status.Queued? then s.tasks[id].(status := Completed) else s.tasks[id]
    decreases |QueuedIds(s.tasks)|
  {
    hide Before, AllInOrder;
    if QueuedIds(s.tasks) == {} {
      NothingToOrder(s.tasks);
      assert forall id :: id in s.tasks ==> !s.tasks[id].status.Queued? by {
        assert forall id :: id in s.tasks && s.tasks[id].status.Queued? ==> id in QueuedIds(s.tasks);
      }
    } else {
      var id := TheNext(s.tasks);
      var done := Apply(Apply(s, Start(id), agents).state, Finish(id, Completed), agents).state;
      QueueShrinks(s, id, agents);
      DrainIsOrdered(done, agents);
      FirstInOrder(id, Drain(done, agents).order, s.tasks, done.tasks);
    }
  }

  /** By name: a drain runs all critical tasks, then the high, the normal and the low ones,
      each by increasing id. */
  lemma DrainByPriority(s: State, agents: Agents, i: nat, j: nat)
    requires Keyed(s.tasks) && Drain(s, agents).Finished? && i < j < |Drain(s, agents).order|
    ensures var order := Drain(s, agents).order;
      && order[i] in s.tasks && order[j] in s.tasks
      && match s.tasks[order[j]].priority
         case Critical => s.tasks[order[i]].priority.Critical? && Lex.StrLess(order[i], order[j])
         case High => s.tasks[order[i]].priority.Critical?
                      || (s.tasks[order[i]].priority.High? && Lex.StrLess(order[i], order[j]))
         case Normal => s.tasks[order[i]].priority.Critical? || s.tasks[order[i]].priority.High?
                        || (s.tasks[order[i]].priority.Normal? && Lex.StrLess(order[i], order[j]))
         case Low => s.tasks[order[i]].priority.Low? ==> Lex.StrLess(order[i], order[j])
  {
    hide Lex.StrLess, Drain;
    DrainIsOrdered(s, agents);
    var order := Drain(s, agents).order;
    assert order[i] in order && order[j] in order;
    assert order[i] in QueuedIds(s.tasks) && order[j] in QueuedIds(s.tasks);
  }

  /** Otherwise it stops at a queued task that cannot be started, and what was started are
      the queued tasks before it, in order. */
  lemma {:induction false} DrainStopsExactly(s: State, agents: Agents)
    requires Keyed(s.tasks) && s.available <= s.capacity && Drain(s, agents).Stuck?
    ensures var Stuck(started, at) := Drain(s, agents);
      && at in QueuedIds(s.tasks) && !Startable(s, agents, at)
      && (forall id :: id in started <==> id in QueuedIds(s.tasks) && Before(s.tasks[id], s.tasks[at]))
      && (forall id :: id in started ==> Startable(s, agents, id))
      && StartedInOrder(started, s.tasks)
    decreases |QueuedIds(s.tasks)|
  {
    hide Before, StartedInOrder;
    var id := TheNext(s.tasks);
    var run := Apply(s, Start(id), agents);
    assert id in QueuedIds(s.tasks) && id != "";
    assert run.result.Ok? <==> Startable(s, agents, id);
    if run.result.Err? {
      NothingBefore(s.tasks, id);
      NothingStarted(s.tasks);
    } else {
      var done := Apply(run.state, Finish(id, Completed), agents).state;
      QueueShrinks(s, id, agents);
      DrainStopsExactly(done, agents);
      var Stuck(rest, at) := Drain(done, agents);
      FirstStarted(id, rest, at, s.tasks, done.tasks);
      assert forall other :: other in [id] + rest <==> other == id || other in rest;
    }
  }

  ghost predicate StartedInOrder(order: seq<string>, tasks: Tasks) {
    && (forall i :: 0 <= i < |order| ==> order[i] in tasks)
    && (forall i, j :: 0 <= i < j < |order| ==> order[i] != order[j] && Before(tasks[order[i]], tasks[order[j]]))
  }

  lemma NothingStarted(tasks: Tasks)
    ensures StartedInOrder([], tasks)
  {
  }

  lemma NothingBefore(tasks: Tasks, id: string)
    requires IsNext(tasks, id)
    ensures forall other :: other in QueuedIds(tasks) ==> !Before(tasks[other], tasks[id])
  {
    forall other | other in QueuedIds(tasks)
      ensures !Before(tasks[other], tasks[id])
    {
      if Before(tasks[other], tasks[id]) {
        if other != id { BeforeTransitive(tasks[id], tasks[other], tasks[id]); }
        Lex.Irreflexive(Lex.Codes(tasks[id].id));
      }
    }
  }

  lemma FirstStarted(id: string, rest: seq<string>, at: string, tasks: Tasks, tasks': Tasks)
    requires IsNext(tasks, id) && StartedInOrder(rest, tasks')
    requires id in tasks && tasks' == tasks[id := tasks[id].(status := Completed)] && at in QueuedIds(tasks')
    requires forall other :: other in rest <==> other in QueuedIds(tasks') && Before(tasks'[other], tasks'[at])
    ensures StartedInOrder([id] + rest, tasks)
    ensures forall other :: other in [id] + rest <==> other in QueuedIds(tasks) && Before(tasks[other], tasks[at])
  {
    hide Before;
    var order := [id] + rest;
    assert forall i :: 0 <= i < |rest| ==> rest[i] in rest;
    assert forall i :: 1 <= i < |order| ==> order[i] == rest[i - 1];
    assert forall other :: other in order <==> other == id || other in rest;
    assert forall other :: other in QueuedIds(tasks') ==> other in QueuedIds(tasks) && other != id && tasks[other] == tasks'[other];
  }

  lemma NothingToOrder(tasks: Tasks)
    requires QueuedIds(tasks) == {}
    ensures AllInOrder([], tasks)
  {
  }

  /** From full availability with nothing running and all agents schedulable, draining a
      reachable state never fails. */
  lemma DrainFromFull(capacity: nat, calls: seq<(Op, Agents)>, agents: Agents)
    requires LegalRun(calls)
    requires var s := Run(Initial(capacity, capacity), calls);
      && (forall id :: id in s.tasks ==> !s.tasks[id].status.Running?)
      && (forall id :: id in QueuedIds(s.tasks) ==> Schedulable(agents, s.tasks[id].agent))
    ensures var s := Run(Initial(capacity, capacity), calls);
      Keyed(s.tasks) && Drain(s, agents).Finished?
  {
    Conservation(capacity, capacity, calls);
    var s := Run(Initial(capacity, capacity), calls);
    NothingRunning(s.tasks.Keys, s.tasks);
    DrainFinishesExactly(s, agents);
  }

  lemma {:induction false} NothingRunning(ids: set<string>, tasks: Tasks)
    requires ids <= tasks.Keys && forall id :: id in tasks ==> !tasks[id].status.Running?
    ensures SumOver(ids, tasks) == 0
    decreases |ids|
  {
    if ids != {} {
      var id :| id in ids;
      SumTakeOut(ids, tasks, id);
      NothingRunning(ids - {id}, tasks);
    }
  }
}
