/** What holds of every list reachable from the default account through any
    sequence of handler calls, failed ones included. */
module Invariants {
  import opened State
  import opened Errors
  import opened Transitions

  /** One instruction addressed to the list, with its caller and clock reading. */
  datatype Call =
    | CreateCall(caller: Pubkey, title: Bytes, description: Bytes, priority: TaskPriority,
                 category: TaskCategory, assignee: Option<Pubkey>, now: i64)
    | UpdateCall(caller: Pubkey, taskId: u64, newStatus: TaskStatus, now: i64)
    | AssignCall(caller: Pubkey, taskId: u64, newAssignee: Pubkey, now: i64)

  /** The number of completed tasks. */
  function CompletedCount(tasks: seq<Task>): (n: nat)
    ensures n <= |tasks|
  {
    if tasks == [] then 0
    else CompletedCount(tasks[..|tasks| - 1])
         + (if tasks[|tasks| - 1].status == Completed then 1 else 0)
  }

  /** The structural invariant of a reachable list: at most `MAX_TASKS` tasks,
      the id allocator equal to the number of tasks, ids 1..n in insertion
      order, a task completed exactly when it carries a completion time, and a
      streak no longer than the number of completed tasks. */
  predicate Inv(l: TodoList)
  {
    && |l.tasks| <= MAX_TASKS
    && l.taskCount == |l.tasks|
    && (forall i :: 0 <= i < |l.tasks| ==> l.tasks[i].id == i + 1)
    && (forall i :: 0 <= i < |l.tasks| ==>
          (l.tasks[i].status == Completed <==> l.tasks[i].completedAt.Some?))
    && l.completedTaskStreak <= CompletedCount(l.tasks)
  }

  /** Appending a task adds one to the count exactly when it is completed. */
  lemma CompletedCountAppend(tasks: seq<Task>, t: Task)
    ensures CompletedCount(tasks + [t])
            == CompletedCount(tasks) + (if t.status == Completed then 1 else 0)
  {
  }

  /** Replacing one task changes the count by the change in its completedness. */
  lemma {:induction false} CompletedCountUpdate(tasks: seq<Task>, i: nat, t: Task)
    requires i < |tasks|
    ensures CompletedCount(tasks[i := t]) + (if tasks[i].status == Completed then 1 else 0)
            == CompletedCount(tasks) + (if t.status == Completed then 1 else 0)
  {
    var n := |tasks| - 1;
    if i < n {
      CompletedCountUpdate(tasks[..n], i, t);
      assert tasks[i := t][..n] == tasks[..n][i := t];
    } else {
      assert tasks[i := t][..n] == tasks[..n];
    }
  }

  /** What the handler a call addresses returns. */
  function Outcome(l: TodoList, c: Call): Result<TodoList>
    requires Inv(l)
  {
    match c
    case CreateCall(caller, title, description, priority, category, assignee, now) =>
      CreateTask(l, caller, title, description, priority, category, assignee, now)
    case UpdateCall(caller, taskId, newStatus, now) =>
      UpdateTaskStatus(l, caller, taskId, newStatus, now)
    case AssignCall(caller, taskId, newAssignee, now) =>
      AssignTask(l, caller, taskId, newAssignee, now)
  }

  /** The effect of one call: a failed call leaves the list as it was. */
  function Step(l: TodoList, c: Call): TodoList
    requires Inv(l)
  {
    match Outcome(l, c)
    case Ok(l') => l'
    case Err(_) => l
  }

  /** In a list satisfying `Inv`, the task with id `k` is at position `k - 1`. */
  lemma {:induction false} LookupById(l: TodoList, id: u64)
    requires Inv(l)
    ensures FindIndex(l.tasks, id) == if 1 <= id <= |l.tasks| then Some(id - 1) else None
  {
    if 1 <= id <= |l.tasks| {
      assert l.tasks[id - 1].id == id;
    }
  }

  /** A successful `create_task` keeps `Inv`. */
  lemma CreatePreservesInv(l: TodoList, caller: Pubkey, title: Bytes, description: Bytes,
                           priority: TaskPriority, category: TaskCategory,
                           assignee: Option<Pubkey>, now: i64)
    requires Inv(l)
    ensures var r := CreateTask(l, caller, title, description, priority, category, assignee, now);
            r.Ok? ==> Inv(r.value)
  {
  }

  /** On a list satisfying `Inv` the streak has room to grow, and a successful
      `update_task_status` keeps `Inv`. */
  lemma UpdatePreservesInv(l: TodoList, caller: Pubkey, taskId: u64, newStatus: TaskStatus,
                           now: i64)
    requires Inv(l)
    ensures newStatus == Completed ==> l.completedTaskStreak < U64_MAX
    ensures var r := UpdateTaskStatus(l, caller, taskId, newStatus, now);
            r.Ok? ==> Inv(r.value)
  {
    var r := UpdateTaskStatus(l, caller, taskId, newStatus, now);
    if r.Ok? {
      var i := FindIndex(l.tasks, taskId).value;
      var t := r.value.tasks[i];
      assert r.value.tasks == l.tasks[i := t];
      CompletedCountUpdate(l.tasks, i, t);
      assert l.tasks[i].status != Completed;
    }
  }

  /** A successful `assign_task` keeps `Inv`. */
  lemma AssignPreservesInv(l: TodoList, caller: Pubkey, taskId: u64, newAssignee: Pubkey,
                           now: i64)
    requires Inv(l)
    ensures var r := AssignTask(l, caller, taskId, newAssignee, now);
            r.Ok? ==> Inv(r.value)
  {
    var r := AssignTask(l, caller, taskId, newAssignee, now);
    if r.Ok? {
      var i := FindIndex(l.tasks, taskId).value;
      var t := r.value.tasks[i];
      assert r.value.tasks == l.tasks[i := t];
      CompletedCountUpdate(l.tasks, i, t);
    }
  }

  /** Every handler keeps `Inv`; in particular the streak increment never
      overflows on a reachable list. */
  lemma StepPreservesInv(l: TodoList, c: Call)
    requires Inv(l)
    ensures Inv(Step(l, c))
  {
    match c
    case CreateCall(caller, title, description, priority, category, assignee, now) =>
      CreatePreservesInv(l, caller, title, description, priority, category, assignee, now);
    case UpdateCall(caller, taskId, newStatus, now) =>
      UpdatePreservesInv(l, caller, taskId, newStatus, now);
    case AssignCall(caller, taskId, newAssignee, now) =>
      AssignPreservesInv(l, caller, taskId, newAssignee, now);
  }

  /** The list after running `calls` in order. */
  function Run(l: TodoList, calls: seq<Call>): (r: TodoList)
    requires Inv(l)
    ensures Inv(r)
    decreases |calls|
  {
    if calls == [] then l
    else
      StepPreservesInv(l, calls[0]);
      Run(Step(l, calls[0]), calls[1..])
  }

  /** Every list reachable from the default account satisfies `Inv`: its ids
      are 1..n in insertion order, so they are unique. */
  lemma ReachableInv(calls: seq<Call>)
    ensures Inv(Run(DefaultList(), calls))
    ensures var l := Run(DefaultList(), calls);
            forall i, j :: 0 <= i < j < |l.tasks| ==> l.tasks[i].id != l.tasks[j].id
  {
  }

  /** The clock reading a call carries. */
  function CallTime(c: Call): i64
  {
    match c
    case CreateCall(_, _, _, _, _, _, now) => now
    case UpdateCall(_, _, _, now) => now
    case AssignCall(_, _, _, now) => now
  }

  /** Timestamps stored in the list are ordered and no later than `clock`. */
  predicate TimeInv(l: TodoList, clock: int)
  {
    && (forall i :: 0 <= i < |l.tasks| ==>
          l.tasks[i].createdAt <= l.tasks[i].updatedAt <= clock)
    && (forall i :: 0 <= i < |l.tasks| && l.tasks[i].completedAt.Some? ==>
          l.tasks[i].completedAt.value <= l.tasks[i].updatedAt)
    && (l.lastCompletedDate.Some? ==> l.lastCompletedDate.value <= clock)
  }

  /** A call whose clock reading is not earlier than `clock` keeps the stored
      timestamps ordered. */
  lemma StepPreservesTimeInv(l: TodoList, c: Call, clock: int)
    requires Inv(l) && TimeInv(l, clock) && clock <= CallTime(c)
    ensures TimeInv(Step(l, c), CallTime(c))
  {
  }

  /** The clock readings of `calls` never go back in time from `clock`. */
  predicate ClockMonotone(clock: int, calls: seq<Call>)
  {
    && (|calls| > 0 ==> clock <= CallTime(calls[0]))
    && forall k :: 0 < k < |calls| ==> CallTime(calls[k - 1]) <= CallTime(calls[k])
  }

  /** Under a clock that never goes back, every task keeps
      `created_at <= updated_at`, and a completion time never exceeds the last
      update time. */
  lemma {:induction false} RunPreservesTimeInv(l: TodoList, calls: seq<Call>, clock: int)
    requires Inv(l) && TimeInv(l, clock) && ClockMonotone(clock, calls)
    ensures TimeInv(Run(l, calls), if calls == [] then clock else CallTime(calls[|calls| - 1]))
    decreases |calls|
  {
    if calls != [] {
      var c := calls[0];
      StepPreservesTimeInv(l, c, clock);
      StepPreservesInv(l, c);
      var rest := calls[1..];
      assert ClockMonotone(CallTime(c), rest) by {
        if rest != [] {
          assert CallTime(calls[0]) <= CallTime(calls[1]);
        }
        forall k | 0 < k < |rest|
          ensures CallTime(rest[k - 1]) <= CallTime(rest[k])
        {
          assert rest[k] == calls[k + 1] && rest[k - 1] == calls[k];
        }
      }
      RunPreservesTimeInv(Step(l, c), rest, CallTime(c));
      if rest != [] {
        assert rest[|rest| - 1] == calls[|calls| - 1];
      }
    }
  }
}
