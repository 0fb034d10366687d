/** The three handlers as functions from the list value before the call to the
    outcome: the new list value, or the error of the first check that failed
    (the account is then left as it was). */
module Transitions {
  import opened State
  import opened Errors

  const SECONDS_PER_DAY: int := 86400

  /** Rust's `u64::checked_add`: `None` instead of wrapping past `U64_MAX`. */
  function CheckedAdd(a: u64, b: u64): (r: Option<u64>)
    ensures r.Some? <==> a + b <= U64_MAX
    ensures r.Some? ==> r.value == a + b
  {
    if a + b <= U64_MAX then Some(a + b) else None
  }

  /** The day index `timestamp / 86400` the streak compares. Rust's `/` on
      `i64` rounds toward zero, so a negative timestamp rounds up (Dafny's `/`
      is Euclidean and would round it down). */
  function DayIndex(t: i64): (day: int)
    ensures t >= 0 ==> 0 <= day * SECONDS_PER_DAY <= t < day * SECONDS_PER_DAY + SECONDS_PER_DAY
    ensures t < 0 ==> day * SECONDS_PER_DAY - SECONDS_PER_DAY < t <= day * SECONDS_PER_DAY <= 0
  {
    var a: int := t;
    if a >= 0 then a / SECONDS_PER_DAY else -((-a) / SECONDS_PER_DAY)
  }

  /** `tasks.iter().find(|t| t.id == id)`, as the position of the first match. */
  function FindIndex(tasks: seq<Task>, id: u64): (r: Option<nat>)
    ensures r.Some? ==> r.value < |tasks| && tasks[r.value].id == id
    ensures r.Some? ==> forall j :: 0 <= j < r.value ==> tasks[j].id != id
    ensures r.None? <==> forall j :: 0 <= j < |tasks| ==> tasks[j].id != id
  {
    if |tasks| == 0 then None
    else if tasks[0].id == id then Some(0)
    else match FindIndex(tasks[1..], id)
      case None => None
      case Some(k) => Some(k + 1)
  }

  /** Who may change a task's status: its creator or its current assignee. */
  predicate MayUpdate(t: Task, caller: Pubkey)
  {
    t.creator == caller || t.assignee == Some(caller)
  }

  /** The status-transition policy: `None` when `from -> to` is accepted. */
  function TransitionError(from: TaskStatus, to: TaskStatus): (r: Option<TodoError>)
    ensures r.Some? ==> r.value == TaskAlreadyCompleted || r.value == InvalidStatusTransition
  {
    match from
    case Completed => Some(TaskAlreadyCompleted)
    case Cancelled => if to == InProgress then None else Some(InvalidStatusTransition)
    case _ => None
  }

  /** True when the previous completion fell on the day just before `now`'s. */
  predicate ContinuesStreak(last: Option<i64>, now: i64)
  {
    last.Some? && DayIndex(last.value) == DayIndex(now) - 1
  }

  /** The completion streak after a task is completed at `now`. */
  function NextStreak(streak: u64, last: Option<i64>, now: i64): (r: u64)
    requires streak < U64_MAX
    ensures r >= 1
    ensures r == streak + 1 || r == 1
    ensures r == streak + 1 <==> ContinuesStreak(last, now) || streak == 0
  {
    match last
    case Some(lastCompleted) =>
      if DayIndex(lastCompleted) == DayIndex(now) - 1 then streak + 1 else 1
    case None => 1
  }

  /** `create_task`. */
  function CreateTask(l: TodoList, caller: Pubkey, title: Bytes, description: Bytes,
                      priority: TaskPriority, category: TaskCategory,
                      assignee: Option<Pubkey>, now: i64): (r: Result<TodoList>)
    ensures r.Ok? ==> |r.value.tasks| == |l.tasks| + 1 <= MAX_TASKS
    ensures r.Ok? ==> r.value.taskCount == l.taskCount + 1
    ensures r.Err? ==> r.error == InvalidTitle || r.error == MaxTasksLimitReached
  {
    if |title| > MAX_TITLE_LENGTH then Err(InvalidTitle)
    else if |description| > MAX_DESCRIPTION_LENGTH then Err(InvalidTitle)
    else if |l.tasks| >= MAX_TASKS then Err(MaxTasksLimitReached)
    else match CheckedAdd(l.taskCount, 1)
      case None => Err(MaxTasksLimitReached)
      case Some(taskId) =>
        var task := NewTask(taskId, title, description, caller, assignee,
                            priority, category, now);
        Ok(l.(tasks := l.tasks + [task], taskCount := taskId))
  }

  /** `update_task_status`. The streak increment is only defined while it fits
      in a `u64`. */
  function UpdateTaskStatus(l: TodoList, caller: Pubkey, taskId: u64,
                            newStatus: TaskStatus, now: i64): (r: Result<TodoList>)
    requires newStatus == Completed ==> l.completedTaskStreak < U64_MAX
    ensures r.Ok? ==> |r.value.tasks| == |l.tasks| && r.value.taskCount == l.taskCount
    ensures r.Ok? ==> r.value.owner == l.owner && r.value.bump == l.bump
    ensures r.Err? ==> r.error != InvalidTitle && r.error != MaxTasksLimitReached
                       && r.error != InvalidPriority
  {
    match FindIndex(l.tasks, taskId)
    case None => Err(TaskNotFound)
    case Some(i) =>
      var task := l.tasks[i];
      if !MayUpdate(task, caller) then Err(UnauthorizedModification)
      else match TransitionError(task.status, newStatus)
        case Some(e) => Err(e)
        case None =>
          var moved := task.(status := newStatus, updatedAt := now);
          if newStatus == Completed then
            Ok(l.(tasks := l.tasks[i := moved.(completedAt := Some(now))],
                  completedTaskStreak := NextStreak(l.completedTaskStreak, l.lastCompletedDate, now),
                  lastCompletedDate := Some(now)))
          else
            Ok(l.(tasks := l.tasks[i := moved]))
  }

  /** `assign_task`. A missing id is reported as an authorisation failure. */
  function AssignTask(l: TodoList, caller: Pubkey, taskId: u64, newAssignee: Pubkey,
                      now: i64): (r: Result<TodoList>)
    ensures r.Ok? ==> |r.value.tasks| == |l.tasks|
    ensures r.Ok? ==> r.value.(tasks := l.tasks) == l
    ensures r.Err? ==> r.error == UnauthorizedModification
  {
    match FindIndex(l.tasks, taskId)
    case None => Err(UnauthorizedModification)
    case Some(i) =>
      var task := l.tasks[i];
      if task.creator != caller then Err(UnauthorizedModification)
      else Ok(l.(tasks := l.tasks[i := task.(assignee := Some(newAssignee), updatedAt := now)]))
  }
}
