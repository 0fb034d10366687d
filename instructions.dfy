/** The three instruction handlers, each updating one list account in place. */
module Instructions {
  import opened State
  import opened Errors
  import T = Transitions

  /** The account after a handler whose outcome `spec` prescribes: on `Ok(l)`
      the handler reports success and the account holds `l`; on `Err(e)` it
      reports `e` and the account still holds `before`. */
  predicate Applied(spec: Result<TodoList>, before: TodoList, r: Result<()>, after: TodoList)
  {
    match spec
    case Ok(l) => r == Ok(()) && after == l
    case Err(e) => r == Err(e) && after == before
  }

  /** `tasks.iter_mut().find(|t| t.id == task_id)`: a linear scan for the
      first task carrying `taskId`. */
  method FindTask(tasks: seq<Task>, taskId: u64) returns (found: Option<nat>)
    ensures found == T.FindIndex(tasks, taskId)
  {
    var i := 0;
    while i < |tasks|
      invariant 0 <= i <= |tasks|
      invariant forall j :: 0 <= j < i ==> tasks[j].id != taskId
    {
      if tasks[i].id == taskId {
        return Some(i);
      }
      i := i + 1;
    }
    return None;
  }

  /** `create_task`: append a new pending task created by `caller`. */
  method CreateTask(list: UserTodoList, caller: Pubkey, title: Bytes, description: Bytes,
                    priority: TaskPriority, category: TaskCategory,
                    assignee: Option<Pubkey>, now: i64) returns (r: Result<()>)
    modifies list
    ensures Applied(T.CreateTask(old(list.View()), caller, title, description, priority,
                                 category, assignee, now),
                    old(list.View()), r, list.View())
    ensures r.Ok? ==> list.tasks == old(list.tasks) + [list.tasks[|list.tasks| - 1]]
    ensures r.Ok? ==> list.taskCount == old(list.taskCount) + 1
    ensures r.Err? ==> unchanged(list)
  {
    if |title| > MAX_TITLE_LENGTH {
      return Err(InvalidTitle);
    }
    if |description| > MAX_DESCRIPTION_LENGTH {
      return Err(InvalidTitle);
    }
    if |list.tasks| >= MAX_TASKS {
      return Err(MaxTasksLimitReached);
    }
    var next := T.CheckedAdd(list.taskCount, 1);
    if next.None? {
      return Err(MaxTasksLimitReached);
    }
    var taskId := next.value;
    var newTask := NewTask(taskId, title, description, caller, assignee, priority,
                           category, now);
    list.tasks := list.tasks + [newTask];
    list.taskCount := list.taskCount + 1;
    return Ok(());
  }

  /** `update_task_status`: move a task the caller created or is assigned to
      to `newStatus`, and on completion update the daily streak. */
  method UpdateTaskStatus(list: UserTodoList, caller: Pubkey, taskId: u64,
                          newStatus: TaskStatus, now: i64) returns (r: Result<()>)
    requires newStatus == Completed ==> list.completedTaskStreak < U64_MAX
    modifies list
    ensures Applied(T.UpdateTaskStatus(old(list.View()), caller, taskId, newStatus, now),
                    old(list.View()), r, list.View())
    ensures list.owner == old(list.owner) && list.bump == old(list.bump)
    ensures list.taskCount == old(list.taskCount) && |list.tasks| == |old(list.tasks)|
    ensures r.Err? ==> unchanged(list)
  {
    var found := FindTask(list.tasks, taskId);
    if found.None? {
      return Err(TaskNotFound);
    }
    var i := found.value;
    var task := list.tasks[i];
    if !(task.creator == caller || task.assignee == Some(caller)) {
      return Err(UnauthorizedModification);
    }
    match task.status {
      case Completed =>
        return Err(TaskAlreadyCompleted);
      case Cancelled =>
        if newStatus != InProgress {
          return Err(InvalidStatusTransition);
        }
      case _ =>
    }

    list.tasks := list.tasks[i := list.tasks[i].(status := newStatus, updatedAt := now)];

    if newStatus == Completed {
      list.tasks := list.tasks[i := list.tasks[i].(completedAt := Some(now))];
      var today := T.DayIndex(now);
      match list.lastCompletedDate {
        case Some(lastCompleted) =>
          var lastCompletedDay := T.DayIndex(lastCompleted);
          if lastCompletedDay == today - 1 {
            list.completedTaskStreak := list.completedTaskStreak + 1;
          } else {
            list.completedTaskStreak := 1;
          }
        case None =>
          list.completedTaskStreak := 1;
      }
      list.lastCompletedDate := Some(now);
    }
    return Ok(());
  }

  /** `assign_task`: the task's creator hands it to `newAssignee`. */
  method AssignTask(list: UserTodoList, caller: Pubkey, taskId: u64, newAssignee: Pubkey,
                    now: i64) returns (r: Result<()>)
    modifies list
    ensures Applied(T.AssignTask(old(list.View()), caller, taskId, newAssignee, now),
                    old(list.View()), r, list.View())
    ensures list.View().(tasks := old(list.tasks)) == old(list.View())
    ensures r.Err? ==> r == Err(UnauthorizedModification) && unchanged(list)
  {
    var found := FindTask(list.tasks, taskId);
    if found.None? {
      return Err(UnauthorizedModification);
    }
    var i := found.value;
    if list.tasks[i].creator != caller {
      return Err(UnauthorizedModification);
    }
    list.tasks := list.tasks[i := list.tasks[i].(assignee := Some(newAssignee), updatedAt := now)];
    return Ok(());
  }
}
