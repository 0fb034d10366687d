/** Properties each handler promises: first-failure error order, the effect
    of a successful call, and what a call leaves untouched. */
module Properties {
  import opened State
  import opened Errors
  import opened Transitions
  import opened Invariants

  // ---- create_task ----

  /** The checks, in order; the first that fails decides the error. */
  lemma CreateTaskErrorOrder(l: TodoList, caller: Pubkey, title: Bytes, description: Bytes,
                             priority: TaskPriority, category: TaskCategory,
                             assignee: Option<Pubkey>, now: i64)
    ensures var r := CreateTask(l, caller, title, description, priority, category, assignee, now);
      && (|title| > MAX_TITLE_LENGTH ==> r == Err(InvalidTitle))
      && ((|title| <= MAX_TITLE_LENGTH && |description| > MAX_DESCRIPTION_LENGTH)
            ==> r == Err(InvalidTitle))
      && ((|title| <= MAX_TITLE_LENGTH && |description| <= MAX_DESCRIPTION_LENGTH
            && |l.tasks| >= MAX_TASKS) ==> r == Err(MaxTasksLimitReached))
      && ((|title| <= MAX_TITLE_LENGTH && |description| <= MAX_DESCRIPTION_LENGTH
            && |l.tasks| < MAX_TASKS && l.taskCount == U64_MAX) ==> r == Err(MaxTasksLimitReached))
      && (r.Ok? <==> |title| <= MAX_TITLE_LENGTH && |description| <= MAX_DESCRIPTION_LENGTH
                     && |l.tasks| < MAX_TASKS && l.taskCount < U64_MAX)
  {
  }

  /** A successful call appends exactly one pending task, created by the
      caller, whose id is the old allocator plus one, and changes nothing else
      but the allocator. */
  lemma CreateTaskAppends(l: TodoList, caller: Pubkey, title: Bytes, description: Bytes,
                          priority: TaskPriority, category: TaskCategory,
                          assignee: Option<Pubkey>, now: i64)
    ensures var r := CreateTask(l, caller, title, description, priority, category, assignee, now);
      r.Ok? ==>
        && r.value.tasks == l.tasks + [NewTask(l.taskCount + 1, title, description, caller,
                                               assignee, priority, category, now)]
        && r.value.taskCount == l.taskCount + 1
        && r.value.(tasks := l.tasks, taskCount := l.taskCount) == l
  {
  }

  /** Only upper bounds are checked: an empty title is accepted. */
  lemma EmptyTitleAccepted(l: TodoList, caller: Pubkey, description: Bytes,
                           priority: TaskPriority, category: TaskCategory,
                           assignee: Option<Pubkey>, now: i64)
    requires |description| <= MAX_DESCRIPTION_LENGTH
    requires |l.tasks| < MAX_TASKS && l.taskCount < U64_MAX
    ensures CreateTask(l, caller, [], description, priority, category, assignee, now).Ok?
  {
  }

  /** On a reachable list the new id is the number of tasks plus one, and the
      only way the allocator can fail is through the capacity check. */
  lemma CreateTaskIdOnReachable(l: TodoList, caller: Pubkey, title: Bytes, description: Bytes,
                                priority: TaskPriority, category: TaskCategory,
                                assignee: Option<Pubkey>, now: i64)
    requires Inv(l)
    ensures var r := CreateTask(l, caller, title, description, priority, category, assignee, now);
      && (r.Ok? ==> r.value.tasks[|l.tasks|].id == |l.tasks| + 1)
      && (r == Err(MaxTasksLimitReached) <==>
            (|title| <= MAX_TITLE_LENGTH && |description| <= MAX_DESCRIPTION_LENGTH
             && |l.tasks| == MAX_TASKS))
  {
  }

  // ---- update_task_status ----

  /** Lookup comes first, then authorisation, then the transition policy. */
  lemma UpdateErrorOrder(l: TodoList, caller: Pubkey, taskId: u64, newStatus: TaskStatus,
                         now: i64)
    requires newStatus == Completed ==> l.completedTaskStreak < U64_MAX
    ensures var r := UpdateTaskStatus(l, caller, taskId, newStatus, now);
      && ((forall i :: 0 <= i < |l.tasks| ==> l.tasks[i].id != taskId) <==> r == Err(TaskNotFound))
      && (forall i :: (0 <= i < |l.tasks| && l.tasks[i].id == taskId
                        && (forall j :: 0 <= j < i ==> l.tasks[j].id != taskId)) ==>
            && ((l.tasks[i].creator != caller && l.tasks[i].assignee != Some(caller))
                  <==> r == Err(UnauthorizedModification))
            && ((MayUpdate(l.tasks[i], caller) && l.tasks[i].status == Completed)
                  ==> r == Err(TaskAlreadyCompleted))
            && ((MayUpdate(l.tasks[i], caller) && l.tasks[i].status == Cancelled)
                  ==> (r == Err(InvalidStatusTransition) <==> newStatus != InProgress))
            && (r.Ok? <==> MayUpdate(l.tasks[i], caller) && TransitionError(l.tasks[i].status, newStatus).None?))
  {
  }

  /** The transition policy: `Completed` is terminal, `Cancelled` may only be
      resumed, and `Pending`/`InProgress` accept every target, their own
      status included. */
  lemma TransitionPolicy(from: TaskStatus, to: TaskStatus)
    ensures from == Completed ==> TransitionError(from, to) == Some(TaskAlreadyCompleted)
    ensures from == Cancelled ==>
              (TransitionError(from, to).None? <==> to == InProgress)
              && (to != InProgress ==> TransitionError(from, to) == Some(InvalidStatusTransition))
    ensures from == Pending || from == InProgress ==> TransitionError(from, to).None?
  {
  }

  /** A successful call rewrites the found task's status and update time, and
      only a completion stamps `completed_at` and touches the streak fields;
      every other task and field is unchanged. */
  lemma UpdateFrame(l: TodoList, caller: Pubkey, taskId: u64, newStatus: TaskStatus, now: i64)
    requires newStatus == Completed ==> l.completedTaskStreak < U64_MAX
    ensures var r := UpdateTaskStatus(l, caller, taskId, newStatus, now);
      r.Ok? ==>
        var i := FindIndex(l.tasks, taskId).value;
        var t := l.tasks[i];
        && |r.value.tasks| == |l.tasks|
        && (forall j :: 0 <= j < |l.tasks| && j != i ==> r.value.tasks[j] == l.tasks[j])
        && r.value.tasks[i].(status := t.status, updatedAt := t.updatedAt,
                             completedAt := t.completedAt) == t
        && r.value.tasks[i].status == newStatus && r.value.tasks[i].updatedAt == now
        && r.value.taskCount == l.taskCount && r.value.owner == l.owner && r.value.bump == l.bump
        && (newStatus == Completed ==>
              && r.value.tasks[i].completedAt == Some(now)
              && r.value.lastCompletedDate == Some(now)
              && r.value.completedTaskStreak
                 == (if ContinuesStreak(l.lastCompletedDate, now) then l.completedTaskStreak + 1 else 1))
        && (newStatus != Completed ==>
              && r.value.tasks[i].completedAt == t.completedAt
              && r.value.lastCompletedDate == l.lastCompletedDate
              && r.value.completedTaskStreak == l.completedTaskStreak)
  {
  }

  /** Re-entering the current `Pending` or `InProgress` status, by someone
      allowed to, succeeds and only refreshes `updated_at`. */
  lemma UpdateSameStatus(l: TodoList, caller: Pubkey, i: nat, now: i64)
    requires i < |l.tasks| && (forall j :: 0 <= j < i ==> l.tasks[j].id != l.tasks[i].id)
    requires l.tasks[i].status == Pending || l.tasks[i].status == InProgress
    requires MayUpdate(l.tasks[i], caller)
    ensures UpdateTaskStatus(l, caller, l.tasks[i].id, l.tasks[i].status, now)
            == Ok(l.(tasks := l.tasks[i := l.tasks[i].(updatedAt := now)]))
  {
  }

  /** A completion on the day after the previous one extends the streak;
      any other completion, a second one on the same day included, resets it
      to one. */
  lemma StreakRule(streak: u64, last: i64, now: i64)
    requires streak < U64_MAX
    ensures DayIndex(last) == DayIndex(now) - 1 ==> NextStreak(streak, Some(last), now) == streak + 1
    ensures DayIndex(last) == DayIndex(now) ==> NextStreak(streak, Some(last), now) == 1
    ensures DayIndex(last) < DayIndex(now) - 1 ==> NextStreak(streak, Some(last), now) == 1
    ensures NextStreak(streak, None, now) == 1
  {
  }

  /** Day indices of non-negative timestamps are whole days since the epoch. */
  lemma DayIndexOfDays(d: nat, s: nat)
    requires s < SECONDS_PER_DAY && d * SECONDS_PER_DAY + s <= I64_MAX
    ensures DayIndex(d * SECONDS_PER_DAY + s) == d
  {

  }

  /** Three tasks completed on days D, D + 1 and D + 3 of an account that had
      never completed anything leave streaks 1, 2, then 1 again. */
  lemma StreakScenario(owner: Pubkey, d: nat, a: Task, b: Task, c: Task)
    requires (d + 3) * SECONDS_PER_DAY <= I64_MAX
    requires a.id == 1 && b.id == 2 && c.id == 3
    requires a.creator == owner && b.creator == owner && c.creator == owner
    requires a.status == Pending && b.status == Pending && c.status == Pending
    ensures
      var l0 := TodoList(owner, [a, b, c], 3, 0, None, 0);
      var r1 := UpdateTaskStatus(l0, owner, 1, Completed, d * SECONDS_PER_DAY);
      r1.Ok? && r1.value.completedTaskStreak == 1 &&
      var r2 := UpdateTaskStatus(r1.value, owner, 2, Completed, (d + 1) * SECONDS_PER_DAY);
      r2.Ok? && r2.value.completedTaskStreak == 2 &&
      var r3 := UpdateTaskStatus(r2.value, owner, 3, Completed, (d + 3) * SECONDS_PER_DAY);
      r3.Ok? && r3.value.completedTaskStreak == 1
  {
    var l0 := TodoList(owner, [a, b, c], 3, 0, None, 0);
    DayIndexOfDays(d, 0);
    DayIndexOfDays(d + 1, 0);
    DayIndexOfDays(d + 3, 0);
    assert FindIndex(l0.tasks, 1) == Some(0);
    var r1 := UpdateTaskStatus(l0, owner, 1, Completed, d * SECONDS_PER_DAY);
    assert r1.Ok? && r1.value.completedTaskStreak == 1;
    var l1 := r1.value;
    assert l1.tasks[0].id == 1 && l1.tasks[1] == b && l1.tasks[2] == c;
    assert FindIndex(l1.tasks, 2) == Some(1);
    var r2 := UpdateTaskStatus(l1, owner, 2, Completed, (d + 1) * SECONDS_PER_DAY);
    assert r2.Ok? && r2.value.completedTaskStreak == 2;
    var l2 := r2.value;
    assert l2.tasks[0].id == 1 && l2.tasks[1].id == 2 && l2.tasks[2] == c;
    assert FindIndex(l2.tasks, 3) == Some(2);
  }

  // ---- assign_task ----

  /** A missing id and a caller who is not the creator both give
      `UnauthorizedModification`; otherwise the call succeeds. */
  lemma AssignErrors(l: TodoList, caller: Pubkey, taskId: u64, newAssignee: Pubkey, now: i64)
    ensures var r := AssignTask(l, caller, taskId, newAssignee, now);
      && ((forall i :: 0 <= i < |l.tasks| ==> l.tasks[i].id != taskId)
            ==> r == Err(UnauthorizedModification))
      && (r.Ok? <==> exists i :: 0 <= i < |l.tasks| && l.tasks[i].id == taskId
                       && (forall j :: 0 <= j < i ==> l.tasks[j].id != taskId)
                       && l.tasks[i].creator == caller)
  {
  }

  /** A successful call sets the assignee and refreshes `updated_at` of the
      found task only; its status, the other tasks, the counters and the
      streak are unchanged. */
  lemma AssignEffect(l: TodoList, caller: Pubkey, taskId: u64, newAssignee: Pubkey, now: i64)
    ensures var r := AssignTask(l, caller, taskId, newAssignee, now);
      r.Ok? ==>
        var i := FindIndex(l.tasks, taskId).value;
        && l.tasks[i].creator == caller
        && r.value.tasks == l.tasks[i := l.tasks[i].(assignee := Some(newAssignee), updatedAt := now)]
        && r.value.tasks[i].status == l.tasks[i].status
        && r.value.taskCount == l.taskCount
        && r.value.completedTaskStreak == l.completedTaskStreak
        && r.value.lastCompletedDate == l.lastCompletedDate
  {
  }

  // ---- the error taxonomy ----

  /** `TaskNotFound` comes only from `update_task_status`, and no handler
      ever reports `InvalidPriority`. */
  lemma ErrorSources(l: TodoList, c: Call)
    requires Inv(l)
    ensures var r := Outcome(l, c);
      && r != Err(InvalidPriority)
      && (r == Err(TaskNotFound) ==> c.UpdateCall?)
  {
  }

  /** The default account is the empty list and the enum defaults are
      `Casual`, `Pending` and `Personal`. */
  lemma Defaults()
    ensures Inv(DefaultList()) && TimeInv(DefaultList(), I64_MIN)
    ensures DEFAULT_PRIORITY == Casual && DEFAULT_STATUS == Pending && DEFAULT_CATEGORY == Personal
    ensures MAX_TITLE_LENGTH == 50 && MAX_DESCRIPTION_LENGTH == 250 && MAX_TASKS == 100
  {
  }
}
