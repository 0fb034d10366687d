# lockd-in to-do list, modelled in Dafny

The lockd-in program keeps one to-do list account per user. The account holds
a sequence of tasks, an id allocator (`task_count`), a daily completion streak,
and the time of the last completion. Three instructions change it:

- `create_task` checks the title and description lengths and the 100-task cap.
  It allocates the next id with an overflow check and appends a `Pending` task.
- `update_task_status` looks the task up by id and checks that the caller is
  its creator or assignee. It then applies the transition policy: `Completed`
  is terminal, and `Cancelled` may only move to `InProgress`. On completion it
  updates the streak from day indices `timestamp / 86400`.
- `assign_task` looks the task up, checks that the caller is its creator, and
  overwrites the assignee.

Each handler returns the error of its first failing check, and the account is
left as it was.

Modules, one per source file plus two for proofs:

- `Errors` (errors.dfy): the seven-variant `TodoError`, its messages, and the
  `Result` type the handlers return.
- `State` (state.dfy): fixed-width integers as ranges (`u8`, `u64`, `i64`).
   It also holds an opaque `Pubkey` compared only for equality, the three enums
   with their defaults, the bound constants, `Task` and `NewTask`, the `TodoList`
   account value, and the account class `UserTodoList`, whose fields the
   handlers update in place.
- `Transitions` (transitions.dfy): each handler as a function from the list
  value before the call to `Ok(new value)` or `Err(first failing check)`.
- `Instructions` (instructions.dfy): the handlers as methods that update a
  `UserTodoList` object in place. `FindTask` is the linear `find` loop. Each
  handler's postcondition ties the account's new contents and the returned
  result to `Transitions`.
- `Invariants` (invariants.dfy): traces of calls starting from the default
  account, and the invariants every reachable list keeps.
- `Properties` (properties.dfy): per-instruction error order, effect and
  frame, and the streak rules.

Strings are their UTF-8 bytes (`seq<u8>`), so Rust's `len()` is `|s|`.
Rust's `i64 /` rounds toward zero; `DayIndex` writes that rounding out instead
of using Dafny's Euclidean `/`. The clock reading is a parameter `now` of each
handler.

Three points where a reading of the program's intent and its code part ways;
the model follows the code:

- `completed_at` is never cleared, and every update of a `Completed` task
  fails. So a task is `Completed` exactly when `completed_at` is set, and
  `Inv` carries this as an invariant.
- `created_at <= updated_at` is not checked anywhere: the code stores whatever
  the clock says. The model proves it for clock readings that never go back
  (`RunPreservesTimeInv`).
- The repository's tests expect an empty title to be rejected. The code only
  checks upper bounds, and `EmptyTitleAccepted` proves that an empty title is
  accepted.

## Model

| member | source | states |
|---|---|---|
| `Errors.AllErrors` | anchor_project/lockd-in/programs/lockd-in/src/errors.rs:4-25 | the error enum lists seven pairwise distinct variants |
| `Errors.ErrorsAreSeven` | anchor_project/lockd-in/programs/lockd-in/src/errors.rs:4-25 | every error value is one of those seven, so there are exactly seven |
| `Errors.Message` | anchor_project/lockd-in/programs/lockd-in/src/errors.rs:5-24 | each variant carries a non-empty message |
| `Errors.MessagesIdentifyErrors` | anchor_project/lockd-in/programs/lockd-in/src/errors.rs:5-24 | no two variants share a message |
| `State.NewTask` | anchor_project/lockd-in/programs/lockd-in/src/state.rs:65-88 | a new task is `Pending` with no completion time, has `created_at == updated_at == now` (so `created_at <= updated_at`), and copies id, title, description, creator, assignee, priority and category verbatim |
| `State.DefaultList` | anchor_project/lockd-in/programs/lockd-in/src/state.rs:91-100 | the default account has no tasks, zero allocator and streak, no last completion, the default key as owner and bump 0 |
| `State.UserTodoList.New` | anchor_project/lockd-in/programs/lockd-in/src/state.rs:105-114 | `UserTodoList::new` stores owner and bump as given and starts empty, with zero counters and no last completion |
| `State.UserTodoList.Default` | anchor_project/lockd-in/programs/lockd-in/src/state.rs:91-100 | the account that `init_if_needed` allocates holds the default list |
| `Properties.Defaults` | anchor_project/lockd-in/programs/lockd-in/src/state.rs:10-63 | the enum defaults are `Casual`, `Pending` and `Personal`; the bounds are 50, 250 and 100; the default list satisfies both invariants |
| `Transitions.CheckedAdd` | anchor_project/lockd-in/programs/lockd-in/src/instructions.rs:63-65 | the id allocation succeeds exactly when the sum fits in a `u64` and then yields the exact sum; it never wraps |
| `Transitions.DayIndex` | anchor_project/lockd-in/programs/lockd-in/src/instructions.rs:121-123 | the day index is the quotient by 86400 rounded toward zero, for negative timestamps too |
| `Transitions.FindIndex` | anchor_project/lockd-in/programs/lockd-in/src/instructions.rs:92-94 | the lookup yields the position of the first task with the id, and nothing exactly when no task carries it |
| `Transitions.TransitionError` | anchor_project/lockd-in/programs/lockd-in/src/instructions.rs:102-113 | the policy only ever rejects with `TaskAlreadyCompleted` or `InvalidStatusTransition` |
| `Transitions.NextStreak` | anchor_project/lockd-in/programs/lockd-in/src/instructions.rs:121-131 | the new streak is at least 1; it is the old streak plus one when the previous completion was on the day before today, and 1 otherwise |
| `Transitions.CreateTask` | anchor_project/lockd-in/programs/lockd-in/src/instructions.rs:51-81 | a success adds one task, stays within the 100-task cap and adds one to the allocator; a failure is `InvalidTitle` or `MaxTasksLimitReached` |
| `Transitions.UpdateTaskStatus` | anchor_project/lockd-in/programs/lockd-in/src/instructions.rs:83-136 | a success keeps the number of tasks, the allocator, the owner and the bump; a failure is never a creation error or `InvalidPriority` |
| `Transitions.AssignTask` | anchor_project/lockd-in/programs/lockd-in/src/instructions.rs:138-157 | a success changes only the task sequence, and keeps its length; every failure is `UnauthorizedModification` |
| `Instructions.FindTask` | anchor_project/lockd-in/programs/lockd-in/src/instructions.rs:92-94 | the scan returns what `FindIndex` specifies: the first match, or none |
| `Instructions.CreateTask` | anchor_project/lockd-in/programs/lockd-in/src/instructions.rs:51-81 | the account ends as `Transitions.CreateTask` prescribes: on success one task is appended and the allocator grows by one; on failure the account is unchanged |
| `Instructions.UpdateTaskStatus` | anchor_project/lockd-in/programs/lockd-in/src/instructions.rs:83-136 | the account ends as `Transitions.UpdateTaskStatus` prescribes; owner, bump, allocator and number of tasks never change, and on failure nothing changes |
| `Instructions.AssignTask` | anchor_project/lockd-in/programs/lockd-in/src/instructions.rs:138-157 | the account ends as `Transitions.AssignTask` prescribes; only the task sequence can change; every failure is `UnauthorizedModification` and leaves the account unchanged |
| `Properties.CreateTaskErrorOrder` | anchor_project/lockd-in/programs/lockd-in/src/instructions.rs:59-65 | an overlong title, then an overlong description, give `InvalidTitle`; then a full list, then an exhausted allocator, give `MaxTasksLimitReached`; success happens exactly when all four checks pass |
| `Properties.CreateTaskAppends` | anchor_project/lockd-in/programs/lockd-in/src/instructions.rs:63-78 | a success appends exactly `NewTask(old task_count + 1, ..., caller, assignee, ...)` at the end, adds one to `task_count`, and changes nothing else |
| `Properties.EmptyTitleAccepted` | anchor_project/lockd-in/programs/lockd-in/src/instructions.rs:59 | an empty title is accepted when the other checks pass |
| `Properties.CreateTaskIdOnReachable` | anchor_project/lockd-in/programs/lockd-in/src/instructions.rs:61-78 | on a reachable list the new id is the number of tasks plus one, and `MaxTasksLimitReached` comes only from a list of 100 tasks |
| `Invariants.CompletedCountAppend` | anchor_project/lockd-in/programs/lockd-in/src/instructions.rs:77 | appending a task adds one completed task exactly when the appended task is completed |
| `Invariants.CompletedCountUpdate` | anchor_project/lockd-in/programs/lockd-in/src/instructions.rs:115-118 | rewriting one task in place changes the completed count by the change in that task's completedness |
| `Invariants.LookupById` | anchor_project/lockd-in/programs/lockd-in/src/instructions.rs:92-94 | on a reachable list the task with id `k` sits at position `k - 1`, and ids outside 1..n are not found |
| `Invariants.CreatePreservesInv` | anchor_project/lockd-in/programs/lockd-in/src/instructions.rs:61-78 | `create_task` keeps at most 100 tasks, `task_count == tasks.len()`, ids 1..n in order, completion time iff completed, and the streak bound |
| `Invariants.UpdatePreservesInv` | anchor_project/lockd-in/programs/lockd-in/src/instructions.rs:115-132 | on a reachable list the streak increment cannot overflow, and `update_task_status` keeps the invariant |
| `Invariants.AssignPreservesInv` | anchor_project/lockd-in/programs/lockd-in/src/instructions.rs:153-154 | `assign_task` keeps the invariant |
| `Invariants.StepPreservesInv` | anchor_project/lockd-in/programs/lockd-in/src/instructions.rs:51-157 | every call, failed or not, keeps the invariant |
| `Invariants.Run` | anchor_project/lockd-in/programs/lockd-in/src/instructions.rs:51-157 | any sequence of calls from an invariant-satisfying list ends in one |
| `Invariants.ReachableInv` | anchor_project/lockd-in/programs/lockd-in/src/instructions.rs:61-78 | every list reachable from the default account satisfies the invariant, so its task ids are unique |
| `Invariants.StepPreservesTimeInv` | anchor_project/lockd-in/programs/lockd-in/src/instructions.rs:115-132 | a call whose clock reading is not earlier than the previous one keeps `created_at <= updated_at <= now` and `completed_at <= updated_at` for every task |
| `Invariants.RunPreservesTimeInv` | anchor_project/lockd-in/programs/lockd-in/src/state.rs:84-85 | under a clock that never goes back, every task keeps `created_at <= updated_at` across any sequence of calls |
| `Properties.UpdateErrorOrder` | anchor_project/lockd-in/programs/lockd-in/src/instructions.rs:92-113 | an absent id gives `TaskNotFound`; otherwise a caller who is neither creator nor assignee gives `UnauthorizedModification`; then `Completed` gives `TaskAlreadyCompleted` and `Cancelled` to anything but `InProgress` gives `InvalidStatusTransition`; success happens exactly when lookup, authorisation and policy all pass |
| `Properties.TransitionPolicy` | anchor_project/lockd-in/programs/lockd-in/src/instructions.rs:102-113 | from `Completed` every target (itself included) is refused; from `Cancelled` only `InProgress` is accepted; from `Pending` or `InProgress` every target is accepted |
| `Properties.UpdateFrame` | anchor_project/lockd-in/programs/lockd-in/src/instructions.rs:115-132 | a success sets the task's status and `updated_at`; only a completion sets `completed_at`, `last_completed_date` and the streak; other tasks, other task fields and the list counters are unchanged |
| `Properties.UpdateSameStatus` | anchor_project/lockd-in/programs/lockd-in/src/instructions.rs:102-116 | re-entering `Pending` or `InProgress` succeeds and only refreshes `updated_at` |
| `Properties.StreakRule` | anchor_project/lockd-in/programs/lockd-in/src/instructions.rs:121-131 | the day after extends the streak; the same day, a gap, or no previous completion set it to 1 |
| `Properties.DayIndexOfDays` | anchor_project/lockd-in/programs/lockd-in/src/instructions.rs:121 | any second of day `d` after the epoch has day index `d` |
| `Properties.StreakScenario` | anchor_project/lockd-in/programs/lockd-in/src/instructions.rs:118-132 | completions on days D, D+1 and D+3 of a fresh account give streaks 1, 2, 1 |
| `Properties.AssignErrors` | anchor_project/lockd-in/programs/lockd-in/src/instructions.rs:147-151 | an absent id gives `UnauthorizedModification`, not `TaskNotFound`; success happens exactly when the first task with the id was created by the caller |
| `Properties.AssignEffect` | anchor_project/lockd-in/programs/lockd-in/src/instructions.rs:151-154 | a success sets that task's assignee to the new one and refreshes its `updated_at`; status, other tasks, counters and streak are unchanged |
| `Properties.ErrorSources` | anchor_project/lockd-in/programs/lockd-in/src/errors.rs:14-24 | no handler returns `InvalidPriority`, and only `update_task_status` returns `TaskNotFound` |

## Left out

- The account structs `CreateTask`, `UpdateTaskStatus` and `AssignTask` (instructions.rs:5-49) bind accounts at runtime. They derive the list address, pay for storage and check signatures. The caller is a plain `Pubkey` parameter instead.
- In the program the seeds tie each list to its signer's key (instructions.rs:12,29,42), so every call on a list comes from that one key and every task's creator is that key; an assignee cannot reach the creator's list, and the `UnauthorizedModification` branches (instructions.rs:96-100,151) cannot fire. The model lets each call carry any caller, a sound over-approximation: every property proved holds a fortiori for the program's single caller.
- The account space `8 + size_of::<UserTodoList>() + 1024` (instructions.rs:15) is allocated once by `init_if_needed` and never reallocated, so it also bounds the serialized list: roughly 1.1 KB, far less than 100 serialized tasks need (on the order of fifteen minimal tasks). In the program the `MAX_TASKS` check (instructions.rs:61) is therefore never what stops growth; earlier, any call whose result no longer fits (a create, a completion turning `last_completed_date` or `completed_at` from `None` to `Some`, an assign turning `assignee` from `None` to `Some`) fails with a framework error when the account is written back. The model does not capture this storage bound: it has no byte sizes, and its only cap is the `MAX_TASKS` check.
- `Clock::get()` reads the clock, and its failure aborts the instruction. The reading is the parameter `now`, and clock failure is not modelled.
- lib.rs is the `#[program]` dispatch that forwards arguments, and `declare_id!`. Serialization of accounts is done by the framework. Neither is modelled.
- The seed constant `UserTodoList::SEED` (state.rs:103) is unused; its value is the seed literal `b"user-todo-list"` that the account structs repeat (instructions.rs:12,29,42).
- The repository's TypeScript tests run against a validator and are not part of this model.
- Transitions.UpdateTaskStatus: requires `completed_task_streak < 2^64 - 1` when completing, because whether `+= 1` panics or wraps depends on build settings that are not shown. `Invariants.UpdatePreservesInv` proves this always holds on a reachable list, where the streak is at most the number of completed tasks.
- Instructions.UpdateTaskStatus: carries the same streak precondition, for the same reason.
- The transactional rollback of the runtime is not modelled. It is not needed: every check precedes every write, so a failing handler has written nothing.
