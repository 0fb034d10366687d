/** The records of the to-do list program: the three task enums with their
    defaults, a task, and the per-user list account. */
module State {

  const U64_MAX: int := 0xFFFF_FFFF_FFFF_FFFF
  const I64_MIN: int := -0x8000_0000_0000_0000
  const I64_MAX: int := 0x7FFF_FFFF_FFFF_FFFF

  /** Rust's fixed-width integers, as ranges of unbounded integers. */
  type u8 = x: int | 0 <= x < 0x100
  type u64 = x: int | 0 <= x <= U64_MAX
  type i64 = x: int | I64_MIN <= x <= I64_MAX

  /** A Rust `String`, seen as its UTF-8 bytes: `len()` is the byte count. */
  type Bytes = seq<u8>

  /** An account identity; the program only ever compares two for equality. */
  type Pubkey(==, 0)

  /** The all-zero key that `Default` puts in an identity field. */
  const DEFAULT_PUBKEY: Pubkey

  datatype Option<T> = None | Some(value: T)

  datatype TaskPriority = Leisure | Casual | Urgent
  datatype TaskStatus = Pending | InProgress | Completed | Cancelled
  datatype TaskCategory = Work | Personal | Home | Shopping

  const DEFAULT_PRIORITY: TaskPriority := Casual
  const DEFAULT_STATUS: TaskStatus := Pending
  const DEFAULT_CATEGORY: TaskCategory := Personal

  const MAX_TITLE_LENGTH: nat := 50
  const MAX_DESCRIPTION_LENGTH: nat := 250
  const MAX_TASKS: nat := 100

  datatype Task = Task(
    id: u64,
    title: Bytes,
    description: Bytes,
    creator: Pubkey,
    assignee: Option<Pubkey>,
    priority: TaskPriority,
    status: TaskStatus,
    category: TaskCategory,
    createdAt: i64,
    updatedAt: i64,
    completedAt: Option<i64>)

  /** `Task::new`: a fresh pending task stamped with the clock reading `now`. */
  function NewTask(id: u64, title: Bytes, description: Bytes, creator: Pubkey,
                   assignee: Option<Pubkey>, priority: TaskPriority,
                   category: TaskCategory, now: i64): (t: Task)
    ensures t.status == Pending && t.completedAt == None
    ensures t.createdAt == now && t.updatedAt == now
    ensures t.createdAt <= t.updatedAt
    ensures t.id == id && t.title == title && t.description == description
    ensures t.creator == creator && t.assignee == assignee
    ensures t.priority == priority && t.category == category
  {
    Task(id, title, description, creator, assignee, priority, Pending, category,
         now, now, None)
  }

  /** The value held by a list account at one moment. */
  datatype TodoList = TodoList(
    owner: Pubkey,
    tasks: seq<Task>,
    taskCount: u64,
    completedTaskStreak: u64,
    lastCompletedDate: Option<i64>,
    bump: u8)

  /** `UserTodoList::default()`, the value `init_if_needed` starts a list from. */
  function DefaultList(): (l: TodoList)
    ensures l.tasks == [] && l.taskCount == 0
    ensures l.completedTaskStreak == 0 && l.lastCompletedDate == None
    ensures l.owner == DEFAULT_PUBKEY && l.bump == 0
  {
    TodoList(DEFAULT_PUBKEY, [], 0, 0, None, 0)
  }

  /** The list account, whose fields the handlers update in place. */
  class UserTodoList {
    var owner: Pubkey
    var tasks: seq<Task>
    var taskCount: u64
    var completedTaskStreak: u64
    var lastCompletedDate: Option<i64>
    var bump: u8

    /** The account's current contents as a value. */
    function View(): (l: TodoList)
      reads this
    {
      TodoList(owner, tasks, taskCount, completedTaskStreak, lastCompletedDate, bump)
    }

    /** `UserTodoList::new(owner, bump)`. */
    constructor New(owner: Pubkey, bump: u8)
      ensures this.owner == owner && this.bump == bump
      ensures tasks == [] && taskCount == 0
      ensures completedTaskStreak == 0 && lastCompletedDate == None
    {
      this.owner := owner;
      this.bump := bump;
      tasks := [];
      taskCount := 0;
      completedTaskStreak := 0;
      lastCompletedDate := None;
    }

    /** `UserTodoList::default()`, as allocated by `init_if_needed`. */
    constructor Default()
      ensures View() == DefaultList()
    {
      owner := DEFAULT_PUBKEY;
      bump := 0;
      tasks := [];
      taskCount := 0;
      completedTaskStreak := 0;
      lastCompletedDate := None;
    }
  }
}
