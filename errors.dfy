/** The error taxonomy of the to-do list program and the result type its
    three handlers return. */
module Errors {

  /** The seven typed failures a handler can report. */
  datatype TodoError =
    | InvalidTitle
    | TaskAlreadyCompleted
    | UnauthorizedModification
    | InvalidPriority
    | MaxTasksLimitReached
    | InvalidStatusTransition
    | TaskNotFound

  /** What a handler returns: a value on success, or the first check that failed. */
  datatype Result<T> = Ok(value: T) | Err(error: TodoError)

  /** Every variant, in declaration order. */
  function AllErrors(): (r: seq<TodoError>)
    ensures |r| == 7
    ensures forall i, j :: 0 <= i < j < |r| ==> r[i] != r[j]
  {
    [InvalidTitle, TaskAlreadyCompleted, UnauthorizedModification, InvalidPriority,
     MaxTasksLimitReached, InvalidStatusTransition, TaskNotFound]
  }

  /** The enumeration is closed: there is no eighth error. */
  lemma ErrorsAreSeven(e: TodoError)
    ensures e in AllErrors()
  {
  }

  /** The human-readable message attached to each variant. */
  function Message(e: TodoError): (m: string)
    ensures |m| > 0
  {
    match e
    case InvalidTitle => "Invalid task title or description"
    case TaskAlreadyCompleted => "Task already completed"
    case UnauthorizedModification => "Unauthorized task modification"
    case InvalidPriority => "Invalid task priority"
    case MaxTasksLimitReached => "Maximum tasks limit reached"
    case InvalidStatusTransition => "Invalid task status transition"
    case TaskNotFound => "Task not found"
  }

  /** No two variants share a message, so a message identifies its error. */
  lemma MessagesIdentifyErrors(e1: TodoError, e2: TodoError)
    ensures Message(e1) == Message(e2) ==> e1 == e2
  {
  }
}
