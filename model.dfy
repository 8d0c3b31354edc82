/**
 * The task records of the workforce-management service: a task tied to an
 * external reference entity, with its assignee, lifecycle status, priority,
 * deadline, creation time and its append-only comment and activity logs.
 */
module Model {

  /** A Java reference that may be null. */
  datatype Option<T> = None | Some(value: T)

  /** Lifecycle of a task. Only the terminal states COMPLETED and CANCELLED matter to the service's rules. */
  datatype TaskStatus = Assigned | InProgress | Completed | Cancelled

  datatype Priority = Low | Medium | High | Urgent | Additional

  /** A task kind (the `Task` enum), kept as its name. */
  type TaskKind = string

  /** A reference-entity type (the `ReferenceType` enum), kept as its name. */
  type ReferenceType = string

  /** One entry of a task's audit log: id, owning task, text, timestamp. */
  datatype TaskActivity = TaskActivity(id: int, taskId: int, activity: string, timestamp: int)

  datatype TaskComment = TaskComment(id: int, taskId: int, author: string, comment: string, createdAt: int)

  /**
   * A stored task. Nullable columns are `Option`s: a task made by the
   * assignment engine has no priority, deadline, creation time or description.
   */
  datatype Task = Task(
    id: int,
    referenceId: int,
    referenceType: ReferenceType,
    kind: TaskKind,
    assigneeId: int,
    status: TaskStatus,
    priority: Option<Priority>,
    deadline: Option<int>,
    createdTime: Option<int>,
    description: Option<string>,
    comments: seq<TaskComment>,
    activityHistory: seq<TaskActivity>)

  /** The id of a task that was never saved; saving it makes the store pick a fresh id. */
  const Unsaved: int := -1

  datatype Error = NotFound(id: int)

  datatype Result<T> = Ok(value: T) | Err(error: Error)
}
