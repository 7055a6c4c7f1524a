/** The task record, its enumerations and the time units used throughout the model.
    Date-times (`LocalDateTime`, `Instant`) are integer milliseconds; dates
    (`LocalDate`) are day numbers. */
module Domain {
  import opened Wrappers

  type Time = int
  type Date = int
  type UserId = int
  type TaskId = int
  type BucketId = int

  const MillisPerMinute: int := 60_000
  const MillisPerDay: int := 86_400_000

  /** `t.toLocalDate()`: the day a time falls on (Dafny's `/` rounds down, as days do). */
  function DayOf(t: Time): Date {
    t / MillisPerDay
  }

  /** `t.minusDays(n)`. */
  function MinusDays(t: Time, n: int): Time {
    t - n * MillisPerDay
  }

  datatype Status = PENDING | IN_PROGRESS | COMPLETED
  datatype Priority = LOW | MEDIUM | HIGH

  /** A task row. `version` is the optimistic-lock stamp; `lastModifiedAt`, `rationale`
      and `intentBucket` are columns the query and explanation code reads. */
  datatype Task = Task(
    id: TaskId,
    title: string,
    description: Option<string>,
    status: Option<Status>,
    priority: Option<Priority>,
    dueDate: Option<Time>,
    deleted: bool,
    createdAt: Time,
    lastModifiedAt: Time,
    owner: UserId,
    version: nat,
    rationale: Option<string>,
    intentBucket: Option<BucketId>)

  /** The convenience constructor: fields copied verbatim, priority defaulting to MEDIUM,
      not deleted, created now, stamp 0 (what the persistence layer assigns on insert). The
      last-modified time starts at the creation time, as the stagnant-tasks integration test
      relies on (StagnantTasksIntegrationTest.java:80); `Task.java` itself has no such field. */
  function NewTask(id: TaskId, title: string, description: Option<string>, status: Option<Status>,
                   priority: Option<Priority>, dueDate: Option<Time>, owner: UserId, now: Time): (t: Task)
    ensures t.id == id && t.title == title && t.description == description
    ensures t.status == status && t.dueDate == dueDate && t.owner == owner
    ensures t.priority == Some(priority.GetOr(MEDIUM))
    ensures priority.None? ==> t.priority == Some(MEDIUM)
    ensures !t.deleted && t.createdAt == now && t.lastModifiedAt == now && t.version == 0
    ensures t.rationale.None? && t.intentBucket.None?
  {
    Task(id, title, description, status, Some(if priority.Some? then priority.value else MEDIUM),
         dueDate, false, now, now, owner, 0, None, None)
  }

  /** The fields of a task a client sees. */
  datatype TaskResponse = TaskResponse(
    id: TaskId,
    title: string,
    description: Option<string>,
    rationale: Option<string>,
    status: Option<Status>,
    priority: Option<Priority>,
    dueDate: Option<Time>,
    createdAt: Time)

  function ToResponse(t: Task): (r: TaskResponse)
    ensures r.id == t.id && r.title == t.title && r.status == t.status && r.dueDate == t.dueDate
  {
    TaskResponse(t.id, t.title, t.description, t.rationale, t.status, t.priority, t.dueDate, t.createdAt)
  }
}
