/** The query predicates used to filter tasks. Each builder takes optional arguments; an
    absent argument imposes no constraint. In SQL a comparison with a NULL column is never
    true, and every predicate here is built from comparisons with `and`/`or` only, so a
    comparison against an absent column is modelled as false. */
module TaskSpecification {
  import opened Wrappers
  import opened Domain
  import opened Text

  /** `column = value` where the column may be NULL. */
  predicate EqualsColumn<T(==)>(column: Option<T>, value: T) {
    column.Some? && column.value == value
  }

  predicate WithStatus(status: Option<Status>, t: Task) {
    status.None? || EqualsColumn(t.status, status.value)
  }

  predicate WithPriority(priority: Option<Priority>, t: Task) {
    priority.None? || EqualsColumn(t.priority, priority.value)
  }

  predicate WithIntent(intentId: Option<BucketId>, t: Task) {
    intentId.None? || EqualsColumn(t.intentBucket, intentId.value)
  }

  predicate WithOwner(owner: Option<UserId>, t: Task) {
    owner.None? || t.owner == owner.value
  }

  /** `status <> value`: a task whose status is NULL does not match. */
  predicate IsNotStatus(status: Option<Status>, t: Task) {
    status.None? || (t.status.Some? && t.status.value != status.value)
  }

  predicate IsNotDeleted(t: Task) {
    !t.deleted
  }

  predicate IsDeleted(t: Task) {
    t.deleted
  }

  /** `lower(column) LIKE %keyword%` with the keyword lower-cased. */
  predicate LikeLower(column: Option<string>, keyword: string) {
    column.Some? && Contains(ToLower(column.value), ToLower(keyword))
  }

  /** A null or blank keyword is no constraint; otherwise the lower-cased title or
      description must contain the lower-cased keyword. */
  predicate WithKeyword(keyword: Option<string>, t: Task) {
    keyword.None? || IsBlank(keyword.value)
    || LikeLower(Some(t.title), keyword.value) || LikeLower(t.description, keyword.value)
  }

  /** The bound semantics shared by the created and due ranges: both bounds mean an
      inclusive range, one bound a one-sided inclusive comparison, none no constraint. */
  predicate Between(column: Option<Time>, start: Option<Time>, end: Option<Time>) {
    if start.None? && end.None? then true
    else if start.Some? && end.Some? then column.Some? && start.value <= column.value <= end.value
    else if start.Some? then column.Some? && column.value >= start.value
    else column.Some? && column.value <= end.value
  }

  predicate WithCreatedBetween(start: Option<Time>, end: Option<Time>, t: Task) {
    Between(Some(t.createdAt), start, end)
  }

  predicate WithDueBetween(start: Option<Time>, end: Option<Time>, t: Task) {
    Between(t.dueDate, start, end)
  }

  /** Overdue and idle since `overdueThreshold`, or in progress and idle since
      `inProgressThreshold`, or pending and idle since `pendingThreshold`; all strict. */
  predicate IsStagnant(now: Time, overdueThreshold: Time, inProgressThreshold: Time, pendingThreshold: Time,
                       t: Task)
  {
    || (t.dueDate.Some? && t.dueDate.value < now && t.lastModifiedAt < overdueThreshold)
    || (EqualsColumn(t.status, IN_PROGRESS) && t.lastModifiedAt < inProgressThreshold)
    || (EqualsColumn(t.status, PENDING) && t.lastModifiedAt < pendingThreshold)
  }

  /** Every builder given no argument accepts every task. */
  lemma AbsentArgumentsAcceptAll(t: Task)
    ensures WithStatus(None, t) && WithPriority(None, t) && WithIntent(None, t)
    ensures WithOwner(None, t) && IsNotStatus(None, t) && WithKeyword(None, t)
    ensures WithCreatedBetween(None, None, t) && WithDueBetween(None, None, t)
  {
  }

  /** A blank keyword accepts every task; a non-blank one matches exactly the tasks whose
      lower-cased title or description contains it. */
  lemma KeywordSemantics(keyword: string, t: Task)
    ensures IsBlank(keyword) ==> WithKeyword(Some(keyword), t)
    ensures !IsBlank(keyword) ==>
              (WithKeyword(Some(keyword), t) <==>
                 Contains(ToLower(t.title), ToLower(keyword))
                 || (t.description.Some? && Contains(ToLower(t.description.value), ToLower(keyword))))
  {
  }

  /** Keyword matching ignores the case of ASCII letters on both sides. */
  lemma KeywordIgnoresCase(keyword: string, t: Task)
    ensures WithKeyword(Some(keyword), t) <==> WithKeyword(Some(ToLower(keyword)), t)
  {
    LowerIdempotent(keyword);
    assert forall i :: 0 <= i < |keyword| ==>
             (IsJavaWhitespace(keyword[i]) <==> IsJavaWhitespace(ToLower(keyword)[i]));
  }

  /** Lower-casing twice is lower-casing once. */
  lemma LowerIdempotent(s: string)
    ensures ToLower(ToLower(s)) == ToLower(s)
  {
  }

  /** A two-sided range is exactly the conjunction of its two one-sided ranges. */
  lemma RangeIsBothBounds(column: Option<Time>, start: Time, end: Time)
    ensures Between(column, Some(start), Some(end)) <==>
            Between(column, Some(start), None) && Between(column, None, Some(end))
  {
  }

  /** A task without a due date is outside every due-date range that has a bound. */
  lemma NoDueDateOutsideBoundedRange(t: Task, start: Option<Time>, end: Option<Time>)
    requires t.dueDate.None? && (start.Some? || end.Some?)
    ensures !WithDueBetween(start, end, t)
  {
  }

  /** The deleted filters are exact complements. */
  lemma DeletedFiltersComplement(t: Task)
    ensures IsNotDeleted(t) <==> !IsDeleted(t)
  {
  }

  /** A task with no due date can be stagnant only through its status: in progress or
      pending, and idle past that status's threshold. */
  lemma StagnantWithoutDueDate(now: Time, od: Time, ip: Time, pd: Time, t: Task)
    requires t.dueDate.None?
    ensures IsStagnant(now, od, ip, pd, t) <==>
              (t.status == Some(IN_PROGRESS) && t.lastModifiedAt < ip)
              || (t.status == Some(PENDING) && t.lastModifiedAt < pd)
  {
  }

  /** A completed or status-less task can be stagnant only by being overdue. */
  lemma StagnantCompletedOnlyWhenOverdue(now: Time, od: Time, ip: Time, pd: Time, t: Task)
    requires t.status.None? || t.status == Some(COMPLETED)
    ensures IsStagnant(now, od, ip, pd, t) <==>
              t.dueDate.Some? && t.dueDate.value < now && t.lastModifiedAt < od
  {
  }

  /** Touching a task (moving `lastModifiedAt` to a time no earlier than every threshold)
      takes it out of the stagnant set. */
  lemma TouchedTaskNotStagnant(now: Time, od: Time, ip: Time, pd: Time, t: Task)
    requires t.lastModifiedAt >= od && t.lastModifiedAt >= ip && t.lastModifiedAt >= pd
    ensures !IsStagnant(now, od, ip, pd, t)
  {
  }
}
