/** Bean-validation constraints on the request bodies: each body is checked field by field,
    and every violated constraint contributes one `(field, message)` error. Fields are
    nullable (`None`); `@Size` and `@FutureOrPresent` accept null, `@NotBlank` does not. */
module Requests {
  import opened Wrappers
  import opened Domain
  import opened Errors
  import opened Text
  import DailyCheckIn

  // ---------------------------------------------------------------------------
  // The constraint annotations
  // ---------------------------------------------------------------------------

  /** `@NotBlank`: present, with something left after trimming. */
  predicate NotBlank(s: Option<string>) {
    s.Some? && HasTrimmedContent(s.value)
  }

  /** `@Size(max = n)` on a string: absent, or at most `n` UTF-16 code units long. */
  predicate SizeAtMost(s: Option<string>, n: nat) {
    s.None? || JavaLength(s.value) <= n
  }

  /** `@FutureOrPresent`: absent, or not before the validation-time clock. */
  predicate FutureOrPresent(t: Option<Time>, now: Time) {
    t.None? || t.value >= now
  }

  /** `@Size(min, max)` on a list: absent, or with a size in range. */
  predicate SizeBetween<T>(xs: Option<seq<T>>, min: nat, max: nat) {
    xs.None? || min <= |xs.value| <= max
  }

  /** The error for a violated constraint, none for a satisfied one. */
  function Check(ok: bool, field: string, message: string): (r: seq<FieldError>)
    ensures ok <==> r == []
    ensures !ok ==> r == [FieldError(field, message)]
  {
    if ok then [] else [FieldError(field, message)]
  }

  // ---------------------------------------------------------------------------
  // TaskRequest
  // ---------------------------------------------------------------------------

  datatype TaskRequest = TaskRequest(
    title: Option<string>,
    description: Option<string>,
    status: Option<Status>,
    priority: Option<Priority>,
    dueDate: Option<Time>,
    rationale: Option<string>,
    intentBucketId: Option<BucketId>)

  const TitleRequired := FieldError("title", "title is required")
  const TitleTooLong := FieldError("title", "title must be <= 255 characters")
  const DescriptionTooLong := FieldError("description", "description must be <= 1000 characters")
  const DueDateInPast := FieldError("dueDate", "dueDate cannot be in the past")
  const RationaleTooLong := FieldError("rationale", "rationale must be <= 500 characters")

  /** The title bound the annotation states. */
  const TitleMaxAsWritten: nat := 256
  /** The bound its message, its API schema and the default 255-character title column
      all state. */
  const TitleMax: nat := 255

  /** What a task body must satisfy, one constraint per annotation; status, priority and
      intent bucket are unconstrained. */
  predicate TaskRequestOk(r: TaskRequest, now: Time, titleMax: nat) {
    && NotBlank(r.title)
    && SizeAtMost(r.title, titleMax)
    && SizeAtMost(r.description, 1000)
    && FutureOrPresent(r.dueDate, now)
    && SizeAtMost(r.rationale, 500)
  }

  /** The violations of a task body with the given title bound, in declaration order. */
  function TaskErrorsWith(r: TaskRequest, now: Time, titleMax: nat): (errs: seq<FieldError>)
    ensures errs == [] <==> TaskRequestOk(r, now, titleMax)
    ensures TitleRequired in errs <==> !NotBlank(r.title)
    ensures TitleTooLong in errs <==> !SizeAtMost(r.title, titleMax)
    ensures DescriptionTooLong in errs <==> !SizeAtMost(r.description, 1000)
    ensures DueDateInPast in errs <==> !FutureOrPresent(r.dueDate, now)
    ensures RationaleTooLong in errs <==> !SizeAtMost(r.rationale, 500)
    ensures forall e :: e in errs ==> e in [TitleRequired, TitleTooLong, DescriptionTooLong, DueDateInPast, RationaleTooLong]
  {
    // The five messages have five different lengths, so no error stands for another.
    assert |TitleRequired.message| < |DueDateInPast.message| < |TitleTooLong.message|
           < |RationaleTooLong.message| < |DescriptionTooLong.message|;
    var title := Check(NotBlank(r.title), TitleRequired.field, TitleRequired.message);
    var titleSize := Check(SizeAtMost(r.title, titleMax), TitleTooLong.field, TitleTooLong.message);
    var description := Check(SizeAtMost(r.description, 1000), DescriptionTooLong.field, DescriptionTooLong.message);
    var dueDate := Check(FutureOrPresent(r.dueDate, now), DueDateInPast.field, DueDateInPast.message);
    var rationale := Check(SizeAtMost(r.rationale, 500), RationaleTooLong.field, RationaleTooLong.message);
    var errs := title + titleSize + description + dueDate + rationale;
    assert forall e :: e in errs <==> e in title || e in titleSize || e in description || e in dueDate || e in rationale;
    errs
  }

  /** The task body validation as annotated: titles of up to 256 code units pass. */
  function TaskErrorsAsWritten(r: TaskRequest, now: Time): (errs: seq<FieldError>)
    ensures errs == [] <==> TaskRequestOk(r, now, TitleMaxAsWritten)
    ensures TitleTooLong in errs <==> r.title.Some? && JavaLength(r.title.value) > 256
  {
    TaskErrorsWith(r, now, TitleMaxAsWritten)
  }

  /** The task body validation with the 255-code-unit title bound the message promises. */
  function TaskErrors(r: TaskRequest, now: Time): (errs: seq<FieldError>)
    ensures errs == [] <==> TaskRequestOk(r, now, TitleMax)
    ensures TitleTooLong in errs <==> r.title.Some? && JavaLength(r.title.value) > 255
    ensures TitleRequired in errs <==> !NotBlank(r.title)
  {
    TaskErrorsWith(r, now, TitleMax)
  }

  /** A string of characters from the basic multilingual plane is as long in Java as it is
      here. */
  lemma {:induction false} JavaLengthBmp(s: string)
    requires forall i :: 0 <= i < |s| ==> s[i] as int <= 0xFFFF
    ensures JavaLength(s) == |s|
    decreases |s|
  {
    if |s| > 0 {
      assert forall i :: 0 <= i < |s| - 1 ==> s[1..][i] == s[i + 1];
      JavaLengthBmp(s[1..]);
    }
  }

  /** The discrepancy: a 256-letter title passes the annotated check without complaint,
      although the message (and the title column) allow 255 characters; the corrected
      check rejects it with exactly that message. */
  lemma TitleOf256Letters(r: TaskRequest, now: Time)
    requires r.title == Some(seq(256, _ => 'a'))
    ensures TitleTooLong !in TaskErrorsAsWritten(r, now)
    ensures TitleTooLong in TaskErrors(r, now)
  {
    JavaLengthBmp(r.title.value);
  }

  /** The two checks differ only on titles exactly 256 code units long. */
  lemma TitleChecksAgreeElsewhere(r: TaskRequest, now: Time)
    requires r.title.None? || JavaLength(r.title.value) != 256
    ensures TaskErrors(r, now) == TaskErrorsAsWritten(r, now)
  {
  }

  /** Status, priority and intent bucket never cause a violation. */
  lemma UnconstrainedTaskFields(r: TaskRequest, now: Time, status: Option<Status>, priority: Option<Priority>,
                                bucket: Option<BucketId>)
    ensures TaskErrors(r.(status := status, priority := priority, intentBucketId := bucket), now) == TaskErrors(r, now)
  {
  }

  /** An empty title is answered with 400 "Validation Error" whose message names the
      title field. */
  lemma EmptyTitleRejected(r: TaskRequest, now: Time, description: string)
    requires r.title == Some("")
    ensures TitleRequired in TaskErrors(r, now)
    ensures Handle(InvalidBody(TaskErrors(r, now)), description).status == 400
    ensures Handle(InvalidBody(TaskErrors(r, now)), description).error == "Validation Error"
    ensures Contains(Handle(InvalidBody(TaskErrors(r, now)), description).message, "title")
  {
    var errs := TaskErrors(r, now);
    assert errs[0] == TitleRequired;
    ValidationMessageNamesFields(errs, 0, description);
  }

  // ---------------------------------------------------------------------------
  // IntentBucketRequest
  // ---------------------------------------------------------------------------

  datatype BucketBody = BucketBody(name: Option<string>, description: Option<string>, color: Option<string>)

  const NameRequired := FieldError("name", "name is required")
  const NameTooLong := FieldError("name", "name must be <= 100 characters")
  const BucketDescriptionTooLong := FieldError("description", "description must be <= 500 characters")

  predicate BucketBodyOk(b: BucketBody) {
    NotBlank(b.name) && SizeAtMost(b.name, 100) && SizeAtMost(b.description, 500)
  }

  /** The violations of an intent bucket body, in declaration order; colour is free. */
  function BucketErrors(b: BucketBody): (errs: seq<FieldError>)
    ensures errs == [] <==> BucketBodyOk(b)
    ensures NameRequired in errs <==> !NotBlank(b.name)
    ensures NameTooLong in errs <==> !SizeAtMost(b.name, 100)
    ensures BucketDescriptionTooLong in errs <==> !SizeAtMost(b.description, 500)
  {
    Check(NotBlank(b.name), NameRequired.field, NameRequired.message)
    + Check(SizeAtMost(b.name, 100), NameTooLong.field, NameTooLong.message)
    + Check(SizeAtMost(b.description, 500), BucketDescriptionTooLong.field, BucketDescriptionTooLong.message)
  }

  /** The colour never causes a violation. */
  lemma UnconstrainedColor(b: BucketBody, color: Option<string>)
    ensures BucketErrors(b.(color := color)) == BucketErrors(b)
  {
  }

  // ---------------------------------------------------------------------------
  // DailyCheckInRequest
  // ---------------------------------------------------------------------------

  const TaskCountOutOfRange := FieldError("taskIds", "Choose between 1 and 3 tasks for your daily check-in")

  /** The violations of a check-in body: one to three task ids (or none given at all, which
      the service then rejects); the note is free. */
  function CheckInErrors(r: DailyCheckIn.CheckInRequest): (errs: seq<FieldError>)
    ensures errs == [] <==> r.taskIds.None? || 1 <= |r.taskIds.value| <= 3
    ensures errs != [] ==> errs == [TaskCountOutOfRange]
  {
    Check(SizeBetween(r.taskIds, 1, 3), TaskCountOutOfRange.field, TaskCountOutOfRange.message)
  }

  /** The note never causes a violation. */
  lemma UnconstrainedNote(r: DailyCheckIn.CheckInRequest, note: Option<string>)
    ensures CheckInErrors(r.(note := note)) == CheckInErrors(r)
  {
  }

  /** Four ids are rejected with 400; a single id passes. */
  lemma CheckInSizeExamples(a: TaskId, b: TaskId, c: TaskId, d: TaskId, note: Option<string>, description: string)
    ensures var errs := CheckInErrors(DailyCheckIn.CheckInRequest(Some([a, b, c, d]), note));
      errs == [TaskCountOutOfRange] && Handle(InvalidBody(errs), description).status == 400
    ensures CheckInErrors(DailyCheckIn.CheckInRequest(Some([a]), note)) == []
  {
  }
}
