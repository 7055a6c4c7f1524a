/** The daily check-in: a user picks today's tasks (and an optional note); the day's view
    shows those tasks, the unfinished tasks carried over from yesterday's check-in, and the
    focus suggestions. One intent per (user, date), enforced by a unique constraint. */
module DailyCheckIn {
  import opened Wrappers
  import opened Domain
  import opened Errors
  import opened Text
  import opened Collections
  import TaskStore

  datatype IntentKey = IntentKey(userId: UserId, date: Date)

  /** A `daily_intents` row (its surrogate id is not modelled: the unique key identifies it). */
  datatype DailyIntent = DailyIntent(
    userId: UserId,
    date: Date,
    taskIds: seq<TaskId>,
    note: Option<string>,
    createdAt: Time,
    updatedAt: Time)

  type Intents = map<IntentKey, DailyIntent>

  /** Every intent is stored under its own user and date, and lists each task once (a
      check-in only stores lists that passed the size comparison). */
  predicate ValidIntents(m: Intents) {
    forall k :: k in m ==> m[k].userId == k.userId && m[k].date == k.date && Distinct(m[k].taskIds)
  }

  datatype CheckInRequest = CheckInRequest(taskIds: Option<seq<TaskId>>, note: Option<string>)

  /** The audit action a check-in records. */
  datatype Action = CheckInCreate | CheckInUpdate

  datatype View = View(
    date: Date,
    note: Option<string>,
    todayTasks: seq<TaskResponse>,
    carryoverTasks: seq<TaskResponse>,
    suggestedTasks: seq<TaskResponse>)

  const NullIdsMessage := "The given Ids of entities must not be null"
  const InvalidIdsMessage := "One or more invalid task IDs provided"

  function NotOwnedMessage(id: TaskId): string {
    "You do not own task ID: " + IntToString(id)
  }

  // ---------------------------------------------------------------------------
  // Looking rows up by a list of ids
  // ---------------------------------------------------------------------------

  /** The ids `findAllById` returns rows for: each existing id once. */
  function FoundIds(rows: map<TaskId, Task>, ids: seq<TaskId>): set<TaskId> {
    set x | x in ids && x in rows
  }

  /** The size comparison in the check-in: as many rows come back as ids were sent exactly
      when every id exists and no id is repeated. */
  lemma {:induction false} SizeCheckMeansAllDistinctAndPresent(rows: map<TaskId, Task>, ids: seq<TaskId>)
    ensures |FoundIds(rows, ids)| == |ids| <==>
              (forall i :: 0 <= i < |ids| ==> ids[i] in rows) && Distinct(ids)
  {
    ElemsCard(ids);
    var found, all := FoundIds(rows, ids), Elems(ids);
    assert found <= all;
    if forall i :: 0 <= i < |ids| ==> ids[i] in rows {
      assert found == all;
    } else {
      var k :| 0 <= k < |ids| && ids[k] !in rows;
      assert found <= all - {ids[k]};
      SubsetCard(found, all - {ids[k]});
    }
  }

  /** The first requested id (in request order) of an existing row the user does not own. */
  function FirstUnowned(rows: map<TaskId, Task>, user: UserId, ids: seq<TaskId>): (r: Option<TaskId>)
    ensures r.None? <==> forall i :: 0 <= i < |ids| && ids[i] in rows ==> rows[ids[i]].owner == user
    ensures r.Some? ==> r.value in ids && r.value in rows && rows[r.value].owner != user
  {
    if |ids| == 0 then None
    else if ids[0] in rows && rows[ids[0]].owner != user then Some(ids[0])
    else
      var r := FirstUnowned(rows, user, ids[1..]);
      assert forall i :: 1 <= i < |ids| ==> ids[i] == ids[1..][i - 1];
      r
  }

  /** The responses for the requested rows that exist and pass `keep`, in request order. */
  function Select(rows: map<TaskId, Task>, ids: seq<TaskId>, keep: Task -> bool): (r: seq<TaskResponse>)
    ensures |r| <= |ids|
    ensures forall resp :: resp in r <==>
              exists i :: 0 <= i < |ids| && ids[i] in rows && keep(rows[ids[i]]) && resp == ToResponse(rows[ids[i]])
  {
    if |ids| == 0 then []
    else
      var rest := Select(rows, ids[1..], keep);
      assert forall i :: 1 <= i < |ids| ==> ids[i] == ids[1..][i - 1];
      if ids[0] in rows && keep(rows[ids[0]]) then [ToResponse(rows[ids[0]])] + rest else rest
  }

  /** With a repeat-free id list and every row stored under its own id, no response is
      listed twice: each row comes back once, as `findAllById` returns it. */
  lemma {:induction false} SelectDistinct(rows: map<TaskId, Task>, ids: seq<TaskId>, keep: Task -> bool)
    requires Distinct(ids)
    requires forall k :: k in rows ==> rows[k].id == k
    ensures Distinct(Select(rows, ids, keep))
  {
    if |ids| > 0 {
      DistinctCons(ids);
      SelectDistinct(rows, ids[1..], keep);
      var rest := Select(rows, ids[1..], keep);
      if ids[0] in rows && keep(rows[ids[0]]) {
        var head := ToResponse(rows[ids[0]]);
        assert head !in rest by {
          forall i | 0 <= i < |ids[1..]| && ids[1..][i] in rows
            ensures head != ToResponse(rows[ids[1..][i]])
          {
            assert ids[1..][i] != ids[0];
          }
        }
        assert ([head] + rest)[1..] == rest;
        DistinctCons([head] + rest);
      }
    }
  }

  /** When every requested row exists and passes, the selection is the rows' responses in
      request order. */
  lemma {:induction false} SelectAllKept(rows: map<TaskId, Task>, ids: seq<TaskId>, keep: Task -> bool)
    requires forall i :: 0 <= i < |ids| ==> ids[i] in rows && keep(rows[ids[i]])
    ensures |Select(rows, ids, keep)| == |ids|
    ensures forall i :: 0 <= i < |ids| ==> Select(rows, ids, keep)[i] == ToResponse(rows[ids[i]])
    decreases |ids|
  {
    if |ids| > 0 {
      SelectAllKept(rows, ids[1..], keep);
    }
  }

  // ---------------------------------------------------------------------------
  // The service
  // ---------------------------------------------------------------------------

  /** The checks before anything is written: a list is required, as many rows must come
      back as ids were sent, and every row must be the caller's. A missing list reaches
      `findAllById(null)`, whose argument check the repository proxy translates into a data
      access exception, which no specific handler matches: a 500. */
  function CheckSelection(rows: map<TaskId, Task>, user: UserId, ids: Option<seq<TaskId>>): (r: Result<seq<TaskId>, Error>)
    ensures r.Success? <==>
              && ids.Some?
              && (forall i :: 0 <= i < |ids.value| ==> ids.value[i] in rows && rows[ids.value[i]].owner == user)
              && Distinct(ids.value)
    ensures r.Success? ==> r.value == ids.value
    ensures ids.None? ==> r == Failure(Unexpected(NullIdsMessage))
    ensures ids.Some? && !Distinct(ids.value) ==> r == Failure(IllegalArgument(InvalidIdsMessage))
    ensures ids.Some? && r.Failure? && r.error.AccessDenied? ==>
              exists i :: 0 <= i < |ids.value| && ids.value[i] in rows && rows[ids.value[i]].owner != user
                          && r.error.message == NotOwnedMessage(ids.value[i])
    ensures r.Failure? ==> r.error.IllegalArgument? || r.error.AccessDenied? || r.error.Unexpected?
    ensures r.Failure? && r.error.Unexpected? <==> ids.None?
  {
    if ids.None? then Failure(Unexpected(NullIdsMessage))
    else
      SizeCheckMeansAllDistinctAndPresent(rows, ids.value);
      if |FoundIds(rows, ids.value)| != |ids.value| then Failure(IllegalArgument(InvalidIdsMessage))
      else
        match FirstUnowned(rows, user, ids.value)
        case Some(id) => Failure(AccessDenied(NotOwnedMessage(id)))
        case None => Success(ids.value)
  }

  predicate TodayKeep(t: Task) {
    !t.deleted
  }

  /** Java's `status != COMPLETED`: a task without a status is carried over. */
  predicate CarryoverKeep(user: UserId, t: Task) {
    t.owner == user && !t.deleted && t.status != Some(COMPLETED)
  }

  /** `getTodayCheckIn`: today's chosen tasks that still exist and are not deleted, and
      yesterday's chosen tasks the user still owns that are neither deleted nor completed.
      The focus suggestions come from elsewhere and are passed in. */
  function GetToday(intents: Intents, s: TaskStore.Store, user: UserId, today: Date,
                    suggested: seq<TaskResponse>): (v: View)
    ensures v.date == today && v.suggestedTasks == suggested
    ensures v.note == (if IntentKey(user, today) in intents then intents[IntentKey(user, today)].note else None)
    ensures IntentKey(user, today) !in intents ==> v.todayTasks == []
    ensures IntentKey(user, today - 1) !in intents ==> v.carryoverTasks == []
    ensures IntentKey(user, today) in intents ==>
              var ids := intents[IntentKey(user, today)].taskIds;
              && |v.todayTasks| <= |ids|
              && forall resp :: resp in v.todayTasks <==>
                   exists i :: 0 <= i < |ids| && ids[i] in s.rows && !s.rows[ids[i]].deleted
                               && resp == ToResponse(s.rows[ids[i]])
    ensures IntentKey(user, today - 1) in intents ==>
              var ids := intents[IntentKey(user, today - 1)].taskIds;
              && |v.carryoverTasks| <= |ids|
              && forall resp :: resp in v.carryoverTasks <==>
                   exists i :: 0 <= i < |ids| && ids[i] in s.rows && s.rows[ids[i]].owner == user
                               && !s.rows[ids[i]].deleted && s.rows[ids[i]].status != Some(COMPLETED)
                               && resp == ToResponse(s.rows[ids[i]])
  {
    var todayKey, yesterdayKey := IntentKey(user, today), IntentKey(user, today - 1);
    var todayTasks := if todayKey in intents then Select(s.rows, intents[todayKey].taskIds, TodayKeep) else [];
    var carryover :=
      if yesterdayKey in intents then Select(s.rows, intents[yesterdayKey].taskIds, t => CarryoverKeep(user, t))
      else [];
    View(today, if todayKey in intents then intents[todayKey].note else None, todayTasks, carryover, suggested)
  }

  /** The day's view lists each task at most once, in both lists. */
  lemma TodayListsEachTaskOnce(intents: Intents, s: TaskStore.Store, user: UserId, today: Date,
                               suggested: seq<TaskResponse>)
    requires ValidIntents(intents) && TaskStore.Valid(s)
    ensures Distinct(GetToday(intents, s, user, today, suggested).todayTasks)
    ensures Distinct(GetToday(intents, s, user, today, suggested).carryoverTasks)
  {
    var todayKey, yesterdayKey := IntentKey(user, today), IntentKey(user, today - 1);
    if todayKey in intents {
      SelectDistinct(s.rows, intents[todayKey].taskIds, TodayKeep);
    }
    if yesterdayKey in intents {
      SelectDistinct(s.rows, intents[yesterdayKey].taskIds, t => CarryoverKeep(user, t));
    }
  }

  /** `checkIn`: validates the selection, then overwrites today's intent (keeping its
      creation time) or creates it, and answers with the day's view. */
  function CheckIn(intents: Intents, s: TaskStore.Store, user: UserId, request: CheckInRequest, now: Time,
                   suggested: seq<TaskResponse>): (r: Result<(Intents, Action, View), Error>)
    ensures r.Success? <==> CheckSelection(s.rows, user, request.taskIds).Success?
    ensures r.Failure? ==> r.error == CheckSelection(s.rows, user, request.taskIds).error
    ensures r.Success? ==>
              var (intents', action, view) := r.value;
              var key := IntentKey(user, DayOf(now));
              && key in intents'
              && intents'.Keys == intents.Keys + {key}
              && (forall k :: k in intents && k != key ==> intents'[k] == intents[k])
              && intents'[key].taskIds == request.taskIds.value
              && intents'[key].note == request.note
              && intents'[key].updatedAt == now
              && intents'[key].createdAt == (if key in intents then intents[key].createdAt else now)
              && (action == CheckInUpdate <==> key in intents)
              && view == GetToday(intents', s, user, DayOf(now), suggested)
    ensures ValidIntents(intents) && r.Success? ==> ValidIntents(r.value.0)
  {
    var ids :- CheckSelection(s.rows, user, request.taskIds);
    var key := IntentKey(user, DayOf(now));
    var (intent, action) :=
      if key in intents then (intents[key].(taskIds := ids, note := request.note, updatedAt := now), CheckInUpdate)
      else (DailyIntent(user, DayOf(now), ids, request.note, now, now), CheckInCreate);
    var intents' := intents[key := intent];
    Success((intents', action, GetToday(intents', s, user, DayOf(now), suggested)))
  }

  /** A body without a task list passes validation but is answered with 500, and nothing is
      stored. */
  lemma MissingIdsAnswer500(intents: Intents, s: TaskStore.Store, user: UserId, note: Option<string>, now: Time,
                            suggested: seq<TaskResponse>, description: string)
    ensures var r := CheckIn(intents, s, user, CheckInRequest(None, note), now, suggested);
      && r == Failure(Unexpected(NullIdsMessage))
      && Handle(r.error, description).status == 500
      && Handle(r.error, description).message == FallbackMessage
  {
    StatusClasses(Unexpected(NullIdsMessage), description);
  }

  /** Check in, then look: the view lists exactly the chosen tasks, in the chosen order,
      when none is deleted, and shows the note just given. */
  lemma CheckInThenView(intents: Intents, s: TaskStore.Store, user: UserId, request: CheckInRequest, now: Time,
                        suggested: seq<TaskResponse>)
    requires CheckIn(intents, s, user, request, now, suggested).Success?
    requires forall i :: 0 <= i < |request.taskIds.value| ==> !s.rows[request.taskIds.value[i]].deleted
    ensures var view := CheckIn(intents, s, user, request, now, suggested).value.2;
            var ids := request.taskIds.value;
            && view.note == request.note
            && |view.todayTasks| == |ids|
            && (forall i :: 0 <= i < |ids| ==> view.todayTasks[i] == ToResponse(s.rows[ids[i]]))
  {
    SelectAllKept(s.rows, request.taskIds.value, TodayKeep);
  }

  /** Checking in twice on one day keeps one intent: the second overwrites the first's
      list and note and keeps its creation time. */
  lemma SecondCheckInOverwrites(intents: Intents, s: TaskStore.Store, user: UserId, first: CheckInRequest,
                                second: CheckInRequest, t1: Time, t2: Time, suggested: seq<TaskResponse>)
    requires DayOf(t1) == DayOf(t2)
    requires CheckIn(intents, s, user, first, t1, suggested).Success?
    requires CheckIn(CheckIn(intents, s, user, first, t1, suggested).value.0, s, user, second, t2, suggested).Success?
    ensures var m1 := CheckIn(intents, s, user, first, t1, suggested).value.0;
            var (m2, action, _) := CheckIn(m1, s, user, second, t2, suggested).value;
            var key := IntentKey(user, DayOf(t1));
            && m2.Keys == m1.Keys
            && action == CheckInUpdate
            && m2[key].taskIds == second.taskIds.value && m2[key].note == second.note
            && m2[key].createdAt == m1[key].createdAt && m2[key].updatedAt == t2
  {
  }

  /** A task completed since yesterday's check-in is not carried over, and an unfinished
      one (still the user's, not deleted) is. */
  lemma CarryoverSelectsUnfinished(intents: Intents, s: TaskStore.Store, user: UserId, today: Date,
                                   suggested: seq<TaskResponse>, id: TaskId)
    requires IntentKey(user, today - 1) in intents && id in intents[IntentKey(user, today - 1)].taskIds
    requires id in s.rows && s.rows[id].owner == user && !s.rows[id].deleted
    ensures s.rows[id].status != Some(COMPLETED) ==>
              ToResponse(s.rows[id]) in GetToday(intents, s, user, today, suggested).carryoverTasks
  {
    var ids := intents[IntentKey(user, today - 1)].taskIds;
    var i :| 0 <= i < |ids| && ids[i] == id;
    var sel := Select(s.rows, ids, t => CarryoverKeep(user, t));
    if s.rows[id].status != Some(COMPLETED) {
      assert CarryoverKeep(user, s.rows[ids[i]]);
      assert ToResponse(s.rows[id]) in sel;
    }
  }
}
