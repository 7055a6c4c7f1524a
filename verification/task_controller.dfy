/** `POST /api/v1/tasks` with an optional `Idempotency-Key` header: the body is validated,
    a keyless request simply creates, and a keyed one is looked up under (key, caller,
    endpoint) first, replayed on a hit, and created then recorded on a miss. The controller
    is not transactional: the task service commits the new task before the outcome is
    recorded. */
module TaskController {
  import opened Wrappers
  import opened Domain
  import opened Errors
  import opened Text
  import TaskStore
  import Idempotency
  import CacheKey
  import Requests

  const Endpoint := "/api/v1/tasks"
  const CreatedStatus := 201
  const UnreadableReplayMessage := "Error deserializing stored idempotency response"

  /** Everything a create touches: tasks, idempotency records, list-cache versions. */
  datatype World = World(tasks: TaskStore.Store, keys: Idempotency.Table, versions: CacheKey.VersionCache)

  predicate Valid(w: World) {
    TaskStore.Valid(w.tasks) && Idempotency.Valid(w.keys)
  }

  /** The authenticated caller as found in the user table. */
  datatype Caller = Caller(id: UserId, username: string)

  /** The request hash (SHA-256 over its JSON) and the JSON writer and reader for responses. */
  datatype Codec = Codec(
    hash: Requests.TaskRequest -> string,
    write: TaskResponse -> string,
    read: string -> Option<TaskResponse>)

  /** Reading back what was written gives the same response. */
  ghost predicate RoundTrips(c: Codec) {
    forall x :: c.read(c.write(x)) == Some(x)
  }

  datatype Reply = Reply(status: int, body: TaskResponse)

  /** The code as written, or with both corrections applied: the 255-character title bound,
      and a save that may replace an expired record. */
  datatype Variant = AsWritten | Corrected

  function TaskErrorsIn(v: Variant, request: Requests.TaskRequest, now: Time): seq<FieldError> {
    if v.AsWritten? then Requests.TaskErrorsAsWritten(request, now) else Requests.TaskErrors(request, now)
  }

  /** The task service's create: one new task owned by the caller, carrying the request's
      fields, and the caller's list-cache version advanced. */
  function ServiceCreate(w: World, caller: Caller, request: Requests.TaskRequest, now: Time): (r: (World, TaskResponse))
    requires Valid(w)
    ensures Valid(r.0) && r.0.keys == w.keys
    ensures r.1.id !in w.tasks.rows && r.0.tasks.rows.Keys == w.tasks.rows.Keys + {r.1.id}
    ensures forall id :: id in w.tasks.rows ==> r.0.tasks.rows[id] == w.tasks.rows[id]
    ensures var t := r.0.tasks.rows[r.1.id];
      && t.owner == caller.id && !t.deleted
      && (request.title.Some? ==> t.title == request.title.value)
      && t.description == request.description && t.status == request.status && t.dueDate == request.dueDate
      && r.1 == ToResponse(t)
    ensures caller.username in r.0.versions
    ensures r.0.versions[caller.username] !=
      (if caller.username in w.versions then w.versions[caller.username] else CacheKey.InitialVersion)
    ensures forall u :: u in w.versions && u != caller.username ==> u in r.0.versions && r.0.versions[u] == w.versions[u]
  {
    var t := NewTask(0, request.title.GetOr(""), request.description, request.status, request.priority,
                     request.dueDate, caller.id, now);
    var (tasks', saved) := TaskStore.Insert(w.tasks, t);
    (World(tasks', w.keys, CacheKey.Bump(w.versions, caller.username)), ToResponse(saved))
  }

  /** Records the created response under the key: refused by any record in the key's index
      slot as written, only by a live one when corrected. */
  function SaveIn(v: Variant, keys: Idempotency.Table, key: string, caller: Caller, request: Requests.TaskRequest,
                  response: TaskResponse, codec: Codec, ttlMinutes: int, now: Time): Result<Idempotency.Table, Error>
    requires Idempotency.Valid(keys)
  {
    if v.AsWritten? then
      Idempotency.SaveResponse(keys, key, caller.id, Endpoint, request, response, CreatedStatus,
                               codec.hash, codec.write, ttlMinutes, now)
    else
      Idempotency.SaveResponseOverExpired(keys, key, caller.id, Endpoint, request, response, CreatedStatus,
                                          codec.hash, codec.write, ttlMinutes, now)
  }

  predicate Keyless(key: Option<string>) {
    key.None? || IsBlank(key.value)
  }

  /** `createTask`. */
  function CreateTaskIn(v: Variant, w: World, caller: Caller, request: Requests.TaskRequest, key: Option<string>,
                        codec: Codec, ttlMinutes: int, now: Time): (r: (World, Result<Reply, Error>))
    requires Valid(w)
    ensures Valid(r.0)
    ensures TaskErrorsIn(v, request, now) != [] ==> r == (w, Failure(InvalidBody(TaskErrorsIn(v, request, now))))
    ensures TaskErrorsIn(v, request, now) == [] && Keyless(key) ==>
      && r.0.keys == w.keys
      && r.1.Success? && r.1.value.status == CreatedStatus
      && r.1.value.body.id !in w.tasks.rows
      && r.0.tasks.rows.Keys == w.tasks.rows.Keys + {r.1.value.body.id}
    ensures !Keyless(key) && r.1.Failure? && r.1.error.IdempotencyConflict? ==> r.0 == w
    ensures !Keyless(key) && r.0.tasks.rows.Keys != w.tasks.rows.Keys ==>
      Idempotency.GetStoredResponse(w.keys, key.value, caller.id, Endpoint, request, codec.hash, now) == Success(None)
    ensures r.0.tasks.rows.Keys == w.tasks.rows.Keys || exists id :: id !in w.tasks.rows && r.0.tasks.rows.Keys == w.tasks.rows.Keys + {id}
  {
    var errs := TaskErrorsIn(v, request, now);
    if errs != [] then (w, Failure(InvalidBody(errs)))
    else if Keyless(key) then
      var (w', created) := ServiceCreate(w, caller, request, now);
      (w', Success(Reply(CreatedStatus, created)))
    else
      match Idempotency.GetStoredResponse(w.keys, key.value, caller.id, Endpoint, request, codec.hash, now)
      case Failure(e) => (w, Failure(e))
      case Success(Some(stored)) =>
        (match codec.read(stored.responseBody)
         case None => (w, Failure(Unexpected(UnreadableReplayMessage)))
         case Some(body) => (w, Success(Reply(stored.responseStatus, body))))
      case Success(None) =>
        var (w', created) := ServiceCreate(w, caller, request, now);
        match SaveIn(v, w'.keys, key.value, caller, request, created, codec, ttlMinutes, now)
        case Failure(e) => (w', Failure(e))
        case Success(keys') => (w'.(keys := keys'), Success(Reply(CreatedStatus, created)))
  }

  function CreateTaskAsWritten(w: World, caller: Caller, request: Requests.TaskRequest, key: Option<string>,
                               codec: Codec, ttlMinutes: int, now: Time): (r: (World, Result<Reply, Error>))
    requires Valid(w)
    ensures Valid(r.0)
    ensures r == CreateTaskIn(AsWritten, w, caller, request, key, codec, ttlMinutes, now)
  {
    CreateTaskIn(AsWritten, w, caller, request, key, codec, ttlMinutes, now)
  }

  function CreateTask(w: World, caller: Caller, request: Requests.TaskRequest, key: Option<string>,
                      codec: Codec, ttlMinutes: int, now: Time): (r: (World, Result<Reply, Error>))
    requires Valid(w)
    ensures Valid(r.0)
    ensures r == CreateTaskIn(Corrected, w, caller, request, key, codec, ttlMinutes, now)
  {
    CreateTaskIn(Corrected, w, caller, request, key, codec, ttlMinutes, now)
  }

  // ---------------------------------------------------------------------------
  // The scenarios
  // ---------------------------------------------------------------------------

  // Unless they say otherwise, the scenarios hold for the code as written and for the
  // corrected code alike: a fresh key never meets an expired record.

  /** A stored hit is replayed with its status and body; no task is created and nothing is
      written. */
  lemma HitReplays(v: Variant, w: World, caller: Caller, request: Requests.TaskRequest, key: string,
                   codec: Codec, ttlMinutes: int, now: Time)
    requires Valid(w) && TaskErrorsIn(v, request, now) == [] && !Keyless(Some(key))
    requires Idempotency.GetStoredResponse(w.keys, key, caller.id, Endpoint, request, codec.hash, now).Success?
    requires Idempotency.GetStoredResponse(w.keys, key, caller.id, Endpoint, request, codec.hash, now).value.Some?
    ensures var stored := Idempotency.GetStoredResponse(w.keys, key, caller.id, Endpoint, request, codec.hash, now).value.value;
      && CreateTaskIn(v, w, caller, request, Some(key), codec, ttlMinutes, now).0 == w
      && (codec.read(stored.responseBody).Some? ==>
            CreateTaskIn(v, w, caller, request, Some(key), codec, ttlMinutes, now).1 ==
            Success(Reply(stored.responseStatus, codec.read(stored.responseBody).value)))
  {
  }

  /** What a miss does: the service creates the task, then the outcome is recorded; a
      refused record turns into that error although the task stays. */
  lemma MissStep(v: Variant, w: World, caller: Caller, request: Requests.TaskRequest, key: string,
                 codec: Codec, ttlMinutes: int, now: Time)
    requires Valid(w) && TaskErrorsIn(v, request, now) == [] && !Keyless(Some(key))
    requires Idempotency.GetStoredResponse(w.keys, key, caller.id, Endpoint, request, codec.hash, now) == Success(None)
    ensures var (w', created) := ServiceCreate(w, caller, request, now);
      var saved := SaveIn(v, w'.keys, key, caller, request, created, codec, ttlMinutes, now);
      CreateTaskIn(v, w, caller, request, Some(key), codec, ttlMinutes, now) ==
        if saved.Success? then (w'.(keys := saved.value), Success(Reply(CreatedStatus, created)))
        else (w', Failure(saved.error))
  {
  }

  /** A payload conflict is passed on and nothing changes. */
  lemma ConflictStep(v: Variant, w: World, caller: Caller, request: Requests.TaskRequest, key: string,
                     codec: Codec, ttlMinutes: int, now: Time)
    requires Valid(w) && TaskErrorsIn(v, request, now) == [] && !Keyless(Some(key))
    requires Idempotency.GetStoredResponse(w.keys, key, caller.id, Endpoint, request, codec.hash, now).Failure?
    ensures CreateTaskIn(v, w, caller, request, Some(key), codec, ttlMinutes, now) ==
            (w, Failure(Idempotency.GetStoredResponse(w.keys, key, caller.id, Endpoint, request, codec.hash, now).error))
  {
  }

  /** A miss creates exactly once and records the response under the same key, caller and
      endpoint with status 201, leaving every other record as it was. */
  lemma MissCreatesThenRecords(v: Variant, w: World, caller: Caller, request: Requests.TaskRequest, key: string,
                               codec: Codec, ttlMinutes: int, now: Time)
    requires Valid(w) && TaskErrorsIn(v, request, now) == [] && !Keyless(Some(key))
    requires Idempotency.IndexKey(key, caller.id) !in w.keys
    ensures var (w', r) := CreateTaskIn(v, w, caller, request, Some(key), codec, ttlMinutes, now);
      && r.Success? && r.value.status == CreatedStatus
      && w'.tasks.rows.Keys == w.tasks.rows.Keys + {r.value.body.id}
      && r.value.body.id !in w.tasks.rows
      && |w'.tasks.rows| == |w.tasks.rows| + 1
      && w'.keys.Keys == w.keys.Keys + {Idempotency.IndexKey(key, caller.id)}
      && w'.keys[Idempotency.IndexKey(key, caller.id)] ==
         Idempotency.NewRecord(key, caller.id, Endpoint, codec.hash(request), codec.write(r.value.body),
                               CreatedStatus, ttlMinutes, now)
      && (forall k :: k in w.keys ==> w'.keys[k] == w.keys[k])
  {
    assert Idempotency.Find(w.keys, key, caller.id, Endpoint).None?;
    MissStep(v, w, caller, request, key, codec, ttlMinutes, now);
    var (w', created) := ServiceCreate(w, caller, request, now);
    assert |w'.tasks.rows.Keys| == |w.tasks.rows.Keys| + 1;
  }

  /** The record a first request leaves behind is found by a second request with the same
      key until its deadline. */
  lemma RecordFoundLater(v: Variant, w: World, caller: Caller, request: Requests.TaskRequest, key: string,
                         codec: Codec, ttlMinutes: int, now: Time, later: Time)
    requires Valid(w) && TaskErrorsIn(v, request, now) == [] && !Keyless(Some(key))
    requires Idempotency.IndexKey(key, caller.id) !in w.keys
    requires now <= later <= now + ttlMinutes * MillisPerMinute
    ensures var (w1, r1) := CreateTaskIn(v, w, caller, request, Some(key), codec, ttlMinutes, now);
      var rec := Idempotency.NewRecord(key, caller.id, Endpoint, codec.hash(request), codec.write(r1.value.body),
                                       CreatedStatus, ttlMinutes, now);
      && r1.Success?
      && Idempotency.Find(w1.keys, key, caller.id, Endpoint) == Some(rec)
      && !Idempotency.IsExpired(rec, later)
  {
    MissCreatesThenRecords(v, w, caller, request, key, codec, ttlMinutes, now);
    var (w1, r1) := CreateTaskIn(v, w, caller, request, Some(key), codec, ttlMinutes, now);
    Idempotency.FindSlot(w1.keys, key, caller.id, Endpoint);
  }

  /** A repeated request with the same key and payload, before the record expires, returns
      the identical body, and there is still exactly one new task. */
  lemma DuplicateRequestReplays(v: Variant, w: World, caller: Caller, request: Requests.TaskRequest, key: string,
                                codec: Codec, ttlMinutes: int, now: Time, later: Time)
    requires Valid(w) && RoundTrips(codec) && TaskErrorsIn(v, request, now) == [] && !Keyless(Some(key))
    requires Idempotency.IndexKey(key, caller.id) !in w.keys
    requires TaskErrorsIn(v, request, later) == []
    requires now <= later <= now + ttlMinutes * MillisPerMinute
    ensures var (w1, r1) := CreateTaskIn(v, w, caller, request, Some(key), codec, ttlMinutes, now);
      var (w2, r2) := CreateTaskIn(v, w1, caller, request, Some(key), codec, ttlMinutes, later);
      && r1.Success? && r2 == r1
      && w2 == w1
      && |w2.tasks.rows| == |w.tasks.rows| + 1
  {
    MissCreatesThenRecords(v, w, caller, request, key, codec, ttlMinutes, now);
    RecordFoundLater(v, w, caller, request, key, codec, ttlMinutes, now, later);
    var (w1, r1) := CreateTaskIn(v, w, caller, request, Some(key), codec, ttlMinutes, now);
    var rec := Idempotency.NewRecord(key, caller.id, Endpoint, codec.hash(request), codec.write(r1.value.body),
                                     CreatedStatus, ttlMinutes, now);
    assert Idempotency.GetStoredResponse(w1.keys, key, caller.id, Endpoint, request, codec.hash, later) == Success(Some(rec));
    assert codec.read(rec.responseBody) == Some(r1.value.body);
    HitReplays(v, w1, caller, request, key, codec, ttlMinutes, later);
  }

  /** The same key with a payload of another hash is refused with 409 and creates nothing. */
  lemma MismatchedPayloadConflicts(v: Variant, w: World, caller: Caller, request: Requests.TaskRequest,
                                   other: Requests.TaskRequest, key: string, codec: Codec, ttlMinutes: int,
                                   now: Time, later: Time, description: string)
    requires Valid(w) && TaskErrorsIn(v, request, now) == [] && !Keyless(Some(key))
    requires Idempotency.IndexKey(key, caller.id) !in w.keys
    requires TaskErrorsIn(v, other, later) == [] && codec.hash(other) != codec.hash(request)
    requires now <= later <= now + ttlMinutes * MillisPerMinute
    ensures var (w1, r1) := CreateTaskIn(v, w, caller, request, Some(key), codec, ttlMinutes, now);
      var (w2, r2) := CreateTaskIn(v, w1, caller, other, Some(key), codec, ttlMinutes, later);
      && r2 == Failure(IdempotencyConflict(Idempotency.ReusedKeyMessage))
      && Handle(r2.error, description).status == 409
      && w2 == w1
  {
    RecordFoundLater(v, w, caller, request, key, codec, ttlMinutes, now, later);
    var (w1, r1) := CreateTaskIn(v, w, caller, request, Some(key), codec, ttlMinutes, now);
    var rec := Idempotency.NewRecord(key, caller.id, Endpoint, codec.hash(request), codec.write(r1.value.body),
                                     CreatedStatus, ttlMinutes, now);
    assert rec.requestHash != codec.hash(other);
    assert Idempotency.GetStoredResponse(w1.keys, key, caller.id, Endpoint, other, codec.hash, later).Failure?;
    ConflictStep(v, w1, caller, other, key, codec, ttlMinutes, later);
    var conflict := IdempotencyConflict(Idempotency.ReusedKeyMessage);
    assert CreateTaskIn(v, w1, caller, other, Some(key), codec, ttlMinutes, later) == (w1, Failure(conflict));
    StatusClasses(conflict, description);
  }

  /** Two different keys with the same payload create two tasks. */
  lemma DifferentKeysCreateTwo(v: Variant, w: World, caller: Caller, request: Requests.TaskRequest, key1: string, key2: string,
                               codec: Codec, ttlMinutes: int, now: Time)
    requires Valid(w) && TaskErrorsIn(v, request, now) == [] && !Keyless(Some(key1)) && !Keyless(Some(key2))
    requires key1 != key2
    requires Idempotency.IndexKey(key1, caller.id) !in w.keys && Idempotency.IndexKey(key2, caller.id) !in w.keys
    ensures var (w1, r1) := CreateTaskIn(v, w, caller, request, Some(key1), codec, ttlMinutes, now);
      var (w2, r2) := CreateTaskIn(v, w1, caller, request, Some(key2), codec, ttlMinutes, now);
      && r1.Success? && r2.Success?
      && |w2.tasks.rows| == |w.tasks.rows| + 2
  {
    MissCreatesThenRecords(v, w, caller, request, key1, codec, ttlMinutes, now);
    var (w1, r1) := CreateTaskIn(v, w, caller, request, Some(key1), codec, ttlMinutes, now);
    MissCreatesThenRecords(v, w1, caller, request, key2, codec, ttlMinutes, now);
  }

  /** Two requests without a key create two tasks. */
  lemma KeylessCreatesTwo(v: Variant, w: World, caller: Caller, request: Requests.TaskRequest, key1: Option<string>,
                          key2: Option<string>, codec: Codec, ttlMinutes: int, now: Time)
    requires Valid(w) && TaskErrorsIn(v, request, now) == [] && Keyless(key1) && Keyless(key2)
    ensures var (w1, r1) := CreateTaskIn(v, w, caller, request, key1, codec, ttlMinutes, now);
      var (w2, r2) := CreateTaskIn(v, w1, caller, request, key2, codec, ttlMinutes, now);
      && r1.Success? && r2.Success? && r1.value.body.id != r2.value.body.id
      && |w2.tasks.rows| == |w.tasks.rows| + 2
      && w2.keys == w.keys
  {
  }

  // ---------------------------------------------------------------------------
  // The expired record
  // ---------------------------------------------------------------------------

  /** As written: with an expired, unswept record under the key, the request is treated as
      new and a task is created, but recording the outcome hits the unique index and the
      caller receives a 500 although the task now exists. */
  lemma ExpiredKeyFailsAfterCreating(w: World, caller: Caller, request: Requests.TaskRequest, key: string,
                                     codec: Codec, ttlMinutes: int, now: Time, description: string)
    requires Valid(w) && Requests.TaskErrorsAsWritten(request, now) == [] && !Keyless(Some(key))
    requires Idempotency.Find(w.keys, key, caller.id, Endpoint).Some?
    requires Idempotency.IsExpired(Idempotency.Find(w.keys, key, caller.id, Endpoint).value, now)
    ensures var (w', r) := CreateTaskAsWritten(w, caller, request, Some(key), codec, ttlMinutes, now);
      && r.Failure? && Handle(r.error, description).status == 500
      && |w'.tasks.rows| == |w.tasks.rows| + 1
  {
    Idempotency.ExpiredIgnoresPayload(w.keys, key, caller.id, Endpoint, request, codec.hash, now);
    MissStep(AsWritten, w, caller, request, key, codec, ttlMinutes, now);
    var (w', created) := ServiceCreate(w, caller, request, now);
    assert Idempotency.IndexKey(key, caller.id) in w'.keys;
    var saved := SaveIn(AsWritten, w'.keys, key, caller, request, created, codec, ttlMinutes, now);
    assert saved == Failure(Unexpected(Idempotency.DuplicateIndexMessage));
    StatusClasses(saved.error, description);
    assert |w'.tasks.rows.Keys| == |w.tasks.rows.Keys| + 1;
  }

  /** Corrected: the same request creates the task, answers 201 and replaces the expired
      record, so a retry before the new deadline is replayed. */
  lemma ExpiredKeyIsReplaced(w: World, caller: Caller, request: Requests.TaskRequest, key: string,
                             codec: Codec, ttlMinutes: int, now: Time)
    requires Valid(w) && Requests.TaskErrors(request, now) == [] && !Keyless(Some(key))
    requires Idempotency.Find(w.keys, key, caller.id, Endpoint).Some?
    requires Idempotency.IsExpired(Idempotency.Find(w.keys, key, caller.id, Endpoint).value, now)
    requires ttlMinutes >= 0
    ensures var (w', r) := CreateTask(w, caller, request, Some(key), codec, ttlMinutes, now);
      && r.Success? && r.value.status == CreatedStatus
      && |w'.tasks.rows| == |w.tasks.rows| + 1
      && Idempotency.GetStoredResponse(w'.keys, key, caller.id, Endpoint, request, codec.hash, now).Success?
      && Idempotency.GetStoredResponse(w'.keys, key, caller.id, Endpoint, request, codec.hash, now).value.Some?
  {
    Idempotency.ExpiredIgnoresPayload(w.keys, key, caller.id, Endpoint, request, codec.hash, now);
    MissStep(Corrected, w, caller, request, key, codec, ttlMinutes, now);
    var (w1, created) := ServiceCreate(w, caller, request, now);
    assert |w1.tasks.rows.Keys| == |w.tasks.rows.Keys| + 1;
    var saved := SaveIn(Corrected, w1.keys, key, caller, request, created, codec, ttlMinutes, now);
    assert saved.Success?;
    Idempotency.FindSlot(saved.value, key, caller.id, Endpoint);
  }
}
