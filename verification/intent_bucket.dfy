/** Intent buckets: named, per-user groupings of tasks. Names are unique per user; deleting
    a bucket detaches its tasks (each through the versioned save) before the bucket goes;
    the overview counts each bucket's tasks. */
module IntentBuckets {
  import opened Wrappers
  import opened Domain
  import opened Errors
  import opened Collections
  import TaskStore
  import TaskSpecification

  datatype Bucket = Bucket(
    id: BucketId,
    userId: UserId,
    name: string,
    description: Option<string>,
    color: Option<string>,
    createdAt: Time)

  datatype BucketStore = BucketStore(rows: map<BucketId, Bucket>, nextId: BucketId)

  /** No user has two buckets with the same name. */
  predicate UniqueNames(rows: map<BucketId, Bucket>) {
    forall a, b :: a in rows && b in rows && a != b && rows[a].userId == rows[b].userId ==>
                     rows[a].name != rows[b].name
  }

  predicate Valid(bs: BucketStore) {
    && (forall id :: id in bs.rows ==> bs.rows[id].id == id && id < bs.nextId)
    && UniqueNames(bs.rows)
  }

  datatype BucketRequest = BucketRequest(name: string, description: Option<string>, color: Option<string>)

  datatype BucketResponse = BucketResponse(
    id: BucketId, name: string, description: Option<string>, color: Option<string>, createdAt: Time)

  function ToBucketResponse(b: Bucket): BucketResponse {
    BucketResponse(b.id, b.name, b.description, b.color, b.createdAt)
  }

  function DuplicateNameMessage(name: string): string {
    "Intent bucket with name '" + name + "' already exists"
  }

  const NotFoundMessage := "Intent bucket not found or access denied"

  /** `existsByUserIdAndName`. */
  predicate NameTaken(bs: BucketStore, user: UserId, name: string) {
    exists id :: id in bs.rows && bs.rows[id].userId == user && bs.rows[id].name == name
  }

  /** `createIntent`: rejects a name the user already has; otherwise stores a new bucket
      owned by the user with the requested fields. */
  function CreateIntent(bs: BucketStore, user: UserId, request: BucketRequest, now: Time)
    : (r: Result<(BucketStore, Bucket), Error>)
    requires Valid(bs)
    ensures r.Failure? <==> NameTaken(bs, user, request.name)
    ensures r.Failure? ==> r.error == IllegalArgument(DuplicateNameMessage(request.name))
    ensures r.Success? ==>
              var (bs', b) := r.value;
              && Valid(bs')
              && b.id !in bs.rows && bs'.rows == bs.rows[b.id := b]
              && b.userId == user && b.name == request.name
              && b.description == request.description && b.color == request.color
              && b.createdAt == now
  {
    if NameTaken(bs, user, request.name) then
      Failure(IllegalArgument(DuplicateNameMessage(request.name)))
    else
      var b := Bucket(bs.nextId, user, request.name, request.description, request.color, now);
      Success((BucketStore(bs.rows[b.id := b], bs.nextId + 1), b))
  }

  /** `getAllIntents`: the caller's buckets (list order is the database's; a set here). */
  function GetAllIntents(bs: BucketStore, user: UserId): set<BucketResponse> {
    set id | id in bs.rows && bs.rows[id].userId == user :: ToBucketResponse(bs.rows[id])
  }

  /** A created bucket shows up in its owner's list and in nobody else's: every other
      user's list is unchanged. */
  lemma CreateThenList(bs: BucketStore, user: UserId, request: BucketRequest, now: Time, other: UserId)
    requires Valid(bs) && CreateIntent(bs, user, request, now).Success?
    requires other != user
    ensures var (bs', b) := CreateIntent(bs, user, request, now).value;
            && ToBucketResponse(b) in GetAllIntents(bs', user)
            && GetAllIntents(bs', user) == GetAllIntents(bs, user) + {ToBucketResponse(b)}
            && GetAllIntents(bs', other) == GetAllIntents(bs, other)
  {
    var (bs', b) := CreateIntent(bs, user, request, now).value;
    assert bs'.rows[b.id] == b;
    forall u, x | x in GetAllIntents(bs', u)
      ensures x in GetAllIntents(bs, u) || (u == user && x == ToBucketResponse(b))
    {
      var j :| j in bs'.rows && bs'.rows[j].userId == u && x == ToBucketResponse(bs'.rows[j]);
      if j != b.id {
        assert j in bs.rows && bs'.rows[j] == bs.rows[j];
      }
    }
    forall u, x | x in GetAllIntents(bs, u) ensures x in GetAllIntents(bs', u) {
      var j :| j in bs.rows && bs.rows[j].userId == u && x == ToBucketResponse(bs.rows[j]);
      assert j in bs'.rows && bs'.rows[j] == bs.rows[j];
    }
  }

  /** Creating the same name twice for one user fails the second time; another user may
      reuse the name. */
  lemma SecondCreateWithSameNameFails(bs: BucketStore, user: UserId, other: UserId, request: BucketRequest,
                                      now: Time)
    requires Valid(bs) && CreateIntent(bs, user, request, now).Success?
    requires other != user && !NameTaken(bs, other, request.name)
    ensures var bs' := CreateIntent(bs, user, request, now).value.0;
            && CreateIntent(bs', user, request, now).Failure?
            && CreateIntent(bs', other, request, now).Success?
  {
    var (bs', b) := CreateIntent(bs, user, request, now).value;
    assert bs'.rows[b.id] == b;
  }

  // ---------------------------------------------------------------------------
  // Deleting a bucket
  // ---------------------------------------------------------------------------

  /** Every task that references the bucket loses the reference; each such row goes
      through the versioned save, so its stamp advances by one. Other rows are untouched. */
  function Detach(s: TaskStore.Store, id: BucketId): (s': TaskStore.Store)
    requires TaskStore.Valid(s)
    ensures TaskStore.Valid(s') && s'.nextId == s.nextId && s'.rows.Keys == s.rows.Keys
    ensures forall k :: k in s'.rows ==> s'.rows[k].intentBucket != Some(id)
  {
    TaskStore.Store(
      map k | k in s.rows ::
        if s.rows[k].intentBucket == Some(id)
        then s.rows[k].(intentBucket := None, version := s.rows[k].version + 1)
        else s.rows[k],
      s.nextId)
  }

  /** Each detached row is exactly what a fresh read followed by the versioned save
      produces, and each untouched row is unchanged. */
  lemma DetachIsCheckedSave(s: TaskStore.Store, id: BucketId, k: TaskId)
    requires TaskStore.Valid(s) && k in s.rows
    ensures s.rows[k].intentBucket == Some(id) ==>
              var saved := TaskStore.CheckedSave(s, s.rows[k].(intentBucket := None));
              saved.Success? && Detach(s, id).rows[k] == saved.value.1
    ensures s.rows[k].intentBucket != Some(id) ==> Detach(s, id).rows[k] == s.rows[k]
  {
  }

  /** `deleteIntent`: a missing or foreign bucket is an error and changes nothing;
      otherwise the tasks are detached and the bucket removed. */
  function DeleteIntent(bs: BucketStore, s: TaskStore.Store, user: UserId, id: BucketId)
    : (r: Result<(BucketStore, TaskStore.Store), Error>)
    requires Valid(bs) && TaskStore.Valid(s)
    ensures r.Failure? <==> !(id in bs.rows && bs.rows[id].userId == user)
    ensures r.Failure? ==> r.error == IllegalArgument(NotFoundMessage)
    ensures r.Success? ==>
              var (bs', s') := r.value;
              && Valid(bs')
              && bs'.rows == bs.rows - {id}
              && s'.rows.Keys == s.rows.Keys
              && (forall k :: k in s.rows && s.rows[k].intentBucket == Some(id) ==>
                    s'.rows[k] == s.rows[k].(intentBucket := None, version := s.rows[k].version + 1))
              && (forall k :: k in s.rows && s.rows[k].intentBucket != Some(id) ==> s'.rows[k] == s.rows[k])
  {
    if id in bs.rows && bs.rows[id].userId == user then
      Success((bs.(rows := bs.rows - {id}), Detach(s, id)))
    else
      Failure(IllegalArgument(NotFoundMessage))
  }

  /** After a delete no task references the bucket and it is gone from its owner's list. */
  lemma DeleteLeavesNoReference(bs: BucketStore, s: TaskStore.Store, user: UserId, id: BucketId)
    requires Valid(bs) && TaskStore.Valid(s) && DeleteIntent(bs, s, user, id).Success?
    ensures var (bs', s') := DeleteIntent(bs, s, user, id).value;
            && (forall k :: k in s'.rows ==> s'.rows[k].intentBucket != Some(id))
            && ToBucketResponse(bs.rows[id]) !in GetAllIntents(bs', user)
  {
  }

  // ---------------------------------------------------------------------------
  // The overview
  // ---------------------------------------------------------------------------

  /** One bucket's counts. `focusCount` is how many of the focus page's tasks sit in the
      bucket. */
  datatype Insight = Insight(id: BucketId, name: string, total: nat, completed: nat, stagnant: nat, focusCount: nat)

  /** Owned by the user, not deleted, and in the bucket. */
  predicate InBucket(user: UserId, bid: BucketId, t: Task) {
    TaskSpecification.WithOwner(Some(user), t) && TaskSpecification.IsNotDeleted(t)
    && TaskSpecification.WithIntent(Some(bid), t)
  }

  predicate CompletedIn(user: UserId, bid: BucketId, t: Task) {
    InBucket(user, bid, t) && TaskSpecification.WithStatus(Some(COMPLETED), t)
  }

  /** The stagnant thresholds are two, three and seven days before now. */
  predicate StagnantIn(user: UserId, bid: BucketId, now: Time, t: Task) {
    InBucket(user, bid, t) && TaskSpecification.IsNotStatus(Some(COMPLETED), t)
    && TaskSpecification.IsStagnant(now, MinusDays(now, 2), MinusDays(now, 3), MinusDays(now, 7), t)
  }

  /** The focus selection: the user's tasks that are not deleted and whose status is set
      and not COMPLETED. */
  predicate FocusCandidate(user: UserId, t: Task) {
    TaskSpecification.IsNotDeleted(t) && TaskSpecification.WithOwner(Some(user), t)
    && TaskSpecification.IsNotStatus(Some(COMPLETED), t)
  }

  // The rows each `count` query counts.

  function BucketRows(rows: map<TaskId, Task>, user: UserId, bid: BucketId): set<TaskId> {
    set k | k in rows && InBucket(user, bid, rows[k])
  }

  function CompletedRows(rows: map<TaskId, Task>, user: UserId, bid: BucketId): set<TaskId> {
    set k | k in rows && CompletedIn(user, bid, rows[k])
  }

  function StagnantRows(rows: map<TaskId, Task>, user: UserId, bid: BucketId, now: Time): set<TaskId> {
    set k | k in rows && StagnantIn(user, bid, now, rows[k])
  }

  /** Completed and stagnant rows are rows of the bucket, and no row is both. */
  lemma CountsNest(rows: map<TaskId, Task>, user: UserId, bid: BucketId, now: Time)
    ensures CompletedRows(rows, user, bid) <= BucketRows(rows, user, bid)
    ensures StagnantRows(rows, user, bid, now) <= BucketRows(rows, user, bid)
    ensures CompletedRows(rows, user, bid) * StagnantRows(rows, user, bid, now) == {}
  {
    forall k | k in CompletedRows(rows, user, bid) ensures k in BucketRows(rows, user, bid) {
      assert CompletedIn(user, bid, rows[k]);
    }
    forall k | k in StagnantRows(rows, user, bid, now) ensures k in BucketRows(rows, user, bid) {
      assert StagnantIn(user, bid, now, rows[k]);
    }
    forall k | k in CompletedRows(rows, user, bid) ensures k !in StagnantRows(rows, user, bid, now) {
      assert CompletedIn(user, bid, rows[k]);
    }
  }

  /** The first page (size 5) of the focus selection, walking `ranked` (the database's
      order of the rows) and keeping candidates. */
  function FocusPage(rows: map<TaskId, Task>, user: UserId, ranked: seq<TaskId>, room: nat): (page: seq<Task>)
    ensures |page| <= room
    ensures forall t :: t in page ==> t in rows.Values && FocusCandidate(user, t)
    ensures |page| == room ||
      forall i :: 0 <= i < |ranked| && ranked[i] in rows && FocusCandidate(user, rows[ranked[i]]) ==> rows[ranked[i]] in page
  {
    if room == 0 || |ranked| == 0 then []
    else
      var rest := FocusPage(rows, user, ranked[1..], if ranked[0] in rows && FocusCandidate(user, rows[ranked[0]]) then room - 1 else room);
      assert forall i :: 1 <= i < |ranked| ==> ranked[i] == ranked[1..][i - 1];
      if ranked[0] in rows && FocusCandidate(user, rows[ranked[0]]) then [rows[ranked[0]]] + rest
      else rest
  }

  const FocusPageSize := 5

  /** How many tasks of `page` sit in bucket `bid`. */
  function CountInBucket(page: seq<Task>, bid: BucketId): (n: nat)
    ensures n <= |page|
  {
    if |page| == 0 then 0
    else (if page[0].intentBucket == Some(bid) then 1 else 0) + CountInBucket(page[1..], bid)
  }

  function InsightFor(b: Bucket, s: TaskStore.Store, user: UserId, now: Time, page: seq<Task>): (i: Insight)
    ensures i.id == b.id && i.name == b.name
    ensures i.completed <= i.total
    ensures i.completed + i.stagnant <= i.total
    ensures i.focusCount <= |page|
  {
    var all := BucketRows(s.rows, user, b.id);
    var completed := CompletedRows(s.rows, user, b.id);
    var stagnant := StagnantRows(s.rows, user, b.id, now);
    CountsNest(s.rows, user, b.id, now);
    DisjointSubsetsCard(completed, stagnant, all);
    Insight(b.id, b.name, |all|, |completed|, |stagnant|, CountInBucket(page, b.id))
  }

  /** `getOverview`: one insight per bucket of the user. */
  function GetOverview(bs: BucketStore, s: TaskStore.Store, user: UserId, now: Time, ranked: seq<TaskId>)
    : (r: map<BucketId, Insight>)
    ensures forall id :: id in r <==> id in bs.rows && bs.rows[id].userId == user
    ensures forall id :: id in r ==>
              && r[id].id == bs.rows[id].id && r[id].name == bs.rows[id].name
              && r[id].completed <= r[id].total
              && r[id].completed + r[id].stagnant <= r[id].total
              && r[id].focusCount <= FocusPageSize
  {
    var page := FocusPage(s.rows, user, ranked, FocusPageSize);
    var m := map id | id in bs.rows && bs.rows[id].userId == user :: InsightFor(bs.rows[id], s, user, now, page);
    forall id | id in m
      ensures m[id].completed + m[id].stagnant <= m[id].total && m[id].focusCount <= FocusPageSize
    {
      assert m[id] == InsightFor(bs.rows[id], s, user, now, page);
    }
    m
  }

  /** Counts only see the user's own tasks: changing a task of another user leaves every
      insight as it was. */
  lemma OverviewIgnoresOtherUsersTasks(bs: BucketStore, s: TaskStore.Store, user: UserId, now: Time,
                                       ranked: seq<TaskId>, t: Task)
    requires TaskStore.Valid(s) && t.id in s.rows && s.rows[t.id].owner != user && t.owner != user
    ensures GetOverview(bs, s, user, now, ranked) ==
            GetOverview(bs, s.(rows := s.rows[t.id := t]), user, now, ranked)
  {
    var s' := s.(rows := s.rows[t.id := t]);
    FocusPageIgnoresOtherUsers(s.rows, user, ranked, FocusPageSize, t);
    forall id | id in bs.rows && bs.rows[id].userId == user
      ensures InsightFor(bs.rows[id], s, user, now, FocusPage(s.rows, user, ranked, FocusPageSize))
              == InsightFor(bs.rows[id], s', user, now, FocusPage(s'.rows, user, ranked, FocusPageSize))
    {
      var bid := bs.rows[id].id;
      assert BucketRows(s.rows, user, bid) == BucketRows(s'.rows, user, bid);
      assert CompletedRows(s.rows, user, bid) == CompletedRows(s'.rows, user, bid);
      assert StagnantRows(s.rows, user, bid, now) == StagnantRows(s'.rows, user, bid, now);
    }
  }

  lemma {:induction false} FocusPageIgnoresOtherUsers(rows: map<TaskId, Task>, user: UserId, ranked: seq<TaskId>,
                                                       room: nat, t: Task)
    requires t.id in rows && rows[t.id].owner != user && t.owner != user
    ensures FocusPage(rows, user, ranked, room) == FocusPage(rows[t.id := t], user, ranked, room)
    decreases |ranked|
  {
    if room > 0 && |ranked| > 0 {
      if ranked[0] in rows && FocusCandidate(user, rows[ranked[0]]) {
        FocusPageIgnoresOtherUsers(rows, user, ranked[1..], room - 1, t);
      } else {
        FocusPageIgnoresOtherUsers(rows, user, ranked[1..], room, t);
      }
    }
  }
}
