/** The task table with its `@Version` optimistic lock: a save carries the stamp the caller
    read, succeeds only if that stamp is still the stored one, and then advances the stamp
    by exactly one. The check-and-increment is one atomic step (`UPDATE ... WHERE version = ?`). */
module TaskStore {
  import opened Wrappers
  import opened Domain
  import opened Errors
  import opened Text

  /** The rows by id, and the next value of the identity column. */
  datatype Store = Store(rows: map<TaskId, Task>, nextId: TaskId)

  /** Every row sits under its own id, and every id in use is below the identity counter. */
  predicate Valid(s: Store) {
    forall id :: id in s.rows ==> s.rows[id].id == id && id < s.nextId
  }

  /** Persists a new task: the identity column assigns the id and the stamp starts at 0. */
  function Insert(s: Store, t: Task): (r: (Store, Task))
    requires Valid(s)
    ensures Valid(r.0)
    ensures r.1.id !in s.rows && r.1.id in r.0.rows && r.0.rows[r.1.id] == r.1
    ensures r.1 == t.(id := s.nextId, version := 0)
    ensures r.0.rows.Keys == s.rows.Keys + {r.1.id}
    ensures forall id :: id in s.rows ==> r.0.rows[id] == s.rows[id]
  {
    var saved := t.(id := s.nextId, version := 0);
    (Store(s.rows[saved.id := saved], s.nextId + 1), saved)
  }

  /** The error Hibernate raises when the versioned update matches no row. */
  function StaleRow(id: TaskId): Error {
    OptimisticLock("Row was updated or deleted by another transaction: [Task#" + IntToString(id) + "]")
  }

  /** Saves `t`, whose `version` is the stamp the caller read. */
  function CheckedSave(s: Store, t: Task): (r: Result<(Store, Task), Error>)
    requires Valid(s)
    ensures r.Success? <==> t.id in s.rows && s.rows[t.id].version == t.version
    ensures r.Failure? ==> r.error.OptimisticLock?
    ensures r.Success? ==>
              var (s', saved) := r.value;
              && Valid(s')
              && saved.version == t.version + 1
              && saved == t.(version := saved.version)
              && s'.rows.Keys == s.rows.Keys
              && s'.rows[t.id] == saved
              && (forall id :: id in s.rows && id != t.id ==> s'.rows[id] == s.rows[id])
  {
    if t.id in s.rows && s.rows[t.id].version == t.version then
      var saved := t.(version := t.version + 1);
      Success((s.(rows := s.rows[t.id := saved]), saved))
    else
      Failure(StaleRow(t.id))
  }

  /** A writer that re-reads the row, retitles it and saves it with the stamp it just read. */
  function FreshWrite(s: Store, id: TaskId, title: string): Result<(Store, Task), Error>
    requires Valid(s)
  {
    if id in s.rows then CheckedSave(s, s.rows[id].(title := title))
    else Failure(StaleRow(id))
  }

  /** A sequence of writers, each reading before it writes. */
  function WriteAll(s: Store, id: TaskId, titles: seq<string>): (r: Result<Store, Error>)
    requires Valid(s)
    ensures r.Success? ==> Valid(r.value)
    decreases |titles|
  {
    if |titles| == 0 then Success(s)
    else
      match FreshWrite(s, id, titles[0])
      case Failure(e) => Failure(e)
      case Success((s', _)) => WriteAll(s', id, titles[1..])
  }

  /** After N writes that each read first, all succeed and the stamp has advanced by N. */
  lemma {:induction false} StampCountsWrites(s: Store, id: TaskId, titles: seq<string>)
    requires Valid(s) && id in s.rows
    ensures WriteAll(s, id, titles).Success?
    ensures id in WriteAll(s, id, titles).value.rows
    ensures WriteAll(s, id, titles).value.rows[id].version == s.rows[id].version + |titles|
    decreases |titles|
  {
    if |titles| > 0 {
      var (s', _) := FreshWrite(s, id, titles[0]).value;
      StampCountsWrites(s', id, titles[1..]);
    }
  }

  /** A lost-update race: two copies read at the same stamp. The first save wins and moves
      the stamp to n+1; the second, still carrying n, fails and changes nothing. */
  lemma LostUpdateDetected(s: Store, a: Task, b: Task)
    requires Valid(s) && a.id == b.id && a.id in s.rows
    requires a.version == b.version == s.rows[a.id].version
    ensures CheckedSave(s, a).Success?
    ensures CheckedSave(s, a).value.0.rows[a.id].version == a.version + 1
    ensures CheckedSave(CheckedSave(s, a).value.0, b).Failure?
    ensures CheckedSave(CheckedSave(s, a).value.0, b).error.OptimisticLock?
  {
  }

  /** The worked example: create (stamp 0), save from stamp 0 (stamp 1), save again from
      the stale stamp 0 (conflict, stamp stays 1). */
  lemma CreateUpdateStaleUpdate(s: Store, t: Task, title1: string, title2: string)
    requires Valid(s)
    ensures var (s1, created) := Insert(s, t);
            && created.version == 0
            && CheckedSave(s1, created.(title := title1)).Success?
            && var s2 := CheckedSave(s1, created.(title := title1)).value.0;
               && s2.rows[created.id].version == 1
               && CheckedSave(s2, created.(title := title2)).Failure?
  {
  }
}
