/** Idempotency records: the stored outcome of a create request under a client-supplied
    key, the table that holds them (its unique index covers only the key and the user),
    the repository's lookup and expiry sweep, and the service that checks, replays and
    saves outcomes. Hashing (SHA-256 over the request's JSON) and JSON serialisation are
    deterministic functions passed in as parameters. */
module Idempotency {
  import opened Wrappers
  import opened Domain
  import opened Errors

  /** `app.idempotency.ttl-minutes` when not configured. */
  const DefaultTtlMinutes: int := 1440

  const ReusedKeyMessage := "Idempotency key reused with a different request payload."
  const DuplicateIndexMessage := "could not execute statement: unique index idx_idempotency_key_user violated"

  /** One stored outcome. */
  datatype Record = Record(
    key: string,
    userId: UserId,
    endpoint: string,
    requestHash: string,
    responseBody: string,
    responseStatus: int,
    createdAt: Time,
    expiresAt: Time)

  /** The seven-argument constructor: fields copied, created now, expiring `ttlMinutes` later. */
  function NewRecord(key: string, userId: UserId, endpoint: string, requestHash: string,
                     responseBody: string, responseStatus: int, ttlMinutes: int, now: Time): (r: Record)
    ensures r.key == key && r.userId == userId && r.endpoint == endpoint
    ensures r.requestHash == requestHash && r.responseBody == responseBody
    ensures r.responseStatus == responseStatus
    ensures r.createdAt == now && r.expiresAt - r.createdAt == ttlMinutes * MillisPerMinute
    ensures ttlMinutes >= 0 ==> r.createdAt <= r.expiresAt
  {
    Record(key, userId, endpoint, requestHash, responseBody, responseStatus, now, now + ttlMinutes * MillisPerMinute)
  }

  /** `isExpired()`: strictly after the deadline; at the deadline itself the record is live. */
  predicate IsExpired(r: Record, now: Time) {
    now > r.expiresAt
  }

  /** A record is live exactly up to and including its deadline. */
  lemma ExpiryBoundary(r: Record, now: Time)
    ensures !IsExpired(r, r.expiresAt)
    ensures IsExpired(r, now) <==> now >= r.expiresAt + 1
  {
  }

  // ---------------------------------------------------------------------------
  // The table
  // ---------------------------------------------------------------------------

  /** The columns of the unique index `idx_idempotency_key_user`: key and user, not endpoint. */
  datatype IndexKey = IndexKey(key: string, userId: UserId)

  /** At most one row per index key, so the table is a map on it. */
  type Table = map<IndexKey, Record>

  predicate Valid(t: Table) {
    forall k :: k in t ==> t[k].key == k.key && t[k].userId == k.userId
  }

  function IndexOf(r: Record): IndexKey {
    IndexKey(r.key, r.userId)
  }

  /** `findByIdempotencyKeyAndUserIdAndEndpoint`: a row matching all three columns. */
  function Find(t: Table, key: string, userId: UserId, endpoint: string): (r: Option<Record>)
    requires Valid(t)
    ensures r.Some? ==> r.value in t.Values && r.value.key == key && r.value.userId == userId
                        && r.value.endpoint == endpoint
    ensures r.None? <==> forall k :: k in t ==> !(t[k].key == key && t[k].userId == userId && t[k].endpoint == endpoint)
  {
    var k := IndexKey(key, userId);
    if k in t && t[k].endpoint == endpoint then Some(t[k]) else None
  }

  /** The lookup finds whatever occupies the key's index slot, provided it was written for
      the same endpoint. */
  lemma FindSlot(t: Table, key: string, userId: UserId, endpoint: string)
    requires Valid(t) && IndexKey(key, userId) in t && t[IndexKey(key, userId)].endpoint == endpoint
    ensures Find(t, key, userId, endpoint) == Some(t[IndexKey(key, userId)])
  {
  }

  /** `save` of a new row: rejected by the unique index when the key and user are taken. */
  function Insert(t: Table, r: Record): (res: Result<Table, Error>)
    requires Valid(t)
    ensures res.Success? <==> IndexOf(r) !in t
    ensures res.Success? ==> Valid(res.value) && res.value == t[IndexOf(r) := r]
    ensures res.Failure? ==> res.error.Unexpected?
  {
    if IndexOf(r) in t then Failure(Unexpected(DuplicateIndexMessage)) else Success(t[IndexOf(r) := r])
  }

  /** `deleteExpiredKeys(now)`: `DELETE ... WHERE expiresAt < now`. */
  function DeleteExpiredKeys(t: Table, now: Time): (r: Table)
    ensures forall k :: k in r <==> k in t && !(t[k].expiresAt < now)
    ensures forall k :: k in r ==> r[k] == t[k]
  {
    map k | k in t && t[k].expiresAt >= now :: t[k]
  }

  /** The sweep's criterion and `isExpired` agree: what survives is not expired, and what
      is removed is. */
  lemma SweepMatchesExpiry(t: Table, now: Time)
    ensures forall k :: k in DeleteExpiredKeys(t, now) ==> !IsExpired(DeleteExpiredKeys(t, now)[k], now)
    ensures forall k :: k in t && k !in DeleteExpiredKeys(t, now) ==> IsExpired(t[k], now)
  {
  }

  /** Sweeping twice at the same instant removes nothing more. */
  lemma SweepIdempotent(t: Table, now: Time)
    ensures DeleteExpiredKeys(DeleteExpiredKeys(t, now), now) == DeleteExpiredKeys(t, now)
  {
  }

  /** The sweep keeps the table well formed. */
  lemma SweepPreservesValid(t: Table, now: Time)
    requires Valid(t)
    ensures Valid(DeleteExpiredKeys(t, now))
  {
  }

  // ---------------------------------------------------------------------------
  // The service
  // ---------------------------------------------------------------------------

  /** `getStoredResponse`: the stored record to replay, nothing when the request must run,
      or the reuse error. The table is only read. */
  function GetStoredResponse<Req>(t: Table, key: string, userId: UserId, endpoint: string, body: Req,
                                  hash: Req -> string, now: Time): (r: Result<Option<Record>, Error>)
    requires Valid(t)
    ensures Find(t, key, userId, endpoint).None? ==> r == Success(None)
    ensures r.Success? && r.value.Some? ==>
              && Find(t, key, userId, endpoint) == r.value
              && !IsExpired(r.value.value, now)
              && r.value.value.requestHash == hash(body)
    ensures r.Failure? <==>
              && Find(t, key, userId, endpoint).Some?
              && !IsExpired(Find(t, key, userId, endpoint).value, now)
              && Find(t, key, userId, endpoint).value.requestHash != hash(body)
    ensures r.Failure? ==> r.error == IdempotencyConflict(ReusedKeyMessage)
  {
    match Find(t, key, userId, endpoint)
    case None => Success(None)
    case Some(stored) =>
      if IsExpired(stored, now) then Success(None)
      else if stored.requestHash != hash(body) then Failure(IdempotencyConflict(ReusedKeyMessage))
      else Success(Some(stored))
  }

  /** Expiry is tested before the hash: an expired record is ignored whatever the payload. */
  lemma ExpiredIgnoresPayload<Req>(t: Table, key: string, userId: UserId, endpoint: string, body: Req,
                                   hash: Req -> string, now: Time)
    requires Valid(t)
    requires Find(t, key, userId, endpoint).Some? && IsExpired(Find(t, key, userId, endpoint).value, now)
    ensures GetStoredResponse(t, key, userId, endpoint, body, hash, now) == Success(None)
  {
  }

  /** `saveResponse`: stores the request's hash, the serialised response and the status
      under a new record expiring `ttlMinutes` from now. */
  function SaveResponse<Req, Resp>(t: Table, key: string, userId: UserId, endpoint: string, body: Req,
                                   response: Resp, status: int, hash: Req -> string, write: Resp -> string,
                                   ttlMinutes: int, now: Time): (r: Result<Table, Error>)
    requires Valid(t)
    ensures r.Success? <==> IndexKey(key, userId) !in t
    ensures r.Success? ==>
              && Valid(r.value)
              && IndexKey(key, userId) in r.value
              && r.value[IndexKey(key, userId)] ==
                 NewRecord(key, userId, endpoint, hash(body), write(response), status, ttlMinutes, now)
              && r.value.Keys == t.Keys + {IndexKey(key, userId)}
              && (forall k :: k in t ==> r.value[k] == t[k])
    ensures r.Failure? ==> r.error == Unexpected(DuplicateIndexMessage)
  {
    Insert(t, NewRecord(key, userId, endpoint, hash(body), write(response), status, ttlMinutes, now))
  }

  /** `cleanupExpiredKeys`: the sweep run at the current time. */
  function CleanupExpiredKeys(t: Table, now: Time): (r: Table)
    requires Valid(t)
    ensures Valid(r)
    ensures forall k :: k in r ==> k in t && r[k] == t[k] && !IsExpired(r[k], now)
    ensures forall k :: k in t && !IsExpired(t[k], now) ==> k in r
  {
    DeleteExpiredKeys(t, now)
  }

  /** Round trip: after a save, a lookup with the same key, user, endpoint and payload at
      any time up to the deadline returns the saved record. */
  lemma SaveThenLookup<Req, Resp>(t: Table, key: string, userId: UserId, endpoint: string, body: Req,
                                  response: Resp, status: int, hash: Req -> string, write: Resp -> string,
                                  ttlMinutes: int, now: Time, later: Time)
    requires Valid(t) && IndexKey(key, userId) !in t
    requires now <= later <= now + ttlMinutes * MillisPerMinute
    ensures var t' := SaveResponse(t, key, userId, endpoint, body, response, status, hash, write, ttlMinutes, now).value;
            var rec := NewRecord(key, userId, endpoint, hash(body), write(response), status, ttlMinutes, now);
            GetStoredResponse(t', key, userId, endpoint, body, hash, later) == Success(Some(rec))
  {
  }

  /** After a save, the same key with a payload of another hash is rejected until the deadline. */
  lemma SaveThenMismatch<Req, Resp>(t: Table, key: string, userId: UserId, endpoint: string, body: Req,
                                    other: Req, response: Resp, status: int, hash: Req -> string,
                                    write: Resp -> string, ttlMinutes: int, now: Time, later: Time)
    requires Valid(t) && IndexKey(key, userId) !in t
    requires hash(other) != hash(body)
    requires now <= later <= now + ttlMinutes * MillisPerMinute
    ensures var t' := SaveResponse(t, key, userId, endpoint, body, response, status, hash, write, ttlMinutes, now).value;
            GetStoredResponse(t', key, userId, endpoint, other, hash, later) == Failure(IdempotencyConflict(ReusedKeyMessage))
  {
  }

  // ---------------------------------------------------------------------------
  // Saving over an expired record
  // ---------------------------------------------------------------------------

  /** An expired record that the sweep has not yet removed still occupies its index slot:
      the lookup reports a miss, yet the save that follows is refused by the index. */
  lemma ExpiredRecordBlocksSave<Req, Resp>(t: Table, key: string, userId: UserId, endpoint: string,
                                           body: Req, response: Resp, hash: Req -> string,
                                           write: Resp -> string, ttlMinutes: int, now: Time)
    requires Valid(t)
    requires Find(t, key, userId, endpoint).Some? && IsExpired(Find(t, key, userId, endpoint).value, now)
    ensures GetStoredResponse(t, key, userId, endpoint, body, hash, now) == Success(None)
    ensures SaveResponse(t, key, userId, endpoint, body, response, 201, hash, write, ttlMinutes, now).Failure?
  {
  }

  /** The save the lookup's "expired means absent" rule calls for: a new record may take the
      slot of an expired one; only a live record under the same key and user refuses it. */
  function SaveResponseOverExpired<Req, Resp>(t: Table, key: string, userId: UserId, endpoint: string,
                                              body: Req, response: Resp, status: int, hash: Req -> string,
                                              write: Resp -> string, ttlMinutes: int, now: Time): (r: Result<Table, Error>)
    requires Valid(t)
    ensures r.Success? <==> IndexKey(key, userId) !in t || IsExpired(t[IndexKey(key, userId)], now)
    ensures r.Success? ==>
              && Valid(r.value)
              && r.value.Keys == t.Keys + {IndexKey(key, userId)}
              && r.value[IndexKey(key, userId)] ==
                 NewRecord(key, userId, endpoint, hash(body), write(response), status, ttlMinutes, now)
              && (forall k :: k in t && k != IndexKey(key, userId) ==> r.value[k] == t[k])
    ensures r.Failure? ==> r.error == Unexpected(DuplicateIndexMessage)
  {
    var k := IndexKey(key, userId);
    if k in t && !IsExpired(t[k], now) then Failure(Unexpected(DuplicateIndexMessage))
    else Success(t[k := NewRecord(key, userId, endpoint, hash(body), write(response), status, ttlMinutes, now)])
  }

  /** Every record was written for one endpoint. */
  predicate SingleEndpoint(t: Table, endpoint: string) {
    forall k :: k in t ==> t[k].endpoint == endpoint
  }

  /** With a single endpoint, a miss is always followed by a successful save, and a lookup
      up to the new deadline replays what was saved. */
  lemma MissThenSaveOverExpired<Req, Resp>(t: Table, key: string, userId: UserId, endpoint: string,
                                           body: Req, response: Resp, status: int, hash: Req -> string,
                                           write: Resp -> string, ttlMinutes: int, now: Time, later: Time)
    requires Valid(t) && SingleEndpoint(t, endpoint)
    requires GetStoredResponse(t, key, userId, endpoint, body, hash, now) == Success(None)
    requires now <= later <= now + ttlMinutes * MillisPerMinute
    ensures SaveResponseOverExpired(t, key, userId, endpoint, body, response, status, hash, write, ttlMinutes, now).Success?
    ensures var t' := SaveResponseOverExpired(t, key, userId, endpoint, body, response, status, hash, write, ttlMinutes, now).value;
            && SingleEndpoint(t', endpoint)
            && GetStoredResponse(t', key, userId, endpoint, body, hash, later) ==
               Success(Some(NewRecord(key, userId, endpoint, hash(body), write(response), status, ttlMinutes, now)))
  {
  }
}
