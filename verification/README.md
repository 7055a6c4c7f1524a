# Taskify core in Dafny

Taskify is a Spring backend for tracking tasks. This project models the rules under its
annotations as pure functions over immutable records and maps. Each store is a map: tasks,
idempotency records, daily intents, intent buckets, users and refresh tokens, rate-limit
buckets, and the per-user list-cache versions. Every operation returns a new state together
with a `Result`. Time is passed in as integer milliseconds, and a calendar day is
`t / 86 400 000`.

The modules follow the program's layers:

| file | module | models |
|---|---|---|
| wrappers.dfy | `Wrappers` | `Option`, `Result` |
| text.dfy | `Text` | the Java string operations the rules use: `isBlank`, `trim`, `toLowerCase`, UTF-16 length, `contains`, decimal formatting, `join` |
| errors.dfy | `Errors` | `GlobalExceptionHandler`: error kind to (status, label, message, path) |
| domain.dfy | `Domain` | `Task`, `Status`, `Priority`, `TaskResponse`, days |
| task_store.dfy | `TaskStore` | the task table, with the `@Version` optimistic-lock stamp |
| idempotency.dfy | `Idempotency` | `IdempotencyKey`, its repository, and `IdempotencyServiceImpl` |
| task_controller.dfy | `TaskController` | the idempotent `POST /api/v1/tasks` |
| cache_key.dfy | `CacheKey` | `TaskCacheKeyGenerator` and the per-user version bump |
| task_specification.dfy | `TaskSpecification` | the query predicates |
| task_explanation.dfy | `TaskExplanation` | the focus and stagnant explanation texts |
| daily_check_in.dfy | `DailyCheckIn` | `DailyCheckInServiceImpl` and `DailyIntent` |
| intent_bucket.dfy | `IntentBuckets` | `IntentBucketServiceImpl` |
| rate_limit.dfy | `RateLimit` | `RateLimitFilter` and `RateLimitService` |
| auth.dfy | `Auth` | `AuthServiceImpl` and `RefreshTokenServiceImpl` |
| requests.dfy | `Requests` | the bean-validation constraints on the three request bodies |
| collections.dfy | `Collections` | set and sequence facts used by the proofs |

Some things the program gets from elsewhere are parameters of the model:
- the request hash (SHA-256 over the JSON);
- the JSON writer and reader;
- the password encoder;
- the JWT minter;
- the UUID;
- the authentication manager's verdict;
- the clock.

## Model

Source paths are relative to the repository root.

| member | source | states |
|---|---|---|
| Domain.NewTask | src/main/java/com/taskify/taskify/model/Task.java:44-53 | A new task copies title, description, status, due date and owner unchanged. A missing priority becomes MEDIUM. The task is not deleted, is created and last modified now, and starts at stamp 0. |
| TaskStore.Insert | src/main/java/com/taskify/taskify/model/Task.java:36-37 | A persisted task gets an id not used before and stamp 0. Exactly one row is added and every other row is kept. |
| TaskStore.CheckedSave | src/main/java/com/taskify/taskify/model/Task.java:36-37 | A save succeeds exactly when the row exists with the stamp the caller read. It then stores the task with the stamp raised by one and touches no other row. Otherwise it fails with an optimistic-lock error. |
| TaskStore.StampCountsWrites | src/main/java/com/taskify/taskify/model/Task.java:36-37 | n successive read-then-save writes all succeed and raise the stamp by exactly n. |
| TaskStore.LostUpdateDetected | src/test/java/com/taskify/taskify/task/TaskConcurrencyIntegrationTest.java:117-134 | Two saves are made from the same read. The first succeeds and moves the stamp on by one. The second fails with an optimistic-lock error. |
| TaskStore.CreateUpdateStaleUpdate | src/test/java/com/taskify/taskify/task/TaskConcurrencyIntegrationTest.java:117-134 | A created task has stamp 0. An update from that copy gives stamp 1. A second update from the same stale copy is refused. |
| Errors.Handle | src/main/java/com/taskify/taskify/exception/GlobalExceptionHandler.java:32-186 | Every error body carries the request path and a status between 400 and 500. |
| Errors.StatusClasses | src/main/java/com/taskify/taskify/exception/GlobalExceptionHandler.java:32-186 | Each status is produced by exactly these kinds: 404 not found; 400 bad argument or validation; 401 credentials or token; 403 access; 429 rate limit; 409 optimistic lock or idempotency; 500 everything else. |
| Errors.ConflictKindsDistinguishable | src/main/java/com/taskify/taskify/exception/GlobalExceptionHandler.java:150-173 | Both conflict kinds answer 409. The optimistic lock is labelled "Conflict" with a fixed reload message. The idempotency error is labelled "Idempotency Error". The labels never coincide. |
| Errors.FixedMessagesHideExceptionText | src/main/java/com/taskify/taskify/exception/GlobalExceptionHandler.java:95-186 | For unexpected errors, bad credentials and optimistic locks, the body is the same whatever the exception's text. The fallback message is the fixed "Something went wrong" text. |
| Errors.MessagesPassThrough | src/main/java/com/taskify/taskify/exception/GlobalExceptionHandler.java:32-173 | Not-found, bad-argument, token, access, rate-limit and idempotency errors carry the exception's own message. |
| Errors.ValidationMessageNamesFields | src/main/java/com/taskify/taskify/exception/GlobalExceptionHandler.java:58-73 | A body-validation failure answers 400 "Validation Error". Its message mentions every violated field. |
| Errors.PathStripsUriPrefix | src/main/java/com/taskify/taskify/exception/GlobalExceptionHandler.java:39 | For a description "uri=" + path whose path contains no further "uri=", the reported path is exactly that path. |
| Idempotency.NewRecord | src/main/java/com/taskify/taskify/model/IdempotencyKey.java:43-53 | A record copies key, user, endpoint, hash, body and status. Its expiry lies the TTL in minutes after its creation. For a non-negative TTL, creation is not after expiry. |
| Idempotency.ExpiryBoundary | src/main/java/com/taskify/taskify/model/IdempotencyKey.java:128-130 | A record is still live at its deadline and expired from one millisecond after it. |
| Idempotency.Insert | src/main/java/com/taskify/taskify/model/IdempotencyKey.java:7-9 | The unique index covers (key, user) only. An insert succeeds exactly when no record holds that pair, whatever the endpoint. A clash is a storage error. |
| Idempotency.Find | src/main/java/com/taskify/taskify/repository/IdempotencyKeyRepository.java:15-16 | The lookup returns a stored record matching key, user and endpoint, and returns nothing exactly when no record matches all three. |
| Idempotency.DeleteExpiredKeys | src/main/java/com/taskify/taskify/repository/IdempotencyKeyRepository.java:18-20 | The sweep removes exactly the records with `expiresAt < now`. Every other record survives unchanged. |
| Idempotency.SweepMatchesExpiry | src/main/java/com/taskify/taskify/repository/IdempotencyKeyRepository.java:18-20 | After a sweep at `now`, no record left is expired at `now`. Every removed record was expired. |
| Idempotency.SweepIdempotent | src/main/java/com/taskify/taskify/repository/IdempotencyKeyRepository.java:18-20 | Sweeping twice at the same time is the same as sweeping once. |
| Idempotency.SweepPreservesValid | src/main/java/com/taskify/taskify/repository/IdempotencyKeyRepository.java:18-20 | The sweep keeps every record under its own index key. |
| Idempotency.GetStoredResponse | src/main/java/com/taskify/taskify/service/impl/IdempotencyServiceImpl.java:34-55 | No match gives empty. Failure happens exactly for a live match whose hash differs, and raises the "reused with a different payload" error. A returned record is the live, same-hash match. The table is never changed. |
| Idempotency.ExpiredIgnoresPayload | src/main/java/com/taskify/taskify/service/impl/IdempotencyServiceImpl.java:42-44 | An expired match gives empty even when the payload hash differs: expiry is checked before the hash. |
| Idempotency.SaveResponse | src/main/java/com/taskify/taskify/service/impl/IdempotencyServiceImpl.java:57-73 | A save succeeds exactly when (key, user) is unused. It then stores hash(body), the written response and the status, and keeps every other record. |
| Idempotency.CleanupExpiredKeys | src/main/java/com/taskify/taskify/service/impl/IdempotencyServiceImpl.java:75-79 | Cleanup keeps exactly the records that are not expired now, unchanged. |
| Idempotency.SaveThenLookup | src/main/java/com/taskify/taskify/service/impl/IdempotencyServiceImpl.java:34-73 | Round trip: after a save, a lookup with the same body up to the deadline returns the saved record. |
| Idempotency.SaveThenMismatch | src/main/java/com/taskify/taskify/service/impl/IdempotencyServiceImpl.java:34-73 | After a save, a lookup with a body of a different hash fails with the idempotency error until the deadline. |
| Idempotency.ExpiredRecordBlocksSave | src/main/java/com/taskify/taskify/service/impl/IdempotencyServiceImpl.java:34-73 | As written: an expired record that has not been swept makes the lookup report a miss. The save that follows is then refused by the unique index. |
| Idempotency.SaveResponseOverExpired | src/main/java/com/taskify/taskify/service/impl/IdempotencyServiceImpl.java:57-73 | Corrected save: it succeeds exactly when (key, user) is unused or its record has expired, and installs the new record in its place. |
| Idempotency.MissThenSaveOverExpired | src/main/java/com/taskify/taskify/service/impl/IdempotencyServiceImpl.java:34-73 | With the corrected save, every miss is followed by a successful save, and a later lookup up to the deadline replays it. |
| TaskController.ServiceCreate | src/main/java/com/taskify/taskify/controller/v1/TaskController.java:82 | A create adds exactly one new task owned by the caller, with the request's fields, and changes the caller's list-cache version. Other users' versions and the idempotency table are untouched. |
| TaskController.CreateTaskIn | src/main/java/com/taskify/taskify/controller/v1/TaskController.java:56-88 | Invalid bodies are refused with their field errors and nothing changes. A keyless request always creates one task with 201 and leaves the records alone. A payload conflict changes nothing. A task is created only after a miss. At most one task is added. |
| TaskController.HitReplays | src/main/java/com/taskify/taskify/controller/v1/TaskController.java:69-80 | On a stored hit, no task is created and nothing changes. A readable stored body is answered with the stored status and body. |
| TaskController.MissCreatesThenRecords | src/main/java/com/taskify/taskify/controller/v1/TaskController.java:82-87 | On a miss, exactly one task is created with 201. It is recorded under the same key, user and "/api/v1/tasks", with the request's hash and status 201. The task count rises by exactly one, the only new record is that one, and every earlier record is unchanged. This holds for the code as written and for the corrected code. |
| TaskController.RecordFoundLater | src/main/java/com/taskify/taskify/controller/v1/TaskController.java:82-87 | After a first keyed create, a lookup up to the deadline finds the record that create stored, and that record has not yet expired. This holds for the code as written and for the corrected code. |
| TaskController.DuplicateRequestReplays | src/test/java/com/taskify/taskify/task/TaskIdempotencyIntegrationTest.java:111-142 | Repeating a request with the same key and payload gives the identical reply and leaves one task. This holds for the code as written and for the corrected code. |
| TaskController.MismatchedPayloadConflicts | src/test/java/com/taskify/taskify/task/TaskIdempotencyIntegrationTest.java:146-178 | Reusing a key with another payload answers 409 and creates nothing. This holds for the code as written and for the corrected code. |
| TaskController.DifferentKeysCreateTwo | src/test/java/com/taskify/taskify/task/TaskIdempotencyIntegrationTest.java:182-224 | Two different keys with the same payload create two tasks. This holds for the code as written and for the corrected code. |
| TaskController.KeylessCreatesTwo | src/test/java/com/taskify/taskify/task/TaskIdempotencyIntegrationTest.java:182-224 | Two keyless posts create two distinct tasks and store no record. This holds for the code as written and for the corrected code. |
| TaskController.ExpiredKeyFailsAfterCreating | src/main/java/com/taskify/taskify/controller/v1/TaskController.java:69-87 | As written: a retry under an expired, unswept key creates a task and then answers 500. |
| TaskController.ExpiredKeyIsReplaced | src/main/java/com/taskify/taskify/controller/v1/TaskController.java:69-87 | Corrected: the same retry creates one task, answers 201, and records a reply that later lookups replay. |
| CacheKey.ReadVersion | src/main/java/com/taskify/taskify/config/TaskCacheKeyGenerator.java:34-45 | Without an authentication or a cache, the version is "0" and nothing is stored. Otherwise a stored version is used as is. A missing version is read as "0" and written back, and no other user's entry changes. |
| CacheKey.Generate | src/main/java/com/taskify/taskify/config/TaskCacheKeyGenerator.java:25-63 | The key is `username:roles:version:method:` followed by each parameter's text and "\|". The version is the one read, and the cache ends as the read left it. |
| CacheKey.AnonymousKey | src/main/java/com/taskify/taskify/config/TaskCacheKeyGenerator.java:28-37 | Unauthenticated calls get "anonymous", empty roles and version "0", and the version cache is untouched. |
| CacheKey.FirstObservationIsStable | src/main/java/com/taskify/taskify/config/TaskCacheKeyGenerator.java:38-45 | A first call stores "0" for the user, so a repeat call gives the same key. No entry appears for any other user. |
| CacheKey.VersionsSeparateKeys | src/main/java/com/taskify/taskify/config/TaskCacheKeyGenerator.java:47-50 | Two different digit-string versions give different keys when everything else is equal. |
| CacheKey.Bump | src/test/java/com/taskify/taskify/cache/TaskCacheIntegrationTest.java:110-118 | After a create, the user's stored version differs from the one before, counting an absent version as "0". Other users' versions are unchanged and versions stay decimal. |
| CacheKey.ReadVersionKeepsDigits | src/main/java/com/taskify/taskify/config/TaskCacheKeyGenerator.java:34-45 | If all stored versions are decimal, the version read and the cache written back stay decimal. |
| CacheKey.BumpInvalidatesListKeys | src/test/java/com/taskify/taskify/cache/TaskCacheIntegrationTest.java:110-118 | After a bump, the same list call gets a key different from the one it got just before the bump, so the page cached under that key is not served again. |
| TaskSpecification.AbsentArgumentsAcceptAll | src/main/java/com/taskify/taskify/repository/TaskSpecification.java:13-63 | With a null argument, every filter accepts every task. |
| TaskSpecification.KeywordSemantics | src/main/java/com/taskify/taskify/repository/TaskSpecification.java:25-35 | A blank keyword accepts all tasks. Otherwise a task matches exactly when its lower-cased title or description contains the lower-cased keyword. |
| TaskSpecification.KeywordIgnoresCase | src/main/java/com/taskify/taskify/repository/TaskSpecification.java:25-35 | A keyword and its lower-cased form select the same tasks. |
| TaskSpecification.RangeIsBothBounds | src/main/java/com/taskify/taskify/repository/TaskSpecification.java:37-59 | The two-bound range is the conjunction of the two one-sided inclusive bounds. |
| TaskSpecification.NoDueDateOutsideBoundedRange | src/main/java/com/taskify/taskify/repository/TaskSpecification.java:49-59 | A task without a due date matches no due-date range that has a bound. |
| TaskSpecification.DeletedFiltersComplement | src/main/java/com/taskify/taskify/repository/TaskSpecification.java:65-71 | The not-deleted and deleted filters are exact complements. |
| TaskSpecification.StagnantWithoutDueDate | src/main/java/com/taskify/taskify/repository/TaskSpecification.java:77-86 | A task without a due date is stagnant exactly through a status branch: in progress and idle since that threshold, or pending and idle since that one. |
| TaskSpecification.StagnantCompletedOnlyWhenOverdue | src/main/java/com/taskify/taskify/repository/TaskSpecification.java:77-86 | A completed or status-less task is stagnant exactly when it is overdue and idle since the overdue threshold. |
| TaskSpecification.TouchedTaskNotStagnant | src/main/java/com/taskify/taskify/repository/TaskSpecification.java:77-86 | A task modified at or after all three thresholds is never stagnant: the comparisons are strict. |
| TaskExplanation.FocusExplanation | src/main/java/com/taskify/taskify/service/impl/TaskExplanationServiceImpl.java:16-28 | The fixed attention text appears exactly when there is no due date. "Due today" appears exactly when the due day is today. An earlier due day gives "Overdue by N days and high priority" and a later one "Due soon (in N days) and high priority". In both, N is the plain `%d` rendering (no sign, no leading zeros) and reads back as the number of calendar days between today and the due day. |
| TaskExplanation.FocusTextInjective | src/main/java/com/taskify/taskify/service/impl/TaskExplanationServiceImpl.java:16-28 | Different day distances, or a missing due date, always give different texts. |
| TaskExplanation.FocusExamples | src/test/java/com/taskify/taskify/service/impl/TaskExplanationServiceImplTest.java:25-88 | These exact texts hold: 3 days overdue, due today, and due in 2 days. |
| TaskExplanation.ReasonFor | src/main/java/com/taskify/taskify/service/impl/TaskExplanationServiceImpl.java:35-49 | Overdue by full timestamp wins. Otherwise IN_PROGRESS, then PENDING. The generic reason applies exactly when none of these holds. |
| TaskExplanation.StagnantExplanation | src/main/java/com/taskify/taskify/service/impl/TaskExplanationServiceImpl.java:32-50 | The message has the prefix and suffix of the task's reason. The number between them is the `%d` rendering of, and reads back as, the calendar days from the last modification to today, with a minus sign if the modification lies in the future. |
| TaskExplanation.StagnantTasksGetSpecificReason | src/main/java/com/taskify/taskify/service/impl/TaskExplanationServiceImpl.java:33-49 | Every task the stagnant query selects gets one of the three specific messages, never the generic one. |
| TaskExplanation.InProgressExample | src/test/java/com/taskify/taskify/service/impl/TaskExplanationServiceImplTest.java:25-88 | In progress and 5 days idle gives "Inactive for 5 days while still IN_PROGRESS". |
| TaskExplanation.PendingExample | src/test/java/com/taskify/taskify/service/impl/TaskExplanationServiceImplTest.java:25-88 | Pending and 10 days idle gives "Pending for 10 days with no recent updates". |
| TaskExplanation.OverdueExample | src/test/java/com/taskify/taskify/service/impl/TaskExplanationServiceImplTest.java:25-88 | Overdue and 3 days idle gives "Overdue and inactive for 3 days". |
| DailyCheckIn.SizeCheckMeansAllDistinctAndPresent | src/main/java/com/taskify/taskify/service/impl/DailyCheckInServiceImpl.java:63-66 | The found-rows count equals the id count exactly when every id exists and none repeats. |
| DailyCheckIn.FirstUnowned | src/main/java/com/taskify/taskify/service/impl/DailyCheckInServiceImpl.java:67-71 | Nothing is reported exactly when every found task belongs to the caller. A reported id is a found task owned by someone else. |
| DailyCheckIn.CheckSelection | src/main/java/com/taskify/taskify/service/impl/DailyCheckInServiceImpl.java:63-71 | The selection is accepted exactly when ids are given, all exist, none repeats and all are the caller's. A missing list is an unhandled exception (500). Missing or repeated ids are a bad argument, checked before ownership. A foreign task is access denied, naming that task. |
| DailyCheckIn.Select | src/main/java/com/taskify/taskify/service/impl/DailyCheckInServiceImpl.java:135-149 | The responses are exactly those of the listed, existing tasks the filter keeps, and there are never more than ids. |
| DailyCheckIn.SelectDistinct | src/main/java/com/taskify/taskify/service/impl/DailyCheckInServiceImpl.java:135-149 | From a repeat-free id list, with rows stored under their own ids, no response is listed twice. |
| DailyCheckIn.SelectAllKept | src/main/java/com/taskify/taskify/service/impl/DailyCheckInServiceImpl.java:135-140 | When every listed task exists and is kept, each one appears, in the listed order. |
| DailyCheckIn.GetToday | src/main/java/com/taskify/taskify/service/impl/DailyCheckInServiceImpl.java:100-133 | The view is for today. Its note is today's, or null with no intent. Today's tasks are exactly the responses of the tasks in today's intent that exist and are not deleted, and none without an intent. Carry-over is exactly the responses of the tasks in yesterday's intent that the caller owns and that are neither deleted nor completed, and none without yesterday's intent. Neither list is longer than its intent's id list. |
| DailyCheckIn.TodayListsEachTaskOnce | src/main/java/com/taskify/taskify/service/impl/DailyCheckInServiceImpl.java:100-149 | When stored intents list each task once, the day's view lists each task at most once, in both today's tasks and the carry-over. |
| DailyCheckIn.MissingIdsAnswer500 | src/main/java/com/taskify/taskify/service/impl/DailyCheckInServiceImpl.java:63 | A body without a task list is refused with 500 and the generic message, and nothing is stored. |
| DailyCheckIn.CheckIn | src/main/java/com/taskify/taskify/service/impl/DailyCheckInServiceImpl.java:55-98 | A check-in is accepted exactly when the selection is. On refusal the error is the selection's and nothing is stored. On success only (user, today) changes: ids and note are replaced, updated now, and the creation time is kept. The action is UPDATE exactly when an intent existed. The reply is today's view. Stored intents stay keyed by their own user and date, each listing a task at most once. |
| DailyCheckIn.CheckInThenView | src/main/java/com/taskify/taskify/service/impl/DailyCheckInServiceImpl.java:55-98 | After a check-in with undeleted tasks, the returned view shows exactly those tasks and the request's note. |
| DailyCheckIn.SecondCheckInOverwrites | src/main/java/com/taskify/taskify/model/DailyIntent.java:10-50 | A second check-in on the same day updates the one intent in place. Ids, note and update time change and the creation time stays. |
| DailyCheckIn.CarryoverSelectsUnfinished | src/main/java/com/taskify/taskify/service/impl/DailyCheckInServiceImpl.java:142-149 | A task from yesterday's intent that the caller owns, not deleted and not completed, is carried over. |
| IntentBuckets.CreateIntent | src/main/java/com/taskify/taskify/service/impl/IntentBucketServiceImpl.java:55-78 | A create fails exactly when the caller already has that name, with the "already exists" message and no change. Otherwise exactly one new bucket is added, owned by the caller with the given name, description and colour, and per-user names stay unique. |
| IntentBuckets.CreateThenList | src/main/java/com/taskify/taskify/service/impl/IntentBucketServiceImpl.java:80-86 | A created bucket is added to its owner's list. Every other user's list is unchanged. |
| IntentBuckets.SecondCreateWithSameNameFails | src/main/java/com/taskify/taskify/service/impl/IntentBucketServiceImpl.java:60-63 | After a create, the same name fails for the same user but succeeds for another user. |
| IntentBuckets.Detach | src/main/java/com/taskify/taskify/service/impl/IntentBucketServiceImpl.java:111-114 | Detaching keeps every task and leaves none referring to the bucket. |
| IntentBuckets.DetachIsCheckedSave | src/main/java/com/taskify/taskify/service/impl/IntentBucketServiceImpl.java:111-114 | Each referencing task is cleared by a versioned save that succeeds. Other tasks are untouched. |
| IntentBuckets.DeleteIntent | src/main/java/com/taskify/taskify/service/impl/IntentBucketServiceImpl.java:88-118 | A delete fails with "not found or access denied" exactly when the bucket is missing or someone else's. Otherwise only that bucket is removed, referencing tasks lose the reference and gain one stamp, and all tasks remain. |
| IntentBuckets.DeleteLeavesNoReference | src/main/java/com/taskify/taskify/service/impl/IntentBucketServiceImpl.java:111-116 | After a delete, no task refers to the bucket and it is gone from its owner's list. |
| IntentBuckets.CountsNest | src/main/java/com/taskify/taskify/service/impl/IntentBucketServiceImpl.java:146-163 | Completed and stagnant rows are rows of the bucket, and no row is both. |
| IntentBuckets.FocusPage | src/main/java/com/taskify/taskify/service/impl/IntentBucketServiceImpl.java:133-139 | The focus page holds at most its size of the caller's undeleted, uncompleted tasks. It is either full, or it holds every such task of the ranking. |
| IntentBuckets.InsightFor | src/main/java/com/taskify/taskify/service/impl/IntentBucketServiceImpl.java:141-168 | Per bucket: completed ≤ total, completed + stagnant ≤ total, and focus count ≤ page size. |
| IntentBuckets.GetOverview | src/main/java/com/taskify/taskify/service/impl/IntentBucketServiceImpl.java:120-179 | There is one insight per bucket of the caller and none for anyone else's. Each keeps the bounds above with a focus count of at most 5. |
| IntentBuckets.OverviewIgnoresOtherUsersTasks | src/main/java/com/taskify/taskify/service/impl/IntentBucketServiceImpl.java:120-179 | Changing another user's task leaves the overview unchanged. |
| IntentBuckets.FocusPageIgnoresOtherUsers | src/main/java/com/taskify/taskify/service/impl/IntentBucketServiceImpl.java:133-139 | Changing another user's task leaves the focus page unchanged. |
| RateLimit.SplitFirstElement | src/main/java/com/taskify/taskify/security/RateLimitFilter.java:72-78 | Java's `split(",")` of a non-empty header is empty exactly when the header is only commas. Otherwise its first element is the text before the first comma. |
| RateLimit.ClientIpAsWritten | src/main/java/com/taskify/taskify/security/RateLimitFilter.java:72-78 | As written: the remote address for an absent or empty header. It fails exactly when the header is only commas. Otherwise it is the text before the first comma. |
| RateLimit.ClientIp | src/main/java/com/taskify/taskify/security/RateLimitFilter.java:72-78 | Corrected: the remote address for an absent or empty header. Otherwise a comma-free prefix of the header, never failing. |
| RateLimit.ClientIpAgreesWhereDefined | src/main/java/com/taskify/taskify/security/RateLimitFilter.java:72-78 | Both versions agree wherever the original succeeds. The header "," is where they differ. |
| RateLimit.ResolveKey | src/main/java/com/taskify/taskify/security/RateLimitFilter.java:64-70 | Corrected: an authenticated, non-anonymous user's key is "user:" + name. Otherwise it is "ip:" + the corrected client address, so it never fails. |
| RateLimit.ResolveKeyAsWritten | src/main/java/com/taskify/taskify/security/RateLimitFilter.java:64-78 | As written: a user's key is "user:" + name and never fails. An anonymous key fails exactly when the address lookup fails. A key that resolves equals the corrected key. |
| RateLimit.UserAndIpKeysDiffer | src/main/java/com/taskify/taskify/security/RateLimitFilter.java:64-70 | A user key never equals an address key. |
| RateLimit.RetryAfter | src/main/java/com/taskify/taskify/security/RateLimitFilter.java:80-89 | Retry-After is at least 1. It is 1 exactly below two seconds of waiting; from one second on it is the whole seconds of the wait. |
| RateLimit.ResolveBucket | src/main/java/com/taskify/taskify/service/RateLimitService.java:35-55 | An existing bucket is returned unchanged. A new key gets a full bucket with the auth or API limits of this request, and the registry gains exactly that entry. |
| RateLimit.ClearBuckets | src/main/java/com/taskify/taskify/service/RateLimitService.java:39-41 | Clearing leaves no buckets. |
| RateLimit.FirstResolveFixesLimits | src/main/java/com/taskify/taskify/service/RateLimitService.java:35-37 | After the first resolve for a key, later resolves return the same bucket whichever kind of request they come from. |
| RateLimit.ClearThenResolveIsFresh | src/main/java/com/taskify/taskify/service/RateLimitService.java:39-55 | After clearing, the next resolve creates a full bucket with that request's limits. |
| RateLimit.FilterAsWritten | src/main/java/com/taskify/taskify/security/RateLimitFilter.java:30-55 | As written: excluded paths pass. A key that cannot be resolved makes the filter throw before any bucket is touched, so the registry is unchanged. |
| RateLimit.FilterAgreesUnlessOnlyCommas | src/main/java/com/taskify/taskify/security/RateLimitFilter.java:30-78 | The filter as written and the corrected filter give the same registry and outcome on every request except an anonymous one whose X-Forwarded-For is only commas. There the original fails and changes nothing, while the corrected one uses the key "ip:". |
| RateLimit.Filter | src/main/java/com/taskify/taskify/security/RateLimitFilter.java:30-55 | Corrected (it resolves the key through the corrected address): excluded paths pass without touching the registry. Otherwise the request's bucket gives up one token and the request passes, or, when empty, a 429 with Retry-After is sent. No other bucket changes. |
| RateLimit.ExcludedNeverConsume | src/main/java/com/taskify/taskify/security/RateLimitFilter.java:36-39 | A request for an excluded path passes and leaves the registry as it was. |
| RateLimit.ExhaustedUserLeavesIpBucket | src/test/java/com/taskify/taskify/security/RateLimitIntegrationTest.java:117-132 | A refused logged-in user does not drain the address bucket: an anonymous request from the same address still passes. |
| RateLimit.CapacityRequestsPass | src/main/java/com/taskify/taskify/security/RateLimitFilter.java:46-54 | A bucket holding at least n tokens lets n requests in a row pass and ends n tokens lower. When it held exactly n, the next request is refused. |
| Requests.TaskErrorsWith | src/main/java/com/taskify/taskify/dto/TaskRequest.java:20-41 | A body is valid exactly when it satisfies every constraint. Each constraint's error is present exactly when that constraint fails, and no other error appears. |
| Requests.TaskErrorsAsWritten | src/main/java/com/taskify/taskify/dto/TaskRequest.java:20-23 | As annotated: the title is too long exactly when it has more than 256 UTF-16 units. |
| Requests.TaskErrors | src/main/java/com/taskify/taskify/dto/TaskRequest.java:20-41 | Corrected: the title is too long exactly when it has more than 255 units. A blank or missing title is reported as required. |
| Requests.TitleOf256Letters | src/main/java/com/taskify/taskify/dto/TaskRequest.java:22 | A 256-letter title passes the annotated check but is rejected by the corrected one with the "<= 255" message. |
| Requests.TitleChecksAgreeElsewhere | src/main/java/com/taskify/taskify/dto/TaskRequest.java:20-23 | Both checks give the same errors for every title whose length is not exactly 256. |
| Requests.UnconstrainedTaskFields | src/main/java/com/taskify/taskify/dto/TaskRequest.java:29-44 | Status, priority and intent bucket never affect validation. |
| Requests.EmptyTitleRejected | src/test/java/com/taskify/taskify/exception/ErrorHandlingIntegrationTest.java:57-71 | An empty title answers 400 "Validation Error" with a message naming the title. |
| Requests.BucketErrors | src/main/java/com/taskify/taskify/dto/IntentBucketRequest.java:10-17 | A bucket body is valid exactly when the name is non-blank and at most 100 units long and the description at most 500. Each error appears exactly when its constraint fails. |
| Requests.UnconstrainedColor | src/main/java/com/taskify/taskify/dto/IntentBucketRequest.java:19-20 | The colour never affects validation. |
| Requests.CheckInErrors | src/main/java/com/taskify/taskify/dto/DailyCheckInRequest.java:10-12 | A check-in body is valid exactly when its id list is absent or holds 1 to 3 ids. The only error is the "between 1 and 3" one. |
| Requests.UnconstrainedNote | src/main/java/com/taskify/taskify/dto/DailyCheckInRequest.java:14-15 | The note never affects validation. |
| Requests.CheckInSizeExamples | src/test/java/com/taskify/taskify/controller/DailyCheckInIntegrationTest.java:149-159 | Four ids answer 400. One id passes. |
| Auth.Register | src/main/java/com/taskify/taskify/service/impl/AuthServiceImpl.java:53-73 | A taken username is refused first, then a taken e-mail. Success happens exactly when both are free and adds exactly one user with the encoded password and ROLE_USER. Other users and tokens are untouched and uniqueness is kept. |
| Auth.RegisterTwiceFails | src/main/java/com/taskify/taskify/service/impl/AuthServiceImpl.java:57-62 | Registering again with the same username or e-mail is refused as a bad argument. |
| Auth.RoleReused | src/main/java/com/taskify/taskify/service/impl/AuthServiceImpl.java:67-68 | ROLE_USER is created once and reused. A second registration leaves the role table unchanged. |
| Auth.CreateRefreshToken | src/main/java/com/taskify/taskify/service/impl/RefreshTokenServiceImpl.java:31-46 | An unknown user fails with "User not found". Otherwise one unrevoked token of that user is added, expiring after the configured duration or 3 600 000 ms. |
| Auth.VerifyExpiration | src/main/java/com/taskify/taskify/service/impl/RefreshTokenServiceImpl.java:48-58 | An expired token is deleted and reported expired, even if also revoked. A live revoked token is kept and reported revoked. A token succeeds exactly when live and unrevoked, and is returned unchanged. |
| Auth.DeleteByUserId | src/main/java/com/taskify/taskify/service/impl/RefreshTokenServiceImpl.java:65-71 | An unknown user fails. Otherwise all of that user's tokens are removed and everyone else's are kept. |
| Auth.RevokeAllUserTokens | src/main/java/com/taskify/taskify/service/impl/RefreshTokenServiceImpl.java:73-79 | An unknown user fails. Otherwise none of the user's tokens remain. |
| Auth.RevokeIsDelete | src/main/java/com/taskify/taskify/service/impl/RefreshTokenServiceImpl.java:65-79 | Revoking all of a user's tokens is the same operation as deleting them. |
| Auth.Login | src/main/java/com/taskify/taskify/service/impl/AuthServiceImpl.java:75-94 | Failed authentication is "Invalid username or password" with no change. An authenticated name with no user row fails with user-not-found and no change. Login succeeds exactly when the name is authenticated and a user has it. On success the access token is the one minted for that name and the user's roles. The refresh token is fresh, not revoked, stored for that user with the configured expiry, and nothing else in the store changes. |
| Auth.RefreshAsWritten | src/main/java/com/taskify/taskify/service/impl/AuthServiceImpl.java:96-114 | As written: the reply is that of the individual steps, but a failure rolls the whole transaction back. |
| Auth.ExpiredTokenSurvivesRefresh | src/main/java/com/taskify/taskify/service/impl/AuthServiceImpl.java:96-114 | As written: refreshing with an expired token reports "expired", yet the token is still stored afterwards. |
| Auth.Refresh | src/main/java/com/taskify/taskify/service/impl/AuthServiceImpl.java:96-114 | Corrected. An unknown token gives "not in database". An expired token is deleted and reported. A revoked one is reported and kept. Success happens exactly for a live, unrevoked token: it returns the same refresh token and a new access token minted for its user's name and roles, and nothing changes. |
| Auth.RefreshAgreesUnlessExpired | src/main/java/com/taskify/taskify/service/impl/AuthServiceImpl.java:96-114 | Both versions agree on every token that has not expired. |
| Auth.ExpiredTokenIsForgotten | src/main/java/com/taskify/taskify/service/impl/RefreshTokenServiceImpl.java:50-53 | Corrected: after an expired refresh, the same token is unknown. |
| Auth.LoginThenRefresh | src/main/java/com/taskify/taskify/service/impl/AuthServiceImpl.java:75-114 | A token from a successful login refreshes successfully until it expires, returning the same refresh token. |
| Auth.Logout | src/main/java/com/taskify/taskify/service/impl/AuthServiceImpl.java:116-122 | An unknown user fails with "User not found". Otherwise exactly that user's tokens are removed and users are unchanged. |
| Auth.LogoutEndsRefresh | src/main/java/com/taskify/taskify/service/impl/AuthServiceImpl.java:116-122 | After logout, the user's refresh tokens are unknown to refresh. |

## Left out

- Bucket4j refill over time: a bucket's `tokens` is what it holds when a request arrives, and the wait reported on refusal is a parameter.
- Per-key bucket limits are fixed by the first request for that key. Auth and API requests from one client share that bucket. This is modelled as the code does it, not changed.
- Focus-page order: the dueDate/priority sort is a parameter (`ranked`). `Task.java` stores priority as the enum's name (`EnumType.STRING`), so the descending priority sort orders names alphabetically: MEDIUM, then LOW, then HIGH. Among tasks with the same due date, high-priority tasks therefore come last.
- `focusPrevalence`: a floating-point quotient. The model keeps the integer `focusCount` it is computed from.
- `getAllIntents` is modelled as a set. The list order comes from the database.
- `findAllById` order is unspecified. The model returns rows in the order the ids are listed.
- Caching annotations, Caffeine eviction, audit logging, metrics, logging, deprecation headers, OpenAPI, security configuration and the health check.
- SHA-256, Jackson, BCrypt, JWT, UUID and the authentication manager are parameters.
  - `CreateRefreshToken` takes a UUID not yet in the token table.
  - `Login` takes the authenticated name (or none) instead of the password check.
- The current user is given as the caller. The "Authenticated user not found" branch of `getCurrentUser` is not modelled.
- The task service's create is not part of this model: `service/impl/TaskServiceImpl.java` is an older version without caching. `TaskController.ServiceCreate` stands for it: one task with the request's fields, plus a version bump.
  - Rationale and intent bucket from the request are not stored.
- The version bump's algorithm is not part of this model. `CacheKey.Bump` writes the decimal successor, and its contract only promises a different, decimal version.
- CacheKey.BumpInvalidatesListKeys: it promises a key different from the one just before the bump, not from every earlier key. That stronger promise would need the unknown bump to never return to an earlier version.
- `TaskServiceImpl` and the legacy `controller/TaskController` are not modelled.
- `model/Task.java` lacks `lastModifiedAt`, `rationale` and `intentBucket`, which the queries and explanations read. They are added to `Domain.Task` with no behaviour of their own, except that a new task's `lastModifiedAt` is its creation time, as the stagnant-tasks integration test relies on (`src/test/java/com/taskify/taskify/controller/StagnantTasksIntegrationTest.java:80`).
- The order of bean-validation errors is unspecified. The model lists them in declaration order.
- The text of the framework's message for a null id list is taken as "The given Ids of entities must not be null". It never reaches the client, whose 500 body carries the generic message.
- RateLimit.ResolveKey: it resolves the address through the corrected `ClientIp`, so it cannot fail. The code as written is `RateLimit.ResolveKeyAsWritten`.
- RateLimit.Filter: it uses the corrected key, so an anonymous X-Forwarded-For of only commas draws from the bucket "ip:". The code as written is `RateLimit.FilterAsWritten`, which fails there; `RateLimit.FilterAgreesUnlessOnlyCommas` relates the two. The servlet container's error response for that failure is not modelled.
- Concurrency is left out. This includes the lookup-then-save race between two duplicate idempotent requests, and the database's atomic version check, which is one step here.
- A uniqueness violation on save is not followed by a second lookup. The code has none, and the model follows the code.
- SQL `LIKE` wildcards inside a keyword are treated as ordinary characters.
- `toLowerCase` is modelled for ASCII letters only.
- TaskController.CreateTaskIn: a stored body the reader cannot parse is a 500. Its contract says nothing about the reply in that case beyond "no task created".
- Errors.Handle: its own contract states only the path and the status range. The per-kind statuses, labels and messages are stated in `Errors.StatusClasses`, `Errors.ConflictKindsDistinguishable`, `Errors.FixedMessagesHideExceptionText`, `Errors.MessagesPassThrough` and `Errors.ValidationMessageNamesFields`.

## Findings

| source | as written | input that shows it | evidently intended | confidence | as-written member | corrected member |
|---|---|---|---|---|---|---|
| src/main/java/com/taskify/taskify/service/impl/IdempotencyServiceImpl.java:42-73 | An expired record is treated as a miss but stays in the table until the sweep. The save after the create then violates the (key, user) unique index. | Post with key K, wait past the TTL, then post with K again before the sweep: a task is created and the reply is 500. | An expired record is replaced, and the retry gets 201 and a new record. | medium, not executed | Idempotency.ExpiredRecordBlocksSave, TaskController.ExpiredKeyFailsAfterCreating | Idempotency.SaveResponseOverExpired, Idempotency.MissThenSaveOverExpired, TaskController.ExpiredKeyIsReplaced |
| src/main/java/com/taskify/taskify/security/RateLimitFilter.java:72-78 | `split(",")[0]` on a header of only commas. Java drops trailing empty pieces, so the array is empty and indexing throws. | `X-Forwarded-For: ,` gives 500 from the filter. | The text before the first comma, here the empty string, as the method's purpose states. | high, not executed | RateLimit.ClientIpAsWritten, RateLimit.FilterAsWritten | RateLimit.ClientIp, RateLimit.ClientIpAgreesWhereDefined, RateLimit.FilterAgreesUnlessOnlyCommas |
| src/main/java/com/taskify/taskify/service/impl/AuthServiceImpl.java:96-114 | `verifyExpiration` deletes an expired token and then throws an unchecked exception inside the `@Transactional` `refreshToken`. The rollback undoes the delete. | Refresh with an expired token: the reply is "expired", and the token row is still there. | The expired token is deleted, as the delete before the throw states. | medium, not executed | Auth.RefreshAsWritten, Auth.ExpiredTokenSurvivesRefresh | Auth.Refresh, Auth.ExpiredTokenIsForgotten, Auth.RefreshAgreesUnlessExpired |
| src/main/java/com/taskify/taskify/dto/TaskRequest.java:22 | `@Size(max = 256)`, while the message, the API schema and the title column all state 255. | A 256-letter title passes validation, then exceeds a 255-character column. | A title of at most 255 characters. | high, not executed | Requests.TaskErrorsAsWritten, Requests.TitleOf256Letters | Requests.TaskErrors, Requests.TitleChecksAgreeElsewhere |
