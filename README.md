# Sliding-window-log rate limiter, modelled in Dafny

This project models the admission core of a sliding-window-log rate limiter in three layers.

- **History store** (`InMemoryBackend`): for each tracked key, a sorted list of admission timestamps. It supports sorted insertion, a count of the timestamps at or after a window start, pruning of the timestamps before it, and lookup of the oldest timestamp in the window. Insertion uses `bisect.insort` (which inserts after equal elements); the count, the pruning and the oldest lookup use `bisect_left`.
- **Engine** (`SlidingWindowRateLimiter`): a table from tracked key to ceiling (`max_requests` per `time_window` seconds). For one key it decides how long a caller must wait.
  - Below the ceiling the wait is 0 and the key's old timestamps are pruned.
  - At the ceiling the wait runs until the oldest in-window timestamp leaves the window, and the store is left alone.
  - `try_acquire` and `acquire_lock` record admissions.
- **Manager** (`RateLimiterManager`, `MultiResourceLock`): expands a resource's requests/tokens per second, minute and hour into tracked keys `<resource>:rps|rpm|rph|tps|tpm` with fixed windows of 1, 60 and 3600 seconds.
  - The resource's wait is the largest wait over the applicable keys: `rps, rpm, rph, custom` for `"requests"` and `tps, tpm, custom` for `"tokens"`.
  - `try_acquire` tries those keys in order and stops at the first refusal.
  - The scoped context records one admission into every configured applicable key.

Modules and files:

- `wrappers.dfy` (`Wrappers`): `Option`, `Result` and `Outcome`. These stand for `None` and for raised exceptions.
- `sorted_log.dfy` (`SortedLog`): sorted timestamp sequences and their windowed views, plus `bisect_left`, `bisect_right` and `insort` as verified binary searches.
- `memory_backend.dfy` (`MemoryBackend`): the store, a `map<string, seq<real>>`, with the class `InMemoryBackend` that mutates it.
- `rate_limiter.dfy` (`Engine`): the specification functions `Decide`, `TryAdmit`, `Admit` and `UsageOf`, their lemmas, and the class `SlidingWindowRateLimiter`.
- `coordination.dfy` (`Coordination`): the manager's key expansion and its sweeps over keys as functions, with lemmas about them.
- `rate_limiter_manager.dfy` (`Manager`): the classes `RateLimiterManager` and `MultiResourceLock`. Each of their methods except the constructors, `RateLimiterManager.AcquireLock` and `MultiResourceLock.Exit` is proved equal to a `Coordination` function.

Modelling conventions:

- **The clock is a parameter.** Every operation that reads the clock takes an explicit `now: real`.
  - A `time.sleep(w)` means the clock advances by exactly `w`. The admission is then recorded at `now + w`.
  - Timestamps and windows are exact reals.
- **The store interface.** The abstract backend interface is represented by the concrete in-memory store. The engine's `hasattr(backend, 'get_oldest_request_time')` test is the constant `oldestLookup`. The manager uses the backend it is given, or a fresh in-memory store when given none. Its flag is true because both backends define `get_oldest_request_time` (memory_backend.py:48, redis_backend.py:62).
- **Python conversions.** `int(value)` on a float truncates toward zero (`Trunc`). The truthiness of a stored ceiling is "present and nonzero" (`Truthy`).

Where the code falls short of what a rate limiter is expected to do, the model follows the code:

- **The ceiling is not a hard cap.** A sliding-window limiter is expected never to let a key exceed its ceiling. The docstring of `acquire_lock` (rate_limiter.py:124-125) says it blocks until the request can be made according to the rate limits. In the code, the window bound is closed (`>= now - time_window`) and the blocked-branch wait is `max(0, oldest + time_window - now)`.
  - `try_acquire`: when the oldest in-window timestamp sits exactly on the window start, a key at its ceiling gets a wait of 0 and one more admission is recorded. `Engine.AdmissionPastCeilingOnlyAtBoundary` proves this is the only way `try_acquire` passes the ceiling. `Engine.BoundaryAdmissionExample` exhibits a case: ceiling 1 per second, a stored timestamp `0.0`, admitted at `now = 1.0`, leaving two timestamps in the window as of that `now`.
  - `acquire_lock`: after a positive wait, the model records exactly when the oldest in-window timestamp reaches the window start. That timestamp is still in the closed window, so the window ending at the admission holds one more timestamp than the ceiling (`Engine.AdmitAfterWaitLandsOnBoundary`). `Engine.WaitedAdmissionExample`: ceiling 1 per second, a stored `0.5`, entered at `1.0`, recorded at `1.5` with two timestamps in the window.
  - Both counts are taken at the model's single clock reading. The real program reads the clock again before recording: `try_acquire` decides on the reading at rate_limiter.py:67 and records the one at rate_limiter.py:148, and `acquire_lock` reads it again after `time.sleep`. The record therefore normally lands a little later, when the boundary timestamp has already left the closed window, and the ceiling is passed only when the two readings coincide (a coarse clock, for instance).
- **A ceiling of 0 admits.** A ceiling of 0 with an empty window also gives a wait of 0 and admits (`Engine.ZeroCeilingAdmitsIntoEmptyWindow`).

## Model

| member | source | states |
|---|---|---|
| `MemoryBackend.Recorded` | memory_backend.py:14-21 | the store after `add_request` holds the key, with one more timestamp in its list than before and `t` among them (`MemoryBackend.RecordedAddsOne` gives the rest) |
| `MemoryBackend.Pruned` | memory_backend.py:34-46 | the store after `cleanup_old_requests` holds the key exactly when the old store did, and the key's list is no longer than before (`MemoryBackend.PrunedRemovesOnlyOld` gives the rest) |
| `SortedLog.Since` | memory_backend.py:29-32 | the in-window part of a log holds exactly the timestamps `>= windowStart` and is no longer than the log |
| `SortedLog.Before` | memory_backend.py:40-46 | the pruned-away part holds exactly the timestamps `< windowStart` |
| `SortedLog.AtMost` | memory_backend.py:21 | the prefix `insort` inserts after holds exactly the timestamps `<= t` |
| `SortedLog.WindowPartition` | memory_backend.py:31-32 | splitting a log at the window start loses and duplicates nothing: the two parts' multisets and lengths add up to the log's |
| `SortedLog.SinceSorted` | memory_backend.py:46 | the kept suffix of a sorted log is sorted |
| `SortedLog.SinceAgrees` | memory_backend.py:29-32 | two window starts that admit the same stored timestamps give the same in-window part |
| `SortedLog.SinceIdempotent` | memory_backend.py:34-46 | taking the in-window part twice is taking it once |
| `SortedLog.InsertSortedContents` | memory_backend.py:21 | sorted insertion adds exactly one copy of the timestamp: multiset grows by `{t}`, length by one |
| `SortedLog.InsertSortedKeepsOrder` | memory_backend.py:21 | sorted insertion into a sorted log keeps it sorted |
| `SortedLog.InsertSortedCount` | memory_backend.py:21 | an insertion raises a window count by one exactly when the timestamp is in the window |
| `SortedLog.InsertAtSplit` | memory_backend.py:21 | cutting at the `bisect_right` index and inserting there is sorted insertion after equal elements |
| `SortedLog.SplitBelowIsWindow` | memory_backend.py:31 | a `bisect_left` split index cuts the log exactly into the part before and the part in the window |
| `SortedLog.SplitAtMostIsPrefix` | memory_backend.py:21 | a `bisect_right` split index is preceded exactly by the elements `<= x` |
| `SortedLog.OldestSinceIsLeast` | memory_backend.py:48-60 | the oldest lookup answers the least stored timestamp `>= windowStart`, and `windowStart` itself when there is none |
| `SortedLog.BisectLeft` | memory_backend.py:31 | the binary search returns the index splitting elements `< x` from elements `>= x`; it equals the count of elements `< x` and the suffix from it is the in-window part |
| `SortedLog.BisectRight` | memory_backend.py:21 | the binary search returns the index splitting elements `<= x` from elements `> x`, the count of elements `<= x` |
| `SortedLog.Insort` | memory_backend.py:21 | `insort` yields a sorted list with one more copy of `t`, placed after equal elements |
| `MemoryBackend.RecordedAddsOne` | memory_backend.py:14-21 | recording keeps every list sorted, adds exactly one copy of `t` to the key (length + 1), creates `[t]` for an unseen key and leaves every other key alone |
| `MemoryBackend.PrunedRemovesOnlyOld` | memory_backend.py:34-46 | pruning removes exactly the timestamps `< windowStart`, keeps the rest in order so the window count is unchanged, is idempotent, is a no-op on an unknown key and never adds or removes a key |
| `MemoryBackend.PrunedKeyList` | memory_backend.py:34-46 | pruning keeps every list sorted and leaves the key exactly its in-window part; that part and the dropped part together are the old list |
| `MemoryBackend.PrunedFrame` | memory_backend.py:34-46 | pruning twice is pruning once, an unknown key is a no-op and no other key's list changes |
| `MemoryBackend.InMemoryBackend.constructor` | memory_backend.py:10-12 | a new store is empty and valid |
| `MemoryBackend.InMemoryBackend.AddRequest` | memory_backend.py:14-21 | `add_request` leaves the store equal to the old one with `t` inserted in order into the key's list, keeping every list sorted |
| `MemoryBackend.InMemoryBackend.GetRequestCount` | memory_backend.py:23-32 | `get_request_count` answers the number of stored timestamps `>= windowStart`, 0 for an unknown key, and changes nothing |
| `MemoryBackend.InMemoryBackend.CleanupOldRequests` | memory_backend.py:34-46 | `cleanup_old_requests` leaves the store equal to the old one pruned at `windowStart`, still sorted |
| `MemoryBackend.InMemoryBackend.GetOldestRequestTime` | memory_backend.py:48-60 | `get_oldest_request_time` answers the least stored timestamp `>= windowStart`, else `windowStart`, and changes nothing |
| `Engine.Decide` | rate_limiter.py:56-119 | `get_sleep_time` never lengthens the key's list; a positive wait leaves the store unchanged; with the oldest lookup the wait is never negative (`Engine.DecideEffect` and `Engine.DecideIsLocal` give the rest) |
| `Engine.TryAdmit` | rate_limiter.py:137-150 | a refusal happens only for a configured key and changes nothing; an admission of a configured key leaves `now` in its list; the list grows by at most one |
| `Engine.Admit` | rate_limiter.py:121-135 | `acquire_lock` records no earlier than it was entered; a configured key's list then holds the admission time; the list grows by at most one |
| `Engine.UsageOf` | rate_limiter.py:152-174 | the reported count is between 0 and the number of stored timestamps; the limit is the key's `max_requests`, or 0 for an unconfigured key |
| `Engine.DecideEffect` | rate_limiter.py:70-90 | below the ceiling the wait is 0 and only that key's old timestamps are pruned; at the ceiling the store is untouched and the wait is the blocked-branch wait; the window count and other keys never change |
| `Engine.BlockedWaitBounds` | rate_limiter.py:83-90 | the blocked wait with the oldest lookup is never negative; it is 0 exactly when the window is empty or its oldest timestamp is on the window start; it is at most one window when nothing is in the future |
| `Engine.ZeroWaitIff` | rate_limiter.py:63-87 | with the oldest lookup, a configured key's wait is 0 exactly when the key is below its ceiling or its oldest in-window timestamp sits on the window start (an empty window counts as such) |
| `Engine.DecideIdempotent` | rate_limiter.py:70-81 | deciding twice at the same instant gives the same wait and the same store as deciding once |
| `Engine.DecideIsLocal` | rate_limiter.py:56-119 | a decision depends only on the key's own history and never changes another key |
| `Engine.TryAdmitRecordsOnZeroWait` | rate_limiter.py:137-150 | `try_acquire` refuses exactly when the wait is positive and then records nothing; otherwise it records exactly one `now` for a configured key and nothing for an unconfigured one |
| `Engine.TryAdmitIsLocal` | rate_limiter.py:137-150 | `try_acquire`'s answer and effect depend only on the key's own history; other keys are untouched |
| `Engine.AdmissionWithinCeiling` | rate_limiter.py:73-81 | an admission taken below the ceiling raises the window count by exactly one, so it stays at most `max_requests` |
| `Engine.AdmittedUnderCeiling` | rate_limiter.py:137-150 | below the ceiling `try_acquire` admits and leaves the key its in-window timestamps with `now` inserted in order |
| `Engine.InsertIntoWindowCount` | rate_limiter.py:73-81 | recording `now` into a key's pruned list raises its window count by exactly one |
| `Engine.AdmissionPastCeilingOnlyAtBoundary` | rate_limiter.py:83-87 | a `try_acquire` admitted at the ceiling happens only when the oldest in-window timestamp sits exactly on the window start |
| `Engine.BoundaryAdmissionExample` | rate_limiter.py:68-87 | ceiling 1 per second, a stored `0.0` and `now = 1.0` admit, leaving two timestamps in the window |
| `Engine.ZeroCeilingAdmitsIntoEmptyWindow` | rate_limiter.py:73-87 | a ceiling of 0 with an empty window admits and records one timestamp |
| `Engine.AdmitRecordsOnce` | rate_limiter.py:121-135 | `acquire_lock` records exactly one timestamp, at `now + wait` after a positive wait and at `now` otherwise, for a configured key whatever the wait was, and nothing for an unconfigured key |
| `Engine.AdmitAfterWaitLandsOnBoundary` | rate_limiter.py:83-87 | after a positive wait `acquire_lock` records exactly one window after the oldest in-window timestamp, which is then still in the closed window, so the window count at the admission is one above the ceiling |
| `Engine.WindowFromOldest` | rate_limiter.py:83-87 | the oldest in-window timestamp is not before the window start, and a window starting at it holds the same timestamps |
| `Engine.WaitedInsertCount` | rate_limiter.py:83-87 | recording one window after the oldest in-window timestamp leaves the window ending there one timestamp fuller than the window the wait was computed in |
| `Engine.WaitedAdmissionExample` | rate_limiter.py:121-135 | ceiling 1 per second, a stored `0.5`, entered at `1.0`: recorded at `1.5`, leaving two timestamps in the window |
| `Engine.AdmitWithinOneWindow` | rate_limiter.py:83-87 | with the oldest lookup and no stored timestamp in the future, `acquire_lock` records no later than one window after entry |
| `Engine.UsageAgreesWithDecision` | rate_limiter.py:152-174 | the usage report's count is the count `get_sleep_time` compares: the key is below its ceiling exactly when `current < limit` |
| `Engine.SlidingWindowRateLimiter.constructor` | rate_limiter.py:40-44 | a new engine has an empty table over the given store |
| `Engine.SlidingWindowRateLimiter.SetRateLimit` | rate_limiter.py:46-49 | `set_rate_limit` upserts the key's ceiling; other keys and all history are unchanged |
| `Engine.SlidingWindowRateLimiter.GetSleepTime` | rate_limiter.py:56-119 | `get_sleep_time` answers the wait and leaves the store as `Decide` says; an unconfigured key gets 0 and nothing changes |
| `Engine.SlidingWindowRateLimiter.AcquireLock` | rate_limiter.py:121-135 | `acquire_lock` waits, then records the clock reading for a configured key, as `Admit` says |
| `Engine.SlidingWindowRateLimiter.TryAcquire` | rate_limiter.py:137-150 | `try_acquire` answers and records as `TryAdmit` says |
| `Engine.SlidingWindowRateLimiter.GetCurrentUsage` | rate_limiter.py:152-174 | `get_current_usage` answers `(0, 0)` for an unconfigured key, otherwise the in-window count and `max_requests`, reading only |
| `Coordination.TrackedKeyInjective` | rate_limiter_manager.py:45-58 | two dimensions of one resource never share a tracked key |
| `Coordination.KeysFor` | rate_limiter_manager.py:96-108 | the key list has one key per dimension, in order, and distinct dimensions give distinct keys |
| `Coordination.TrackedKeysDistinct` | rate_limiter_manager.py:96-108 | a key list built position by position from distinct dimensions has no repeated key |
| `Coordination.ApplicableKeysDistinct` | rate_limiter_manager.py:96-108 | the keys checked for a request type are pairwise distinct |
| `Coordination.Trunc` | rate_limiter_manager.py:46 | `int(value)` truncates toward zero: within one unit of the value, on the zero side |
| `Coordination.EntryFor` | rate_limiter_manager.py:45-58 | each supplied ceiling contributes at most one tuple, keyed `<resource>:...` with its dimension's window |
| `Coordination.LimitEntries` | rate_limiter_manager.py:43-58 | the configuration list has at most five entries, each keyed `<resource>:...` with a window of 1, 60 or 3600 seconds |
| `Coordination.NoEntriesIffNoCeiling` | rate_limiter_manager.py:43-61 | the configuration list is empty, and `configure_resource` raises, exactly when no ceiling is supplied |
| `Coordination.ConfigureSetsSuppliedCeilings` | rate_limiter_manager.py:45-74 | configuring sets each supplied ceiling's key to `(int(value), window)` with windows 1/60/3600/1/60 s; every other key, absent ceilings' keys included, is unchanged; no key is removed |
| `Coordination.MaxOf` | rate_limiter_manager.py:117 | `max` of a nonempty list is one of its elements and at least every element |
| `Coordination.DecideKeys` | rate_limiter_manager.py:112-115 | the decision sweep collects at most one wait per key and, with the oldest lookup, no negative wait |
| `Coordination.DecideResource` | rate_limiter_manager.py:78-117 | the resource's wait raises exactly for a configured resource with a request type other than "requests" and "tokens"; otherwise, with the oldest lookup, the wait is not negative |
| `Coordination.TryResource` | rate_limiter_manager.py:139-176 | the resource's `try_acquire` raises exactly for a configured resource with a request type other than "requests" and "tokens" |
| `Coordination.EnterResource` | rate_limiter_manager.py:239-270 | entering raises exactly for a configured resource with a request type other than "requests" and "tokens"; otherwise it records no earlier than `now` |
| `Coordination.UsageMap` | rate_limiter_manager.py:200-226 | the usage report is empty when no ceiling is truthy and holds no negative count (`Coordination.UsageListsTruthyCeilings` gives the entry of each truthy ceiling) |
| `Coordination.StatusOf` | rate_limiter_manager.py:178-228 | a status exists exactly for a configured resource, names it and carries both waits |
| `Coordination.IndependentWaitsAgree` | rate_limiter_manager.py:112-115 | keys whose decisions wait alike on two stores give the sweep the same list of waits |
| `Coordination.RequestSweepKeepsTokenWaits` | rate_limiter_manager.py:190-198 | the "requests" sweep leaves every "tokens" key deciding the same wait as before it |
| `Coordination.SweptKeyKeepsWait` | rate_limiter_manager.py:190-198 | a key decides the same wait on a store where its list is untouched and on one where its own decision already pruned it |
| `Coordination.TokensWaitAfterRequests` | rate_limiter_manager.py:190-198 | the status call's "tokens" wait, taken after the "requests" sweep, is the resource's "tokens" wait on the store as it was |
| `Coordination.DecideKeysWaits` | rate_limiter_manager.py:112-115 | deciding distinct keys one after another collects the waits each key gets on the starting store |
| `Coordination.DecideKeysHistories` | rate_limiter_manager.py:112-115 | after the sweep, a configured swept key holds the list its own decision leaves and every other key keeps its list |
| `Coordination.DecideKeysIndependent` | rate_limiter_manager.py:112-115 | deciding distinct keys one after another collects the same waits as deciding each against the starting store, and touches only the configured keys visited |
| `Coordination.IndependentWaitsMembers` | rate_limiter_manager.py:112-115 | the collected waits are exactly the waits of the configured applicable keys |
| `Coordination.DecideKeysSorted` | rate_limiter_manager.py:112-115 | the decision sweep keeps every list sorted |
| `Coordination.ResourceWaitIsMaxOfKeyWaits` | rate_limiter_manager.py:92-117 | a configured resource's wait is at least every configured applicable key's own wait and is one of them (or 0 when none is configured); it is never negative; each key is pruned exactly as its own decision would |
| `Coordination.TryKeysStopsAtRefusal` | rate_limiter_manager.py:171-174 | once a key refuses, the rest of the `try_acquire` sweep changes nothing |
| `Coordination.TryKeysFrame` | rate_limiter_manager.py:170-176 | the `try_acquire` sweep never changes the list of a key outside the sweep or of an unconfigured key |
| `Coordination.TryKeysSuccess` | rate_limiter_manager.py:170-176 | after a successful sweep over distinct keys every configured key was admitted and holds the list its own admission leaves |
| `Coordination.TryKeysFailure` | rate_limiter_manager.py:171-174 | a failed sweep over distinct keys has a first refusing key |
| `Coordination.RefusedAtExtends` | rate_limiter_manager.py:171-174 | a first refusal in a prefix of the sweep stays the first refusal when an untouched key follows |
| `Coordination.AdmittedExtends` | rate_limiter_manager.py:170-176 | one more configured key after a successful prefix is either admitted as on its own, keeping the prefix's records, or is the first refusal |
| `Coordination.TryKeysPartialRecords` | rate_limiter_manager.py:170-176 | on success every configured key was admitted and recorded; on failure there is a first refusing key, the keys before it keep their records, it and the later keys are untouched |
| `Coordination.RecordKeysEach` | rate_limiter_manager.py:267-270 | recording over distinct keys adds `t` once to each configured key and nothing elsewhere, keeping every list sorted |
| `Coordination.EnterRecordsEveryApplicableKey` | rate_limiter_manager.py:239-270 | entering the scoped context records the single clock reading taken after the wait (never before `now`) once into every configured applicable key, whichever key caused the wait |
| `Coordination.EnterAfterDecision` | rate_limiter_manager.py:239-270 | once the resource's wait is known, entering records at the clock reading after that wait into the keys of the request type, on the store the wait left |
| `Coordination.LabelsDistinct` | rate_limiter_manager.py:200-223 | the five usage labels are pairwise distinct, so no usage entry overwrites another |
| `Coordination.UsageListsTruthyCeilings` | rate_limiter_manager.py:200-226 | the usage report has an entry exactly for each truthy ceiling, holding that key's usage, and no other entries |
| `Coordination.UnknownResourceIsUnlimited` | rate_limiter_manager.py:89-90 | an unconfigured resource gets wait 0, a successful try and an admission at `now` without records, even for an invalid request type |
| `Coordination.InvalidRequestTypeRejected` | rate_limiter_manager.py:109-110 | for a configured resource any request type other than "requests" and "tokens" makes every operation raise without changes |
| `Coordination.DecideKeysKeepsUsage` | rate_limiter_manager.py:112-115 | a decision sweep never changes any key's usage count |
| `Coordination.StatusSweepsKeepUsage` | rate_limiter_manager.py:190-198 | the two status sweeps never raise, keep every list sorted and change no key's usage |
| `Coordination.StatusReportsCurrentUsage` | rate_limiter_manager.py:178-228 | the status of an unknown resource is empty; a configured one always carries both waits, each the resource's own wait for that request type on the store as it was, and the usage report `UsageMap` makes of the store as it was before the call, which has an entry for each truthy ceiling holding that key's usage; no usage key when none is truthy |
| `Manager.ConfigureKeepsCover` | rate_limiter_manager.py:63-74 | after configuring, every supplied ceiling of every configured resource still has its key in the engine's table |
| `Manager.CoveredUsageReportsTableLimit` | rate_limiter_manager.py:200-226 | when every configured ceiling has its key in the table, each truthy ceiling's usage entry reports that key's ceiling from the table and its window count |
| `Manager.RateLimiterManager.constructor` | rate_limiter_manager.py:11-22 | a new manager has no configurations and an empty table, over the given store or a fresh empty one |
| `Manager.RateLimiterManager.LimitList` | rate_limiter_manager.py:43-58 | the configuration list has one `(key, int(value), window)` entry per supplied ceiling, in the order rps, rpm, rph, tps, tpm |
| `Manager.RateLimiterManager.ConfigureResource` | rate_limiter_manager.py:27-76 | with no ceiling it raises and changes nothing; otherwise it stores the configuration and applies the list's ceilings in order, touching no history |
| `Manager.RateLimiterManager.KeysToCheck` | rate_limiter_manager.py:96-110 | the key list for "requests" or "tokens", and the raise for any other type |
| `Manager.RateLimiterManager.GetSleepTime` | rate_limiter_manager.py:78-117 | the resource's wait and the store it leaves are `DecideResource`'s, and a raise leaves the store alone |
| `Manager.RateLimiterManager.AcquireLock` | rate_limiter_manager.py:126-137 | answers a new scoped context for this manager, resource and request type |
| `Manager.RateLimiterManager.TryAcquire` | rate_limiter_manager.py:139-176 | the answer and the store it leaves are `TryResource`'s, and a raise leaves the store alone |
| `Manager.RateLimiterManager.GetResourceStatus` | rate_limiter_manager.py:178-228 | the status and the store it leaves are `StatusOf`'s |
| `Manager.RateLimiterManager.CurrentUsage` | rate_limiter_manager.py:200-226 | the usage dictionary is `UsageMap`'s, reading only |
| `Manager.MultiResourceLock.constructor` | rate_limiter_manager.py:234-237 | the context remembers its manager, resource and request type |
| `Manager.MultiResourceLock.Enter` | rate_limiter_manager.py:239-270 | entering waits and records as `EnterResource` says, and a raise leaves the store alone |
| `Manager.MultiResourceLock.RecordEach` | rate_limiter_manager.py:267-270 | the record loop adds `t` to the keys in turn, skipping unconfigured ones, as `RecordKeys` says, keeping the store sorted |
| `Manager.MultiResourceLock.Exit` | rate_limiter_manager.py:272-273 | leaving does nothing and never suppresses an exception in flight |

## Left out

- Threads and locks are not modelled. This covers the store's and the engine's `RLock`s, the manager's `_global_lock`, the per-key lock map and `_get_resource_lock`. Each operation is modelled as atomic, and races between a decision and its record are out of scope.
- The real clock is not modelled. Every clock read inside one call is the single `now` parameter. For example, `try_acquire` records at the same `now` its decision used, and a status call uses one `now` for both waits and the usage. Sleeping is an exact clock advance.
- Float rounding is not modelled: timestamps, windows and ceilings are exact reals.
- Logging and performance metrics are not modelled. This includes `log_rate_limit_event`, `log_performance_metrics` and the suffix-to-label mapping used only for logging.
- The backend interface (`RateLimiterBackend`) is not modelled as an abstract type. The model uses the in-memory store, and the `hasattr` fallback is the engine's `oldestLookup` flag.
- The Redis backend, the HTTP server, the logging configuration and the load test are not part of this model.
- `Engine.SlidingWindowRateLimiter.AcquireLock`: the Python method is a generator-based context manager. The model runs its entry part; its exit does nothing.
- `Manager.MultiResourceLock.Enter`: `__enter__` returns `None`. The model answers the clock reading it recorded at, which is what its contract is stated about.
- `Manager.RateLimiterManager.GetResourceStatus`: the status dictionary is the `Status` datatype, and `{}` is `None`. Absent dictionary keys are `None` fields. The guarded waits never raise, because their request types are literals, and `Coordination.StatusReportsCurrentUsage` proves this.
