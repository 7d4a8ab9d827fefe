# Request table of the relay server

The server sits between originators, whose work requests it stores, and worker PCs, which fetch
pending requests, carry them out and report results. This project models that request table
and the lifecycle of a row in it: `pending`, optionally locked, then `success`, `failed` or
`timeout`, and finally deleted. The repository holds two independent versions of the store.

- `database.py` (`Database`, `DatabaseLifecycle`).
  - Rows are keyed by UNIQUE(genre, request_id).
  - Ids are minted by a per-genre counter and formatted as `{:05d}`.
  - Completion only applies to a `pending` row, so the first report wins.
  - `lock_request` is a conditional claim.
  - A stale-lock release works on `locked_at`.
  - A timeout sweep returns the rows it times out.
  - A retention purge deletes old terminal rows.
- `app.py` (`App`, `AppLifecycle`), the version the server runs.
  - Rows are keyed by `id` alone.
  - The id is the first five characters of a uuid.
  - Completion overwrites whatever the row holds, so the last report wins.
  - The release of stale locks is keyed on `created_at`.
  - A delete is scheduled 120 seconds after each insert.
  - The create endpoint validates its input.
  - The 60-second scheduler job releases stale locks and then times out old requests.

Each version is a class that holds the table as a `seq` of rows in rowid order. The
`database.py` class also holds the `counters` table as a `map`. Every SQL statement is a pure
function over the table snapshot, built from the generic `Tables.Select`, `Update`, `Delete`
and `SortBy`. A WHERE clause is a predicate on one row. A SET clause is a function from the old
row to the new one. Each method replaces the snapshot by the statement applied to it and returns
the statement's `rowcount` or result. The lemmas are about the statement functions.

Timestamps are integers, in microseconds (`Clock.Instant`). The source stores
`isoformat()` texts, which compare in chronological order. A NULL timestamp never satisfies
`< cutoff`. The current time and the uuid text are inputs of the operations that read them.
A status is the text a worker reported, held in one canonical representation (`Statuses.Parse`).
Both classes keep that as part of their invariant, next to the table's key constraint. The
`database.py` invariant also says the AUTOINCREMENT `id` column is a primary key whose values
were all issued by its sequence (`Database.RowIdsIssued`).

## Model

| member | source | states |
|---|---|---|
| Statuses.Parse | database.py:140-144 | the status text a worker reports is stored as given: reading it back yields the same text, and each text has exactly one representation |
| RequestIds.FormatCounter | database.py:87 | `f"{n:05d}"` of the counter is a digit text; its value and width are the two lemmas below |
| RequestIds.FormatCounterRoundTrip | database.py:84-87 | the counter value can be read back from the id it was formatted into |
| RequestIds.FormatCounterInjective | database.py:84-87 | two counter values give the same id exactly when they are equal |
| RequestIds.DecimalLength | database.py:87 | the decimal text of n has at most k digits exactly when n < 10^k |
| RequestIds.FormatCounterWidth | database.py:87 | `{:05d}` is a minimum width: exactly five digits below 100000, the plain decimal text (more than five digits) from 100000 on |
| RequestIds.Prefix | app.py:96 | Python's `s[:5]`: the first five characters, or the whole of a shorter text, and always a prefix of it |
| RequestIds.ZFill | app.py:96 | Python's `zfill`: a text at least as long as the width is unchanged; a shorter one becomes `Zeros(width - len)` followed by the text, or, with a leading sign, the sign, then `Zeros(width - len)`, then the rest |
| RequestIds.ZerosAreZeros | app.py:96 | every character of the padding text `Zeros(k)` is `'0'` |
| RequestIds.ZFillPadsWithZeros | app.py:96 | each padding character `zfill` inserts, before the text or between its sign and the rest, is `'0'` |
| RequestIds.UuidRequestId | app.py:96 | the id always has five characters, and for any text of at least five characters it is the first five (`zfill` does nothing) |
| Clock.MinutesBefore | app.py:222 | the cutoff `now - timedelta(minutes=m)` used by both release and timeout sweeps (also database.py:188 and 209): before now for a positive window, now itself for a zero one |
| Clock.DaysBefore | database.py:170 | the cutoff `now - timedelta(days=d)` of both retention purges (also app.py:266): before now for a positive window, and the same instant as d days' worth of minutes |
| Clock.LongerWindowEarlierCutoff | app.py:839-841 | at one instant a longer window gives a strictly earlier cutoff, so the 10-minute timeout cutoff precedes the 5-minute release cutoff |
| Database.RequestDetail | database.py:123-132 | None exactly when no row has that (genre, request_id); otherwise a row of the table with that key |
| Database.DetailIsTheRow | database.py:127-132 | under the UNIQUE(genre, request_id) constraint the lookup returns the one row with that key |
| Database.PendingRequests | database.py:110-121 | exactly the pending rows, projected to genre, request_id, callback_url and created_at, as a permutation sorted ascending by created_at |
| Database.UpdateKeepsRowIds | database.py:28 | an UPDATE that does not touch the `id` column keeps it a primary key whose values all came from the AUTOINCREMENT sequence |
| Database.DeleteKeepsRowIds | database.py:28 | a DELETE keeps the `id` column a primary key whose values all came from the sequence |
| Database.InsertKeepsRowIds | database.py:28 | an INSERT with the sequence's next value keeps the `id` column a primary key, with the sequence advanced by one |
| Database.InsertKeepsKeys | database.py:37 | an INSERT whose (genre, request_id) no row has yet keeps the UNIQUE constraint |
| Database.InsertKeepsMinted | database.py:84-108 | the row inserted with the freshly incremented counter value is minted, and every earlier row stays minted |
| Database.RequestStore.constructor | database.py:20-57 | a new database has no requests and exactly two genres, logincheckrequest and connectioncheck, whose counters are 0 |
| Database.RequestStore.NextRequestId | database.py:62-94 | a known genre's counter goes up by exactly 1, no other counter changes, and the new value is returned as `{:05d}`; an unknown genre gives GenreNotFound and every counter is left as it was |
| Database.RequestStore.CreateRequest | database.py:96-108 | appends exactly one pending, unlocked row with the minted id, the callback_url and created_at = now; the key is new, so the UNIQUE constraint keeps holding, and the lookup finds the new row; an unknown genre inserts nothing |
| Database.RequestStore.UpdateRequestStatus | database.py:134-149 | the table becomes the conditional completion applied to it, and the result is true exactly when a pending row with that key existed |
| Database.RequestStore.LockRequest | database.py:151-165 | the table becomes the conditional lock applied to it (a None pc id writes NULL), and the result is true exactly when a pending row with that key and no holder existed |
| Database.RequestStore.ReleaseStaleLocks | database.py:185-204 | the lock columns are cleared on exactly the matching rows, and the result is their number |
| Database.RequestStore.TimeoutOldRequests | database.py:206-235 | returns (genre, request_id, callback_url) of exactly the pending rows created before the cutoff, in table order, and times out exactly those rows |
| Database.RequestStore.CleanupOldRequests | database.py:167-183 | deletes exactly the terminal rows completed before the cutoff; the result is their number, and the table shrinks by that number |
| DatabaseLifecycle.FirstReportWins | database.py:140-149 | after a non-pending report, no row of that key matches any more, so a second report (any status, any pc, any time) returns false and changes nothing |
| DatabaseLifecycle.PendingReportKeepsRowOpen | database.py:140-144 | a report whose own status is `pending` leaves the row open to a later report |
| DatabaseLifecycle.ReportWithoutPendingRowIsNoop | database.py:140-149 | a report for an unknown or already-completed key matches no row and leaves the table unchanged |
| DatabaseLifecycle.CompletionIgnoresLockHolder | database.py:140-144 | a pending row locked by one pc is completed by another pc's report; `locked_by` becomes the reporter and `locked_at` is kept |
| DatabaseLifecycle.LockIsExclusive | database.py:155-165 | a lock sets holder and time on the matching row and changes no status; after a lock by a non-null pc, a second lock attempt by any pc matches nothing and changes nothing; a lock with a None pc id leaves the row claimable |
| DatabaseLifecycle.ReleaseOnlyFreesLocks | database.py:192-198 | the release changes no status and only the two lock columns; terminal rows are untouched; a released row can be locked again |
| DatabaseLifecycle.TimeoutSweepsExactlyOverdue | database.py:213-228 | exactly the overdue pending rows become `timeout`, completed now; every other row, terminal ones included, is unchanged; a second sweep with the same cutoff finds nothing |
| DatabaseLifecycle.TimeoutNeverReturnsTwice | database.py:213-235 | no request is returned by two successive sweeps, whatever cutoff the second uses |
| DatabaseLifecycle.PurgeDeletesOnlyExpired | database.py:174-178 | a non-terminal row survives the purge at any age, and so does any row not completed before the cutoff; a purged request can no longer be looked up |
| DatabaseLifecycle.CreatedRequestIsListed | database.py:102-118 | a newly inserted pending row is in the pending listing |
| DatabaseLifecycle.AllocateTwice | database.py:72-87 | two allocations for one genre return consecutive, hence distinct, values, and the counter goes up by 2 |
| DatabaseLifecycle.FirstReportWinsScenario | database.py:96-149 | on a new database the first logincheckrequest gets id 00001; a `success` report from pc-1 is accepted, a later `failed` report is refused, and the row keeps `success`, pc-1 and the first completion time |
| App.RequestDetail | app.py:132-157 | None exactly when no row has both that genre and that id; otherwise a row of the table with that genre and id |
| App.DetailIsTheRow | app.py:137-141 | under the PRIMARY KEY on `id` the lookup returns the one row with that id and genre |
| App.ValidateCreate | app.py:492-493 | the fields are accepted exactly when genre and callback_url are both present and non-empty |
| App.PendingListing | app.py:189-215 | exactly the pending rows, each with URL `base_url + "/api/request/" + genre + "/" + id`, as a permutation sorted ascending by created_at |
| App.RequestTable.constructor | app.py:70-92 | a new database has an empty table |
| App.RequestTable.CreateRequest | app.py:94-114 | the id is cut from the uuid text; a taken id gives DuplicateId and leaves the table unchanged; otherwise exactly one pending row, with that genre, callback_url, data and created_at = now, is appended, and the lookup finds it |
| App.RequestTable.DeleteRequestAfterTimeout | app.py:116-130 | the table becomes the delete applied to it, and the PRIMARY KEY keeps holding |
| App.RequestTable.UpdateRequestStatus | app.py:159-187 | the table becomes the unconditional report applied to it, and the result is true exactly when a row with that genre and id exists |
| App.RequestTable.GetPendingRequests | app.py:189-215 | the loop builds exactly the pending listing, which has one item per pending row |
| App.RequestTable.ReleaseStaleLocks | app.py:217-237 | the table becomes the requeue applied to it, and the result is the number of rows it matched |
| App.RequestTable.TimeoutOldRequests | app.py:239-259 | the table becomes the timeout sweep applied to it, and the result is the number of rows it matched |
| App.RequestTable.CleanupOldRequests | app.py:261-280 | deletes exactly the terminal rows completed before the cutoff; the result is their number, and the table shrinks by that number |
| App.RequestTable.ScheduledTasks | app.py:838-841 | the 60-second job is the release with a 5-minute cutoff followed by the timeout sweep with a 10-minute cutoff, both at the same now |
| App.RequestTable.CleanupTask | app.py:843-845 | the daily job is the purge with a 30-day cutoff |
| App.RequestTable.CreateRequestEndpoint | app.py:484-512 | a missing or empty genre or callback_url is answered BadRequest and inserts nothing; a taken id is answered ServerError and inserts nothing; otherwise one row is appended, and the answer is Created with the new id, except for a logincheckrequest whose truthy payload is not a JSON object, which is answered ServerError with the row kept |
| AppLifecycle.NonObjectPayloadScenario | app.py:495-511 | a logincheckrequest with a string payload is answered ServerError, yet its row is stored and pending |
| AppLifecycle.LaterReportOverwrites | app.py:170-178 | a second report for a key replaces everything the first wrote (the stored row is as if only the second had been made), and it is accepted exactly when the first was |
| AppLifecycle.ReportSetsCompletionOnlyForSuccessOrFailed | app.py:170-176 | a report sets status and locked_by of the row with that key; `completed_at` is now for `success` and `failed` and NULL for every other status; no other column and no other row changes |
| AppLifecycle.ReportedTimeoutIsNeverPurged | app.py:170-176 | a row a worker reports as `timeout` has no `completed_at`, and the purge keeps it for any cutoff |
| AppLifecycle.ReleaseRequeuesOnlyStaleLocks | app.py:224-228 | exactly the `locked` rows created before the cutoff become pending with no holder; every other row, terminal ones included, is unchanged; a second release finds nothing |
| AppLifecycle.TimeoutSweepsExactlyOverdue | app.py:246-250 | exactly the pending rows created before the cutoff become `timeout`, completed now; every other row, terminal ones included, is unchanged; a second sweep finds nothing |
| AppLifecycle.PurgeDeletesOnlyExpired | app.py:268-271 | a non-terminal row survives the purge at any age, and so does any row not completed before the cutoff; a purged request can no longer be looked up |
| AppLifecycle.AtMostOneWithKey | app.py:79 | under the PRIMARY KEY on `id`, at most one row matches a given genre and id |
| AppLifecycle.DeleteAfterTimeoutRemovesOnlyThatRow | app.py:122-126 | the delayed delete removes at most one row, whatever its status; it keeps every row with another key, the key cannot be looked up afterwards, and an absent key leaves the table unchanged |
| AppLifecycle.CreateThenDeleteRestores | app.py:102-122 | an insert followed by its own delayed delete, with nothing in between, restores the table |
| AppLifecycle.ScheduledTasksOutcome | app.py:838-841 | after one run, no row is `locked` with a creation time more than 5 minutes old and none is pending with one more than 10 minutes old; a lock more than 10 minutes old is released and timed out in the same run; terminal rows are untouched |
| AppLifecycle.LastReportWinsScenario | app.py:94-187 | the id is the uuid's first five characters; an empty genre is refused and inserts nothing; a `success` report and a later `failed` report from another pc are both accepted, and the row ends `failed`, held by the second pc, with the second report's time |

## Left out

- SQLite connections, the `get_db` context manager, and `BEGIN IMMEDIATE`, commit and rollback. Each statement is modelled by its effect on the table. The rollback in `get_next_request_id` is the unchanged counters on the error path.
- Concurrency. `threading.Timer` runs the 120-second delete, a `BackgroundScheduler` triggers the two jobs, and the Telegram thread runs on its own. Each of these is modelled as a sequential call of its body. Races between the SELECT and the UPDATE of `timeout_old_requests` in database.py are not modelled.
- The real clock and uuid randomness. `now` and the uuid text are parameters.
- Database.RequestStore.TimeoutOldRequests: the sweep is modelled with one `now`. The source reads the clock twice, once for the threshold and once for `completed_at`, microseconds apart.
- App.RequestTable.TimeoutOldRequests: the sweep is modelled with one `now`, like the database.py sweep; the source reads the clock twice.
- App.RequestTable.ScheduledTasks: the release and the timeout sweep run at one `now`. The source reads the clock separately in each (app.py:222, 244 and 250), microseconds apart, so the two cutoffs are not exactly 5 minutes apart in the source.
- Flask routing, JSON parsing and serialisation (`json.dumps` of the payload, `json.loads` in the detail endpoint), HTTP status codes other than the modelled 201/400/500, and the inline HTML pages. The payload is passed to `create_request` as already-serialised text, or None.
- The routes other than the create endpoint. Each calls one modelled table function, but each also does something of its own that is not modelled:
  - `get_request_endpoint` answers the detail, with `data` decoded by `json.loads` when it parses, or 404.
  - `get_request_result` answers a few columns of the detail, or 404.
  - `complete_request` takes `status` defaulting to `'failed'` and `pc_id` defaulting to `'unknown'`. It ignores the result of `update_request_status` and answers `{'success': True}` even when no row matched.
  - `get_pending_requests_endpoint` passes the host URL without its trailing `/` as `base_url`.
  - `receive_response` passes `status` and `pc_id` as received, JSON null included, and answers whether a row was updated. A NULL `status` is not modelled: statuses are texts.
- Telegram notifications: network I/O. This includes the message sent from the create endpoint and the `/test-telegram` route. The one effect of that step the model keeps is the exception raised when a login-check payload is not a JSON object (`NotificationRaises`).
- The account and two-factor-authentication subsystem of app.py. It is a separate JSON-file store, outside the request table.
- Outbound callback delivery. No code in these files sends anything to `callback_url`, so there is nothing to model.
- config.py only reads environment variables and holds constants that neither store uses. The thresholds are parameters (5, 10 and 30 in the scheduled jobs).
- The order of rows with equal `created_at` in the pending listings. SQLite leaves it unspecified; the model keeps table order, which is one of the orders SQLite may return.

## Behaviour of the code worth knowing

The model reproduces these behaviours of the code as they are:

- app.py completion is unconditional, so the last report wins.
- database.py sets `completed_at` for every reported status, `pending` included.
- app.py sets it only for `success` and `failed`, so a reported `timeout` row has no `completed_at` and is never purged.
- app.py releases `locked` rows by `created_at`, not by `locked_at`.
- The app.py create endpoint can answer 500 after the row has been stored.
