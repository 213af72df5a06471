# Verified model of the Stevy job queue

This project models the job lifecycle engine of Stevy in Dafny 4.11 and proves properties of it: the `jobs` and
`queues` tables, the statements by which the Postgres and SQLite drivers change them, the retry arithmetic and paging
of the services above, and the scheduler loop. `dafny verify dfyconfig.toml` checks everything.

## How it is built

- `Jobs.dfy` says what every statement does to the tables: its WHERE clause on one row (`Where`), its SET clause
  (`Changed`), the column constraints (`Storable`), the statement over the whole table (`Apply`), what it returns
  (`Result`), and the choices a database is free to make (`Enabled`: the row a claim takes, which of several equally old
  rows a bounded batch takes). A run is any sequence of statements with a clock reading each; `At(c, s, steps, n)` is
  the store after n of them.
- `PGDriver.dfy` and `SQLiteDriver.dfy` hold one class per driver. Their methods update rows in place, in milliseconds
  and in whole seconds respectively, and are proved to do exactly what `Apply` and `Result` describe. Each driver keeps
  the log of its statements, and its `Valid` says that the tables are the end of that run, so every theorem about runs
  is one about the drivers (`Counts.LoggedTablesAreSound`). `Claims.dfy`, `Selection.dfy`, `Listing.dfy` and
  `Counts.dfy` contain the loops that stand for ORDER BY, LIMIT and GROUP BY.
- `Columns.dfy` and `Pausing.dfy` say in columns, clock readings and parameters what callers can rely on: what each
  statement leaves in every column of a row, what a query shows of it, and how long it stays.
- The remaining files prove what else follows over whole runs. `Lifecycle.dfy` and `WorstCase.dfy`: the ledger of a
  job and how often it changes status. `Timing.dfy`: due times, leases, and the skew between the drivers.
  `Concurrent.dfy`: claims in flight with row locks, and their serialisation. `Dialects.dfy`, `Leases.dfy`,
  `Reads.dfy`: the two drivers agree, and leftover leases are invisible. `Backoff.dfy`, `Service.dfy`,
  `Scheduler.dfy`, `Web.dfy`: the code above the drivers. `Ownership.dfy`: when a worker still holds the job it
  claimed. `FilterMiss.dfy`, `EarlyRetry.dfy`: runs, built with `SingleJob.dfy`, in which paging misses a job and a
  retry moves back in time. `JsonText.dfy`, `TimeText.dfy`, `TextOrder.dfy`: the texts SQLite stores.

Job ids are natural numbers, because a ULID is a 128-bit number written in an alphabet that keeps its order. The clock
is one integer, in milliseconds since 1970; the lock duration is in nanoseconds, as in Go. Durations and backoffs are
64-bit, and their arithmetic wraps. Payloads and results are opaque text. Random draws, clock readings, fresh ids and
the rows other transactions hold locked are parameters.

## Findings

- With exponential backoff and the default base delay, Postgres takes every backoff exactly up to attempt 22, because
  it is passed as a 32-bit integer; a job gets 25 attempts by default (`Backoff.DefaultBackoffOverflowsPostgres`).
  SQLite, on a clock before the year 5644, takes every one exactly up to attempt 38, after which the retry is due past
  the year 9999 and `datetime` gives NULL (`Backoff.DefaultBackoffOverflowsSQLite`). At attempts 55 to 63 the delay has
  wrapped: without jitter, both refuse the first seven, and the last two retry at once
  (`Backoff.WrappedDefaultBackoff`). A refused FailJob leaves the row running (`Backoff.PostgresRefusesExactly`,
  `Backoff.SQLiteRefusesExactly`).
- Delays keep growing from attempt to attempt exactly as long as they fit 64 bits (`Backoff.DelaysShrinkExactly`).
- A base delay large enough to wrap 64 bits makes the jittered delay panic (`Backoff.PanicsExactly`,
  `Backoff.WrapCanPanic`).
- Without jitter, a delay that wraps to a negative 32-bit number moves `scheduled_at` backwards on Postgres, and
  nothing else does (`Backoff.PolicyMovesBackExactly`, `Backoff.PolicyKeepsSchedule`). `EarlyRetry.RetryMovesBack` is a
  whole run: base delay 2^63 - 1024 ms, moved back by 2048 ms at attempt 2. SQLite never moves it back.
- A requested delay is kept exactly up to 9223372036854 ms. One millisecond more, and the job is scheduled 292 years in
  the past (`Service.DelayKeptExactly`, `Service.DelayCanPointBack`).
- Pausing a queue does not stop a claim in flight: it still starts its attempt when it commits, and this is the only way
  a job of a paused queue gains one (`Concurrent.PauseMissesClaimInFlight`, `Concurrent.PausedQueueGainsExactly`).
- A worker that reports on a job while another claim of it is in flight does not wait; it is told that the job is in the
  wrong state (`Concurrent.NamingHeldRowChangesNothing`).
- A worker whose lease has lapsed can complete the attempt another worker has started since, because no statement
  checks who reports (`Ownership.StaleWorkerEndsAttempt`). A worker heard of within every lease keeps its attempt, if
  nobody else reports on the job or cancels it (`Ownership.HeldUntilReported`).
- Leaving the priority out of a request ranks the job above every request with a priority below 75
  (`Service.PriorityOrder`, `Service.OutrankedJobWaits`).
- Failing a job that does not exist is reported as an internal error, not as not found (`Service.FailJobPostgres`,
  `Service.FailJobSQLite`).
- The documentation promises that a heartbeat at least once every lock duration keeps the lock. The lease is that long
  exactly for lock durations of whole milliseconds on Postgres and of whole seconds on SQLite
  (`Timing.DocumentedGapSafeExactly`). With a lock duration of 999 ms SQLite can fail a job claimed at 999 ms one
  millisecond later (`Timing.ReapedOnceLapsed`).
- The scheduler pass over HTTP promotes due jobs but never fails expired ones (`Web.RunSchedulerPostgres`,
  `Web.RunSchedulerSQLite`).
- Paging misses jobs that matched at the start exactly under filters for a status that jobs can leave; without a status
  and for completed, discarded and cancelled jobs it never does (`FilterMiss.FilterMissesExactly`).
- `jsonString` writes valid JSON exactly when the text has no control character other than newline, carriage return
  and tab (`JsonText.LiteralReadsBack`).

## Model

| member | source | states |
|---|---|---|
| Claims.SelectJob | internal/service/driver_pg.go:84-102 | the claim takes the least row by (priority, scheduled_at, id) among unlocked available due rows of the queue; none exactly when the queue is paused or no such row exists |
| Claims.PickUnique | internal/service/driver_pg.go:99-100 | the row a claim takes is determined by the tables |
| Claims.ClaimTakesFirst | internal/service/driver_pg.go:84-102 | the row a claim takes is available, due, unskipped and in an unpaused queue, and no such row has a lower priority number, with equal priority an earlier scheduled_at, or with both equal a smaller id |
| Claims.ClaimFindsNothing | internal/service/driver_sqlite.go:104-121 | a claim returns no row exactly on a paused queue or when no such row exists |
| Concurrent.LockTakesFirst | internal/service/driver_pg.go:93-102 | in a concurrent run, the row a claim locks comes first in that order among all unlocked ones |
| Concurrent.LockFindsNothing | internal/service/driver_pg.go:93-102 | a claim that locks nothing on an unpaused queue finds every waiting row locked |
| Pausing.PausedExactly | internal/service/driver_pg.go:325-338 | in every run a queue is paused exactly from a PauseQueue to the next ResumeQueue |
| Pausing.ResumedUntilPause | internal/service/driver_pg.go:333-336 | from a ResumeQueue on, and until the next PauseQueue, the queue is not paused |
| Pausing.ClaimFindsNothingExactly | internal/service/driver_pg.go:84-102 | in every run a claim finds nothing exactly between a pause and the next resume, or when no available due unlocked job of the queue exists |
| Pausing.QueueRowAfter | internal/service/driver_sqlite.go:362-375 | what each statement leaves in the row of a queue: upserting keeps the pause, pausing sets it, resuming clears it |
| Claims.DrainReturnsBacklogInOrder | internal/service/driver_pg.go:75-115 | n claims with n available jobs and nothing else running return exactly those jobs, each once, by priority, then scheduled_at, then id, and every later claim returns none |
| Claims.PausedQueueGainsNoAttempt | internal/service/driver_pg.go:84-93 | among statements run one at a time, no job of a queue gains an attempt between a pause and the next resume |
| Concurrent.PausedQueueGainsExactly | internal/service/driver_pg.go:84-103 | however many claims run at once, a job of a paused queue gains at most one attempt, and gains it exactly when a claim that locked it before the pause commits after it |
| Concurrent.PauseMissesClaimInFlight | internal/service/driver_pg.go:325-331 | whatever row a claim can lock, it starts an attempt of it even if the queue is paused before it commits |
| Concurrent.NamingHeldRowChangesNothing | internal/service/driver_pg.go:117-216 | complete, fail, heartbeat and promote on a row whose claim is uncommitted do not wait, change nothing and report the wrong state; only cancel waits |
| Concurrent.ResultAsSerialised | internal/service/driver_pg.go:117-233 | every other statement returns in a concurrent run what it returns in the serial history |
| Concurrent.ConcurrentRunSerialises | internal/service/driver_pg.go:83-103 | any interleaving of claims that lock, commit or abort, and of all other statements, ends in the store reached by running the statements one at a time, claims in lock order; left out are aborted claims and statements that named a row in flight |
| Concurrent.DeliveredAsSerialised | internal/service/driver_pg.go:83-109 | the row a claim returns at commit is the row its atomic statement returns in that serial history |
| Concurrent.CommitStartsAttempt | internal/service/driver_pg.go:87-101 | a committed claim starts exactly one new attempt of a row that is still available and in its queue |
| Concurrent.AttemptDeliveredOnce | internal/service/driver_pg.go:87-101 | no attempt of a job is delivered to two claims |
| Concurrent.LedgerUnderConcurrency | internal/service/driver_pg.go:83-103 | the ledger holds in every state of every concurrent run |
| Concurrent.StatusChangesBounded | internal/service/driver_pg.go:83-103 | no concurrent run changes the status of a job more than 3 * max_attempts + 1 times |
| Concurrent.OnTimeUnderConcurrency | internal/service/driver_pg.go:95-98 | however many claims run at once, available and running jobs are always due |
| Concurrent.BeatingJobNeverReaped | internal/service/driver_pg.go:154-195 | however many claims run at once, a job heard of at least every lease is never failed by expiry |
| Lifecycle.LedgerAlways | internal/service/driver_pg.go:117-233 | in every state of every run: attempted_by has length attempt, errors has length attempt while waiting and attempt-1 while running or completed, discarded means errors = attempt = max_attempts, waiting means attempts are left, finalized_at is set exactly in terminal statuses, result exactly when completed, progress stays within 0..100 |
| Lifecycle.RunExtends | internal/service/driver_pg.go:117-233 | rows are never lost, attempts never fall, settings never change, lists only grow, and a terminal row is frozen in every field |
| Columns.OthersUntouched | internal/service/driver_pg.go:117-233 | a statement changes no job but those it is about |
| Columns.Inserted | internal/service/driver_pg.go:34-72 | every column of a new job: priority 1 and 25 attempts by default, pending if asked for, otherwise available exactly when due |
| Columns.DuplicateRefused | internal/service/driver_pg.go:65-72 | an id that is taken is a database error and changes nothing |
| Columns.CreatedForGood | internal/service/driver_pg.go:65-72 | queue, kind, payload, metadata, priority, max_attempts and created_at stay as created in every later state |
| Columns.Claimed | internal/service/driver_pg.go:86-92 | every column after a claim, and that the row returned is the row as it then is |
| Columns.WorkerRecorded | internal/service/driver_pg.go:91 | the worker of attempt a is entry a of attempted_by in every later state |
| Columns.AttemptedAtStays | internal/service/driver_pg.go:90 | attempted_at is the time of the latest claim |
| Columns.Completed | internal/service/driver_pg.go:117-130 | CompleteJob succeeds exactly on a running job, storing the result handed in and the time |
| Columns.CompletedForGood | internal/service/driver_pg.go:117-130 | once CompleteJob has returned, every later state and query shows the job completed with that result, since that moment |
| Columns.FailedForRetry | internal/service/driver_pg.go:135-146 | every column of a job that is to be retried: the message, and scheduled_at as now plus the backoff (rounded up to seconds on SQLite) |
| Columns.RetryDueExactly | internal/service/driver_sqlite.go:156-166 | a failed job is due at a later clock reading exactly when its backoff has passed |
| Columns.FailedForGood | internal/service/driver_pg.go:135-144 | on its last attempt the job is discarded, keeping scheduled_at |
| Columns.FailReturns | internal/service/driver_pg.go:132-152 | which answer FailJob gives when |
| Columns.MessageForGood | internal/service/driver_pg.go:141-143 | the message given for attempt a is error a in every later state |
| Columns.Expired | internal/service/driver_pg.go:179-196 | expiry takes only running jobs whose lease has passed; every column afterwards |
| Columns.ExpiryForGood | internal/service/driver_pg.go:183-185 | its entry is error a of attempt a in every later state |
| Columns.Beaten | internal/service/driver_pg.go:154-173 | HeartbeatJob succeeds exactly on a running job with a progress in 0..100; every column afterwards |
| Columns.ProgressIsLatest | internal/service/driver_pg.go:160-163 | in every run the progress is that of the latest successful heartbeat that carried one |
| Columns.Released | internal/service/driver_pg.go:203-216 | PromoteJob succeeds exactly on a pending job, which becomes available exactly if it is due |
| Columns.Promoted | internal/service/driver_pg.go:346-356 | promotion takes only scheduled and retryable jobs that are due, and makes them available |
| Columns.Cancelled | internal/service/driver_pg.go:218-233 | CancelJob succeeds exactly on a job that is not completed, discarded or cancelled |
| Columns.CancelledForGood | internal/service/driver_pg.go:218-233 | once CancelJob has returned, the job is cancelled since that moment in every later state |
| Columns.PromotesEarliest | internal/service/driver_pg.go:348-355 | no due job left behind is due before one that was taken, and one is left behind only by a full batch |
| Columns.ExpiresEarliest | internal/service/driver_pg.go:188-195 | the same for expired leases |
| Columns.Shown | internal/service/driver_sqlite.go:471-505 | a query shows every column as it is, instants in milliseconds on both drivers |
| Lifecycle.AttemptEndsOnce | internal/service/driver_pg.go:117-152 | after an attempt ended the job only ever runs in a later attempt, so no attempt ends twice |
| Lifecycle.StatusChangesBounded | internal/service/driver_pg.go:117-233 | no run changes the status of a job more than 3 * max_attempts + 1 times |
| WorstCase.BoundIsReached | internal/service/driver_pg.go:203-216 | for every max_attempts a pending delayed job that always fails reaches that bound |
| Timing.OnTimeAlways | internal/service/driver_pg.go:95-98 | on a monotone clock every available or running job is due, so the time guard never hides an available job |
| Timing.ScheduleNeverMovesBack | internal/service/driver_pg.go:137-140 | no run moves a job's scheduled_at backwards, as long as no FailJob of it on Postgres gets a negative 32-bit backoff; on SQLite always |
| Backoff.PolicyMovesBackExactly | internal/service/driver_pg.go:139 | the policy moves some row back exactly when, without jitter, its delay has wrapped to a negative 32-bit number on Postgres |
| Backoff.PolicyKeepsSchedule | internal/service/job.go:129-133 | in every run in which the job's backoffs come from its policy, read earlier, and have not wrapped that way, its scheduled_at never moves back |
| EarlyRetry.RetryMovesBack | internal/service/job.go:154-157 | a run from empty tables in which the policy does move it back, by 2048 ms |
| Backoff.SQLiteRefusesExactly | internal/service/driver_sqlite.go:156-169 | FailJob fails on SQLite exactly when the row would be retried and the seconds come out negative or the retry is due past the year 9999; nothing changes then |
| Backoff.PostgresRefusesExactly | internal/service/driver_pg.go:132-140 | FailJob fails on Postgres exactly when the backoff does not fit 32 bits, whatever the row; nothing changes then |
| Timing.ClaimsSpacedByBackoff | internal/service/driver_pg.go:137-140 | after a failed attempt the next claim comes no earlier than the backoff on Postgres, and at most 999 ms earlier on SQLite |
| Timing.LapsedExactly | internal/service/driver_pg.go:189-192 | a running row has lapsed exactly when its last claim or heartbeat is more than the lock duration old |
| Timing.ReapedOnlyAfterGap | internal/service/driver_pg.go:154-195 | expiry only takes a job after a gap longer than the lease |
| Timing.BeatingJobNeverReaped | internal/service/driver_pg.go:154-195 | a job whose worker is heard of at least every lease (the lock duration, rounded down to seconds on SQLite) is never failed by expiry |
| Timing.GapSafeExactly | internal/service/driver_pg.go:154-195 | no run fails a job within a given gap exactly when the gap is at most the lease |
| Timing.DocumentedGapSafeExactly | README.md:136 | the lease is the lock duration exactly for whole milliseconds on Postgres and whole seconds on SQLite; cut to milliseconds, the lock duration is a safe gap exactly on Postgres and, on SQLite, for whole seconds |
| Ownership.HeldUntilReported | internal/service/driver_pg.go:117-195 | a worker heard of within every lease, while nobody else reports on or cancels the job, finds it running in the attempt it claimed, and completing it succeeds |
| Ownership.StaleWorkerEndsAttempt | internal/service/driver_pg.go:117-122 | a run from empty tables, on either driver, in which a worker without a lease completes the attempt of another |
| Timing.RetrySkew | internal/service/driver_sqlite.go:156-166 | the first millisecond a retry can be promoted on SQLite is within [-999,999] of Postgres for backoffs that are not negative, and every value occurs |
| Timing.DelaySkew | internal/service/driver_sqlite.go:91 | a delayed job is due on SQLite within [-999,0] of Postgres, and every value occurs |
| Timing.LapseSkew | internal/service/driver_sqlite.go:217 | a lease lapses on SQLite within [-999,999] of Postgres, within [0,999] for whole-second lock durations, and every value occurs |
| Dialects.SQLiteRefinesPostgres | internal/service/driver_sqlite.go:95-260 | on the whole-second grid, with retries up to the year 9999, any sequence of calls is possible on one driver exactly when on the other, returns the same results, and leaves the same tables up to the unit |
| Dialects.RetryRelated | internal/service/driver_sqlite.go:156-166 | on that grid both drivers retry at the same second exactly when the backoff is not negative and ends by the year 9999 |
| Reads.DialectsAnswerAlike | internal/service/driver_sqlite.go:262-446 | on such tables GetJob, ListJobs, QueueInfo, ListQueues (ordered by code point) and the counts answer alike on both drivers |
| Leases.LeftoverLeasesUnobserved | internal/service/driver_pg.go:117-201 | stores differing only in lock_expires_at of rows that do not run allow the same choices and give the same results at every step of every run |
| Reads.LeasesAnswerAlike | internal/service/driver_pg.go:235-323 | no query sees such a difference either |
| Backoff.ComputeBackoffMs | internal/service/job.go:139-165 | the delay is the (wrapping) policy value, or with jitter anything from half of it to twice that half, or a panic when the random source gets a non-positive bound |
| Backoff.DelayInRange | internal/service/job.go:154-163 | within range there is no panic and the delay lies between half the exact exponential delay and twice that half |
| Backoff.FixedDelay | internal/service/job.go:149-163 | every other policy waits the delay asked for, or a second, whatever the attempt; with jitter from half of it to twice that half; it never panics |
| Backoff.FixedDraws | internal/service/job.go:161-163 | every draw in that range can come up |
| Backoff.ExponentialDelay | internal/service/job.go:149-163 | within 64 bits the exponential delay is base * 2^(attempt-1), the base being the delay asked for or a second |
| Backoff.NoDelayBeforeFirstAttempt | internal/service/job.go:156-157 | for a job never claimed the exponential delay is 0 |
| Backoff.DelaysNeverShrink | internal/service/job.go:154-163 | within 64 bits, whatever is drawn, a later attempt never waits less |
| Backoff.DelaysShrinkExactly | internal/service/job.go:154-163 | the first attempt whose delay does not fit 64 bits is exactly where the delays stop growing: it waits less, or panics |
| Backoff.TotalDelayBounded | internal/service/job.go:154-163 | the delays of n attempts add up to at most base * (2^n - 1) |
| Backoff.PanicsExactly | internal/service/job.go:161-163 | the random source panics exactly when jitter is on and the delay has wrapped to -2 or below |
| Backoff.WrapCanPanic | internal/service/job.go:157 | a concrete base delay and attempt at which it does |
| Backoff.TakesExactly | internal/service/driver_sqlite.go:156-166 | which backoffs each database takes for a retry: 32 bits on Postgres; no negative seconds and nothing past the year 9999 on SQLite |
| Backoff.PolicyTakenExactly | internal/service/job.go:154-163 | for every policy, a database takes all draws exactly when it takes the longest one, and none exactly when it does not take the shortest |
| Backoff.DefaultBackoffOverflowsPostgres | internal/service/driver_pg.go:43-45 | with the default base delay every draw is taken exactly up to attempt 22, and none exactly from attempt 23 (with jitter 24) to 54 |
| Backoff.DefaultBackoffOverflowsSQLite | internal/service/driver_sqlite.go:156-166 | the same on SQLite up to attempt 38, and from attempt 39 (with jitter 40) |
| Backoff.WrappedDefaultBackoff | internal/service/job.go:157 | beyond, the wrapped default delay is refused by both databases at attempts 55 to 61 and taken at 62 and 63 |
| Backoff.StaleReadNeverWaitsLonger | internal/service/job.go:129-133 | with any statements between reading the attempt and failing the job, the attempt read and the backoff applied are at most those of the attempt failed |
| Listing.SelectPage | internal/service/driver_pg.go:381-389 | the greatest matching ids below the cursor, descending, as many as fit |
| Listing.PageColumns | internal/service/driver_pg.go:363-389 | a page holds only jobs of the queue and status asked for below the cursor, newest first, and misses such a job only when full of newer ones |
| Listing.ListJobs | internal/service/driver_pg.go:363-406 | the rows of that page, 50 for a non-positive limit |
| Listing.CutPage | internal/service/job.go:35-43 | fetching one row more and cutting it off gives the page for the limit |
| Listing.SteadyJobListedOnce | internal/service/driver_pg.go:363-389 | under any filter a job that matches whenever a page is read is returned exactly once, in descending id order |
| Listing.PagingMissesNothing | internal/service/driver_pg.go:363-389 | without a status, or with a terminal one, paging while driver statements run returns every job that matched at the start exactly once |
| FilterMiss.FilterMissesExactly | internal/service/driver_pg.go:371-380 | some run from empty tables misses such a job exactly when the filter has a status that jobs can leave |
| Listing.ReturnedExactly | internal/service/driver_pg.go:371-380 | under any filter a job is returned exactly when it matches at the moment the page covering its id is read |
| FilterMiss.StatusFilterCanMiss | internal/service/driver_pg.go:373-376 | for every such filter, a job cancelled after the first page is missed |
| Listing.PagingTerminates | internal/service/driver_pg.go:377-380 | when new ids land above the cursor, the full pages hold no more jobs than were present at the start |
| Listing.QuietListingIsUnique | internal/service/job.go:29-51 | on a table nobody changes every page size and stop rule yields the same list, all matching jobs by descending id |
| Listing.ShortPageEnds | internal/service/job.go:41-43 | a page with fewer jobs than the limit is the last |
| Web.EmptyCursorEnds | internal/web/web.go:137-142 | an empty NextCursor means nothing is left below the page |
| Web.Index | internal/web/web.go:137-158 | the page of 50, a cursor to the last id shown exactly when an older matching job exists, the counts, and their total |
| Web.StatusTotal | internal/web/web.go:153-158 | the status total is the number of jobs |
| Web.RunSchedulerPostgres | internal/web/web.go:382-390 | the HTTP pass promotes min(due, 1000) jobs and leaves every expired lease alone |
| Web.RunSchedulerSQLite | internal/web/web.go:382-390 | the same on the SQLite driver |
| Service.MakeOptions | internal/service/job.go:55-83 | what each request option becomes |
| Service.DelayKeptExactly | internal/service/job.go:67 | a delay survives the 64-bit arithmetic exactly up to 9223372036854 ms; beyond it the job is scheduled too early |
| Service.NewJobPriority | internal/service/driver_pg.go:38-41 | the priority column a requested priority ends up as |
| Service.PriorityOrder | internal/service/job.go:301-312 | exactly when a higher requested priority gets a row priority at least as good as a lower one |
| Service.OutrankedJobWaits | internal/service/driver_pg.go:94-102 | of two jobs a run created, no claim that could take the better-ranked one takes the other first, however long it has been due |
| Service.FailJobPostgres | internal/service/job.go:124-137 | the two statements run back to back: which reply is given when, the failure recorded with a delay of the policy, and nothing written when the job is missing or the random source panics |
| Service.FailJobSQLite | internal/service/job.go:124-137 | the same on the SQLite driver, which refuses other backoffs, and none of a job without attempts left |
| Service.ListJobs | internal/service/job.go:29-51 | the API returns exactly the page for the requested limit, 50 by default |
| Service.ListQueues | internal/service/queue.go:19-33 | one entry per queue in name order (by code point), whose eight numbers are its jobs by status and add up to all of them |
| Scheduler.TickPostgres | cmd/stevy/main.go:163-183 | at a fixed clock, with E expired and D due jobs, nothing is due or expired after ceil(E/1000) + max(ceil(D/1000), 1) ticks |
| Scheduler.TickSQLite | cmd/stevy/main.go:163-183 | the same loop on the SQLite driver |
| Scheduler.TicksNeeded | cmd/stevy/main.go:169-176 | the ticks left to do, for any batch limit: none exactly when nothing is due or expired, and at most ceil(expired/limit) + max(ceil(due/limit), 1) |
| Scheduler.CeilDiv | cmd/stevy/main.go:169-176 | taking up to limit rows at a time empties x rows in x / limit batches, rounded up |
| Scheduler.TickProgress | cmd/stevy/main.go:168-181 | every tick brings the loop one tick closer to idle, although failed jobs may become due again |
| Scheduler.PromoteTick | internal/service/driver_pg.go:346-356 | a promotion moves exactly min(due, limit) jobs and no lease |
| Scheduler.ReapTick | internal/service/driver_pg.go:179-196 | an expiry pass takes exactly min(expired, limit) jobs and makes at most that many due |
| Selection.SelectBatch | internal/service/driver_pg.go:188-195 | a bounded batch is as large as allowed and never leaves an earlier row behind while taking a later one |
| Counts.CountByStatus | internal/service/driver_pg.go:408-425 | an entry for exactly the statuses that occur, with their number |
| Counts.QueueInfo | internal/service/driver_pg.go:259-283 | the counts of one queue and whether it is paused; an unknown queue is empty and unpaused |
| Counts.ListQueues | internal/service/driver_pg.go:285-323 | every queue once, in name order (by code point), with its counts |
| Counts.StatsAddUp | internal/service/queue.go:50-61 | the eight statistics add up to the jobs counted: none is dropped |
| Counts.QueueCountsAddUp | internal/service/driver_pg.go:304-321 | per status, the counts of the queues add up to the counts over all jobs |
| Counts.QueuesAlwaysKnown | internal/service/driver_pg.go:27-30 | in every run the queue of every job is in the queues table |
| Counts.LoggedTablesAreSound | internal/service/driver_pg.go:117-233 | the tables of a driver object always obey the ledger and know every job's queue |
| JsonText.JsonString | internal/service/driver_sqlite.go:504-525 | the loop writes the escaped literal |
| JsonText.LiteralReadsBack | internal/service/driver_sqlite.go:504-525 | it is a valid literal (RFC 8259, section 7) exactly when no other control characters occur, and then reads back as the original |
| JsonText.EntryText | internal/service/driver_sqlite.go:499-502 | the entry is an object with the members at and message |
| JsonText.InsertAppends | internal/service/driver_sqlite.go:167 | inserting an entry into the stored text is appending it to the list |
| JsonText.LastErrorIsLatest | internal/service/job.go:314-321 | after a failure is recorded, lastError returns its message |
| TimeText.TextOrderIsTimeOrder | internal/service/driver_sqlite.go:26-31 | for years 0000 to 9999 stored texts compare as whole-second instants |
| TimeText.EveryDateInRange | internal/service/driver_sqlite.go:26 | the range is exactly the valid dates of those years |
| TimeText.LastSecondIsLast | internal/service/driver_sqlite.go:165 | counted from 1970, the range ends exactly at the second after which retries are refused |
| TimeText.ParseTimeTruncates | internal/service/driver_sqlite.go:28-31 | parsing a stored text gives the instant truncated to the second |
| TimeText.StampsCompareAsText | internal/service/driver_sqlite.go:118 | the text comparisons in the statements are the comparisons of stamps the driver model makes |
| PGDriver.Driver.CreateJob | internal/service/driver_pg.go:26-73 | upserts the queue, then inserts the row with its defaults and initial status |
| PGDriver.Driver.ClaimJob | internal/service/driver_pg.go:75-115 | runs the claim statement on an allowed row and returns it |
| PGDriver.Driver.CompleteJob | internal/service/driver_pg.go:117-130 | completes a running job, otherwise wrong state |
| PGDriver.Driver.FailJob | internal/service/driver_pg.go:132-152 | retries or discards a running job, otherwise wrong state; a database error outside 32 bits |
| PGDriver.Driver.HeartbeatJob | internal/service/driver_pg.go:154-173 | renews the lease, and the progress if given, of a running job; a database error for a progress outside 0..100 |
| PGDriver.Driver.FailExpiredJobs | internal/service/driver_pg.go:175-201 | fails a permitted batch of lapsed jobs and clears their leases |
| PGDriver.Driver.PromoteJob | internal/service/driver_pg.go:203-216 | releases a pending job to scheduled or available |
| PGDriver.Driver.CancelJob | internal/service/driver_pg.go:218-233 | cancels any job that is not terminal |
| PGDriver.Driver.PromoteScheduledJobs | internal/service/driver_pg.go:342-361 | makes a permitted batch of due jobs available |
| PGDriver.Driver.PauseQueue | internal/service/driver_pg.go:325-331 | pauses a queue, creating it if needed |
| PGDriver.Driver.ResumeQueue | internal/service/driver_pg.go:333-338 | resumes a known queue |
| SQLiteDriver.Driver.CreateJob | internal/service/driver_sqlite.go:44-93 | the same insert, its times cut to whole seconds |
| SQLiteDriver.Driver.ClaimJob | internal/service/driver_sqlite.go:95-137 | the same claim, nothing skipped, the lease in whole seconds rounded down |
| SQLiteDriver.Driver.CompleteJob | internal/service/driver_sqlite.go:139-153 | completes a running job, otherwise wrong state |
| SQLiteDriver.Driver.FailJob | internal/service/driver_sqlite.go:155-176 | retries or discards a running job, the backoff rounded up to whole seconds; a database error when they are negative |
| SQLiteDriver.Driver.HeartbeatJob | internal/service/driver_sqlite.go:178-200 | renews the lease, and the progress if given, of a running job; a database error for a progress outside 0..100 |
| SQLiteDriver.Driver.FailExpiredJobs | internal/service/driver_sqlite.go:202-227 | fails a permitted batch of lapsed jobs and clears their leases |
| SQLiteDriver.Driver.PromoteJob | internal/service/driver_sqlite.go:229-243 | releases a pending job to scheduled or available |
| SQLiteDriver.Driver.CancelJob | internal/service/driver_sqlite.go:245-260 | cancels any job that is not terminal |
| SQLiteDriver.Driver.PromoteScheduledJobs | internal/service/driver_sqlite.go:379-398 | makes a permitted batch of due jobs available |
| SQLiteDriver.Driver.PauseQueue | internal/service/driver_sqlite.go:362-368 | pauses a queue, creating it if needed |
| SQLiteDriver.Driver.ResumeQueue | internal/service/driver_sqlite.go:370-375 | resumes a known queue |

## Left out

- HTTP, RPC and template wiring, sessions, OAuth, API keys, users and workers: no effect on jobs beyond `last_seen_at`.
- Payload and result contents, timestamp conversion to protobuf, and the parsing of metadata JSON: opaque values.
- Database failures, SQL syntax, isolation effects beyond row locks, and skew between Go's clock and the database's: a
  statement is atomic and there is one clock. The SQLite claim puts an UPDATE inside a CTE, which its grammar does not
  allow; it is modelled by what it means.
- Readers between a claim's lock and its commit: the serial history covers every statement that writes.
- Counts as 32-bit integers: the model counts without overflow.
- Instants finer than a millisecond: Postgres keeps microseconds, the model milliseconds.
- Counts.ListQueues: orders queue names by code point, as SQLite does; Postgres orders them by the collation of the
  database, where '-' and '_' can sort differently. The same holds of Service.ListQueues and Reads.DialectsAnswerAlike.
- SQLite clock readings, leases and requested delays past the year 9999, where its datetime function returns NULL; for
  retries this is modelled.
- Whether SQLite's json function accepts other control characters, which differs between versions.
- Go's float64 rounding of a lock duration of many years in `Seconds()`, and of a metadata delay above 2^53.
- Surrogate escapes when reading JSON strings back: `jsonString` never writes an escape of that form.
- The dashboard's per-queue and per-job pages, which only copy fields.
