/** Small helper types shared by every module. */
module Wrappers {
  datatype Option<+T> = None | Some(value: T)
}

/**
 The `jobs` and `queues` tables and the statements that change them.

 A statement is split the way SQL splits it: `Where` is its WHERE clause on one row, `Changed` is its SET clause,
 `Storable` are the column constraints the new row must meet, and `Apply` runs it over the whole table.  The two drivers
 differ only in the instants they write and compare (`Stamp`, `LeaseEnd`, `RetryAt`).
 */
module Jobs {
  import opened Wrappers

  /** A ULID is a 128-bit number in a fixed-width, order-preserving alphabet. */
  type JobId = nat

  type Json = string

  // ----- 64-bit integers -----

  const MAX_INT64: int := 0x7fff_ffff_ffff_ffff

  type Int64 = x: int | -0x8000_0000_0000_0000 <= x <= MAX_INT64

  /** A duration in milliseconds, as requests carry it. */
  type Millis = x: int | 0 <= x <= MAX_INT64

  /** Two's-complement wrap-around of 64-bit integer arithmetic. */
  function Wrap64(x: int): (w: Int64)
    ensures -0x8000_0000_0000_0000 <= x <= MAX_INT64 ==> w == x
  {
    (x + 0x8000_0000_0000_0000) % 0x1_0000_0000_0000_0000 - 0x8000_0000_0000_0000
  }

  /** Go's integer division, which truncates toward zero. */
  function TruncDiv(x: int, y: nat): int
    requires y > 0
  {
    if x >= 0 then x / y else -((-x) / y)
  }

  // ----- rows -----

  datatype Status = Pending | Scheduled | Available | Running | Retryable | Completed | Discarded | Cancelled

  predicate Terminal(st: Status) {
    st.Completed? || st.Discarded? || st.Cancelled?
  }

  predicate Waiting(st: Status) {
    st.Pending? || st.Scheduled? || st.Available? || st.Retryable?
  }

  /** The retry settings kept in a job's metadata; an absent key reads as its zero value. */
  datatype Metadata = Metadata(backoffType: string, backoffDelay: Option<Millis>, backoffJitter: bool)

  /** `at` is a clock reading in milliseconds in both dialects. */
  datatype ErrorEntry = ErrorEntry(at: nat, message: string)

  datatype Job = Job(
    queue: string,
    kind: string,
    status: Status,
    priority: nat,
    attempt: nat,
    maxAttempts: nat,
    progress: int,
    payload: Json,
    metadata: Metadata,
    result: Option<Json>,
    errors: seq<ErrorEntry>,
    attemptedBy: seq<string>,
    createdAt: nat,
    scheduledAt: int,
    attemptedAt: Option<nat>,
    finalizedAt: Option<nat>,
    lockExpiresAt: Option<nat>)

  datatype QueueRow = QueueRow(pausedAt: Option<nat>, createdAt: nat, updatedAt: nat)

  datatype Store = Store(jobs: map<JobId, Job>, queues: map<string, QueueRow>)

  const EMPTY := Store(map[], map[])

  // ----- time -----

  datatype Dialect = Postgres | SQLite

  /** `lockNs` is the configured lock duration, a Go time.Duration. */
  datatype Config = Config(dialect: Dialect, lockNs: nat)

  /** What NOW() (milliseconds) or CURRENT_TIMESTAMP (whole seconds) stores at clock reading t. */
  function Stamp(d: Dialect, t: int): (u: int)
    ensures t >= 0 ==> u >= 0
  {
    if d.Postgres? then t else t / 1000
  }

  function LeaseEnd(c: Config, t: nat): nat {
    if c.dialect.Postgres? then t + c.lockNs / 1_000_000 else t / 1000 + c.lockNs / 1_000_000_000
  }

  /** The whole seconds SQLite waits, rounded up by integer arithmetic. */
  function BackoffSec(backoffMs: Int64): int {
    TruncDiv(Wrap64(backoffMs + 999), 1000)
  }

  /** 9999-12-31 23:59:59 in seconds since 1970, the last instant SQLite's datetime can name. */
  const LAST_SECOND: int := 253_402_300_799

  /** The instant a retry is due; None is the NULL that SQLite makes of the modifier '+-n seconds' and of any later
      instant. */
  function RetryAt(d: Dialect, t: nat, backoffMs: Int64): Option<int> {
    if d.Postgres? then Some(t + backoffMs)
    else if BackoffSec(backoffMs) < 0 || t / 1000 + BackoffSec(backoffMs) > LAST_SECOND then None
    else Some(t / 1000 + BackoffSec(backoffMs))
  }

  const MAX_INT32: int := 0x7fff_ffff
  const MIN_INT32: int := -0x8000_0000

  /** Postgres takes the backoff as a 32-bit parameter and errors beyond it. */
  predicate Accepts(d: Dialect, backoffMs: Int64) {
    d.Postgres? ==> MIN_INT32 <= backoffMs <= MAX_INT32
  }

  // ----- one row -----

  /** One statement as it reaches one row; a statement refused for its parameters reaches none.
      The instants are in stored units. */
  datatype Change =
    | Claim(worker: string, at: nat, lease: nat)
    | Complete(result: Json, at: nat)
    | Fail(entry: ErrorEntry, at: nat, retryAt: Option<int>)
    | Reap(entry: ErrorEntry, at: nat)
    | Beat(progress: Option<int>, lease: nat)
    | Release(at: nat)
    | Promote(at: nat)
    | Cancel(at: nat)

  /** The WHERE clause. */
  predicate Where(j: Job, c: Change) {
    match c
    case Claim(_, at, _) => j.status.Available? && j.scheduledAt <= at
    case Complete(_, _) => j.status.Running?
    case Fail(_, _, _) => j.status.Running?
    case Reap(_, at) => Lapsed(j, at)
    case Beat(_, _) => j.status.Running?
    case Release(_) => j.status.Pending?
    case Promote(at) => Due(j, at)
    case Cancel(_) => !Terminal(j.status)
  }

  /** The column constraints: scheduled_at is NOT NULL, and CHECK keeps progress in 0..100. */
  predicate Storable(j: Job, c: Change) {
    match c
    case Fail(_, _, retryAt) => retryAt.Some? || j.attempt >= j.maxAttempts
    case Beat(progress, _) => progress.Some? ==> 0 <= progress.value <= 100
    case _ => true
  }

  /** The row matches, and the statement does not fail on it. */
  predicate Allowed(j: Job, c: Change) {
    Where(j, c) && Storable(j, c)
  }

  function Changed(j: Job, c: Change): Job {
    match c
    case Claim(worker, at, lease) =>
      j.(status := Running, attempt := j.attempt + 1, attemptedAt := Some(at),
         attemptedBy := j.attemptedBy + [worker], lockExpiresAt := Some(lease))
    case Complete(result, at) =>
      j.(status := Completed, finalizedAt := Some(at), result := Some(result))
    case Fail(entry, at, retryAt) => Retried(j, entry, at, retryAt)
    case Reap(entry, at) => Retried(j, entry, at, Some(at)).(lockExpiresAt := None)
    case Beat(progress, lease) =>
      j.(lockExpiresAt := Some(lease), progress := if progress.Some? then progress.value else j.progress)
    case Release(at) =>
      j.(status := if j.scheduledAt > at then Scheduled else Available)
    case Promote(_) => j.(status := Available)
    case Cancel(at) =>
      j.(status := Cancelled, finalizedAt := if j.finalizedAt.Some? then j.finalizedAt else Some(at))
  }

  /** The CASE arms shared by FailJob and FailExpiredJobs. */
  function Retried(j: Job, entry: ErrorEntry, at: nat, retryAt: Option<int>): Job {
    var last := j.attempt >= j.maxAttempts;
    j.(status := if last then Discarded else Retryable,
       scheduledAt := if last || retryAt.None? then j.scheduledAt else retryAt.value,
       errors := j.errors + [entry],
       finalizedAt := if last then Some(at) else None)
  }

  predicate Due(j: Job, now: nat) {
    (j.status.Scheduled? || j.status.Retryable?) && j.scheduledAt <= now
  }

  predicate Lapsed(j: Job, now: nat) {
    j.status.Running? && j.lockExpiresAt.Some? && j.lockExpiresAt.value < now
  }

  predicate Eligible(j: Job, queue: string, now: nat) {
    j.queue == queue && j.status.Available? && j.scheduledAt <= now
  }

  datatype CreateOpts = CreateOpts(
    queue: string,
    kind: string,
    payload: Json,
    metadata: Metadata,
    maxAttempts: nat,
    priority: nat,
    scheduledAt: Option<int>,
    pending: bool)

  /** The inserted row; readAt, comparedAt and at are the three clock readings of CreateJob, in order. */
  function NewJob(d: Dialect, o: CreateOpts, readAt: nat, comparedAt: nat, at: nat): Job {
    var scheduled := if o.scheduledAt.Some? then o.scheduledAt.value else readAt;
    Job(o.queue, o.kind,
        if o.pending then Pending else if scheduled > comparedAt then Scheduled else Available,
        if o.priority == 0 then 1 else o.priority,
        0,
        if o.maxAttempts == 0 then 25 else o.maxAttempts,
        0, o.payload, o.metadata, None, [], [],
        Stamp(d, at), Stamp(d, scheduled), None, None, None)
  }

  // ----- choosing rows -----

  predicate Paused(s: Store, queue: string) {
    queue in s.queues && s.queues[queue].pausedAt.Some?
  }

  /** ORDER BY priority, scheduled_at, id. */
  predicate KeyLe(a: Job, aid: JobId, b: Job, bid: JobId) {
    a.priority < b.priority
    || (a.priority == b.priority
        && (a.scheduledAt < b.scheduledAt || (a.scheduledAt == b.scheduledAt && aid <= bid)))
  }

  predicate Candidate(s: Store, queue: string, now: nat, skip: set<JobId>, id: JobId) {
    id in s.jobs && id !in skip && Eligible(s.jobs[id], queue, now)
  }

  /** The row ClaimJob may take: the least candidate, or none when the queue is paused or has no candidate. */
  ghost predicate IsPick(s: Store, queue: string, now: nat, skip: set<JobId>, pick: Option<JobId>) {
    match pick
    case None => Paused(s, queue) || forall id :: !Candidate(s, queue, now, skip, id)
    case Some(p) =>
      && !Paused(s, queue)
      && Candidate(s, queue, now, skip, p)
      && forall id :: Candidate(s, queue, now, skip, id) ==> KeyLe(s.jobs[p], p, s.jobs[id], id)
  }

  /** Rows PromoteScheduledJobs may take, with the instant they are ordered by. */
  function DueRows(jobs: map<JobId, Job>, now: nat): map<JobId, int> {
    map id | id in jobs && Due(jobs[id], now) :: jobs[id].scheduledAt
  }

  /** Rows FailExpiredJobs may take, with the instant they are ordered by. */
  function LapsedRows(jobs: map<JobId, Job>, now: nat): map<JobId, int> {
    map id | id in jobs && Lapsed(jobs[id], now) :: jobs[id].lockExpiresAt.value
  }

  function BatchLimit(limit: int): (n: nat)
    ensures n > 0
  {
    if limit <= 0 then 1000 else limit
  }

  /** ORDER BY the instant LIMIT n: as many rows as allowed, none later than a row left behind; ties are free. */
  ghost predicate IsBatch(rows: map<JobId, int>, n: nat, batch: set<JobId>) {
    && batch <= rows.Keys
    && |batch| == (if |rows| < n then |rows| else n)
    && forall a, b :: a in batch && b in rows && b !in batch ==> rows[a] <= rows[b]
  }

  // ----- statements over the tables -----

  /** `skip` holds the rows locked by other transactions (always empty on SQLite). */
  datatype Event =
    | UpsertQueue(name: string)
    | InsertJob(id: JobId, opts: CreateOpts, readAt: nat, comparedAt: nat)
    | ClaimJob(queue: string, worker: string, skip: set<JobId>, pick: Option<JobId>)
    | CompleteJob(id: JobId, result: Json)
    | FailJob(id: JobId, message: string, backoffMs: Int64)
    | HeartbeatJob(id: JobId, progress: Option<int>)
    | FailExpiredJobs(limit: int, skip: set<JobId>, batch: set<JobId>)
    | PromoteJob(id: JobId)
    | CancelJob(id: JobId)
    | PromoteScheduledJobs(limit: int, skip: set<JobId>, batch: set<JobId>)
    | PauseQueue(name: string)
    | ResumeQueue(name: string)

  /** A statement together with the clock reading it runs at. */
  datatype Step = Step(at: nat, event: Event)

  const LOCK_EXPIRED := "job lock expired"

  function ChangeFor(c: Config, st: Step, id: JobId): Option<Change> {
    var now := Stamp(c.dialect, st.at);
    match st.event
    case ClaimJob(_, worker, _, pick) =>
      if pick == Some(id) then Some(Claim(worker, now, LeaseEnd(c, st.at))) else None
    case CompleteJob(i, result) => if i == id then Some(Complete(result, now)) else None
    case FailJob(i, message, backoffMs) =>
      if i == id && Accepts(c.dialect, backoffMs)
      then Some(Fail(ErrorEntry(st.at, message), now, RetryAt(c.dialect, st.at, backoffMs))) else None
    case HeartbeatJob(i, progress) => if i == id then Some(Beat(progress, LeaseEnd(c, st.at))) else None
    case FailExpiredJobs(_, _, batch) =>
      if id in batch then Some(Reap(ErrorEntry(st.at, LOCK_EXPIRED), now)) else None
    case PromoteJob(i) => if i == id then Some(Release(now)) else None
    case CancelJob(i) => if i == id then Some(Cancel(now)) else None
    case PromoteScheduledJobs(_, _, batch) => if id in batch then Some(Promote(now)) else None
    case _ => None
  }

  function RowAfter(c: Config, st: Step, id: JobId, j: Job): Job {
    var ch := ChangeFor(c, st, id);
    if ch.Some? && Allowed(j, ch.value) then Changed(j, ch.value) else j
  }

  function JobsAfter(c: Config, jobs: map<JobId, Job>, st: Step): map<JobId, Job> {
    var kept := map id | id in jobs :: RowAfter(c, st, id, jobs[id]);
    match st.event
    case InsertJob(id, opts, readAt, comparedAt) =>
      if id in jobs then kept else kept[id := NewJob(c.dialect, opts, readAt, comparedAt, st.at)]
    case _ => kept
  }

  function QueuesAfter(c: Config, queues: map<string, QueueRow>, st: Step): map<string, QueueRow> {
    var now := Stamp(c.dialect, st.at);
    match st.event
    case UpsertQueue(name) =>
      queues[name := if name in queues then queues[name].(updatedAt := now) else QueueRow(None, now, now)]
    case PauseQueue(name) =>
      queues[name := if name in queues then queues[name].(pausedAt := Some(now), updatedAt := now)
                     else QueueRow(Some(now), now, now)]
    case ResumeQueue(name) =>
      if name in queues then queues[name := queues[name].(pausedAt := None, updatedAt := now)] else queues
    case _ => queues
  }

  function Apply(c: Config, s: Store, st: Step): Store {
    Store(JobsAfter(c, s.jobs, st), QueuesAfter(c, s.queues, st))
  }

  /** The choices a database may make for the step: the claimed row, the batch. */
  ghost predicate Enabled(c: Config, s: Store, st: Step) {
    var now := Stamp(c.dialect, st.at);
    match st.event
    case InsertJob(_, _, readAt, comparedAt) => readAt <= comparedAt <= st.at
    case ClaimJob(queue, _, skip, pick) => IsPick(s, queue, now, skip, pick)
    case FailExpiredJobs(limit, skip, batch) =>
      IsBatch(LapsedRows(s.jobs, now) - skip, BatchLimit(limit), batch)
    case PromoteScheduledJobs(limit, skip, batch) =>
      IsBatch(DueRows(s.jobs, now) - skip, BatchLimit(limit), batch)
    case _ => true
  }

  // ----- what callers see -----

  /** A stored instant as the millisecond it names. */
  function Instant(d: Dialect, stored: int): (t: int)
    ensures stored >= 0 ==> t >= 0
  {
    if d.Postgres? then stored else 1000 * stored
  }

  function OptInstant(d: Dialect, stored: Option<nat>): Option<nat> {
    if stored.Some? then Some(Instant(d, stored.value)) else None
  }

  /** The columns every query returns: all but attempted_by and lock_expires_at. */
  datatype JobRow = JobRow(
    id: JobId, queue: string, kind: string, status: Status, priority: nat, attempt: nat, maxAttempts: nat,
    progress: int, payload: Json, metadata: Metadata, result: Option<Json>, errors: seq<ErrorEntry>,
    createdAt: nat, scheduledAt: int, attemptedAt: Option<nat>, finalizedAt: Option<nat>)

  function View(d: Dialect, id: JobId, j: Job): JobRow {
    JobRow(id, j.queue, j.kind, j.status, j.priority, j.attempt, j.maxAttempts,
           j.progress, j.payload, j.metadata, j.result, j.errors,
           Instant(d, j.createdAt), Instant(d, j.scheduledAt),
           OptInstant(d, j.attemptedAt), OptInstant(d, j.finalizedAt))
  }

  /** What a statement returns: nothing but success, a row, no row, the number of rows changed, or an error. */
  datatype Outcome = Done | Row(row: JobRow) | NoRow | Affected(count: nat) | ErrWrongState | ErrDatabase

  function RowOutcome(c: Config, s: Store, st: Step, id: JobId): Outcome {
    var ch := ChangeFor(c, st, id);
    if ch.None? then ErrDatabase
    else if id !in s.jobs || !Where(s.jobs[id], ch.value) then ErrWrongState
    else if Storable(s.jobs[id], ch.value) then Done
    else ErrDatabase
  }

  function Result(c: Config, s: Store, st: Step): Outcome {
    match st.event
    case InsertJob(id, _, _, _) =>
      if id in s.jobs then ErrDatabase else Row(View(c.dialect, id, Apply(c, s, st).jobs[id]))
    case ClaimJob(_, _, _, pick) =>
      if pick.Some? && pick.value in s.jobs
      then Row(View(c.dialect, pick.value, Apply(c, s, st).jobs[pick.value]))
      else NoRow
    case FailJob(id, _, _) => RowOutcome(c, s, st, id)
    case CompleteJob(id, _) => RowOutcome(c, s, st, id)
    case HeartbeatJob(id, _) => RowOutcome(c, s, st, id)
    case PromoteJob(id) => RowOutcome(c, s, st, id)
    case CancelJob(id) => RowOutcome(c, s, st, id)
    case FailExpiredJobs(_, _, batch) => Affected(|batch|)
    case PromoteScheduledJobs(_, _, batch) => Affected(|batch|)
    case _ => Done
  }

  // ----- runs -----

  /** The store after the first n steps. */
  function At(c: Config, s: Store, steps: seq<Step>, n: nat): Store
    requires n <= |steps|
  {
    if n == 0 then s else Apply(c, At(c, s, steps, n - 1), steps[n - 1])
  }

  ghost predicate EnabledAt(c: Config, s: Store, steps: seq<Step>, n: nat)
    requires n < |steps|
  {
    Enabled(c, At(c, s, steps, n), steps[n])
  }

  ghost predicate Valid(c: Config, s: Store, steps: seq<Step>) {
    forall n: nat :: n < |steps| ==> EnabledAt(c, s, steps, n)
  }

  /** The clock never runs backwards. */
  ghost predicate Clocked(steps: seq<Step>) {
    forall i, k :: 0 <= i <= k < |steps| ==> steps[i].at <= steps[k].at
  }
}
