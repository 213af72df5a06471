/**
 On whole seconds the SQLite driver and the Postgres driver are the same queue.

 SQLite keeps every instant in whole seconds; Postgres keeps milliseconds.  When clock readings, delays, backoffs and
 the lock duration are whole seconds, the same calls give the same answers, and the tables differ only in the unit.
 */
module Dialects {
  import opened Wrappers
  import opened Jobs

  predicate Whole(x: int) {
    x % 1000 == 0
  }

  predicate WholeOpt(x: Option<nat>) {
    x.Some? ==> Whole(x.value)
  }

  /** The call falls on the whole-second grid, and a backoff is not negative, fits the Postgres parameter, and ends
      within the years SQLite can name. */
  predicate OnGrid(st: Step) {
    Whole(st.at)
    && match st.event
       case InsertJob(_, opts, readAt, comparedAt) =>
         Whole(readAt) && Whole(comparedAt) && (opts.scheduledAt.Some? ==> Whole(opts.scheduledAt.value))
       case FailJob(_, _, backoffMs) => 
         Whole(backoffMs) && 0 <= backoffMs <= MAX_INT32 && st.at + backoffMs <= 1000 * LAST_SECOND
       case _ => true
  }

  function Secs(x: int): (s: int)
    ensures x >= 0 ==> s >= 0
  {
    x / 1000
  }

  function SecsOpt(x: Option<nat>): Option<nat> {
    if x.Some? then Some(Secs(x.value)) else None
  }

  /** The Postgres row rewritten in seconds. */
  function InSeconds(j: Job): Job {
    j.(createdAt := Secs(j.createdAt), scheduledAt := Secs(j.scheduledAt), attemptedAt := SecsOpt(j.attemptedAt),
       finalizedAt := SecsOpt(j.finalizedAt), lockExpiresAt := SecsOpt(j.lockExpiresAt))
  }

  predicate WholeRow(j: Job) {
    && Whole(j.createdAt) && Whole(j.scheduledAt)
    && WholeOpt(j.attemptedAt) && WholeOpt(j.finalizedAt) && WholeOpt(j.lockExpiresAt)
  }

  function QueueInSeconds(q: QueueRow): QueueRow {
    QueueRow(SecsOpt(q.pausedAt), Secs(q.createdAt), Secs(q.updatedAt))
  }

  ghost predicate WholeRows(s: Store) {
    forall id :: id in s.jobs ==> WholeRow(s.jobs[id])
  }

  function StoreInSeconds(s: Store): Store {
    Store(map id | id in s.jobs :: InSeconds(s.jobs[id]), map q | q in s.queues :: QueueInSeconds(s.queues[q]))
  }

  /** The SQLite tables hold the Postgres tables, divided by 1000. */
  ghost predicate Related(p: Store, q: Store) {
    WholeRows(p) && q == StoreInSeconds(p)
  }

  // ----- order and sums on the grid -----

  lemma WholeOrder(a: int, b: int)
    requires Whole(a) && Whole(b)
    ensures Secs(a) <= Secs(b) <==> a <= b
    ensures Secs(a) == Secs(b) <==> a == b
    ensures 1000 * Secs(a) == a
  {
  }

  lemma WholeSum(a: int, b: int)
    requires Whole(a) && Whole(b)
    ensures Whole(a + b) && Secs(a + b) == Secs(a) + Secs(b)
  {
    assert a == 1000 * (a / 1000) && b == 1000 * (b / 1000);
  }

  /** On the grid both drivers retry at the same second exactly when the backoff is not negative and ends by the year
      9999: a negative one moves the retry back on Postgres, while SQLite takes it as none or fails on it. */
  lemma RetryRelated(t: nat, backoffMs: Int64)
    requires Whole(t) && Whole(backoffMs) && backoffMs <= MAX_INT32
    ensures Whole(RetryAt(Postgres, t, backoffMs).value)
    ensures RetryAt(SQLite, t, backoffMs) == Some(Secs(RetryAt(Postgres, t, backoffMs).value)) <==>
      backoffMs >= 0 && t + backoffMs <= 1000 * LAST_SECOND
  {
    WholeSum(t, backoffMs);
    assert backoffMs == 1000 * (backoffMs / 1000);
    if backoffMs >= 0 {
      assert BackoffSec(backoffMs) == (backoffMs + 999) / 1000 == backoffMs / 1000;
    }
  }

  lemma WholeLock(lockNs: nat)
    requires lockNs % 1_000_000_000 == 0
    ensures Whole(lockNs / 1_000_000) && Secs(lockNs / 1_000_000) == lockNs / 1_000_000_000
  {
  }

  // ----- one row -----

  function ChangeInSeconds(ch: Change): Change {
    match ch
    case Claim(w, at, lease) => Claim(w, Secs(at), Secs(lease))
    case Complete(r, at) => Complete(r, Secs(at))
    case Fail(e, at, retryAt) => Fail(e, Secs(at), if retryAt.Some? then Some(Secs(retryAt.value)) else None)
    case Reap(e, at) => Reap(e, Secs(at))
    case Beat(p, lease) => Beat(p, Secs(lease))
    case Release(at) => Release(Secs(at))
    case Promote(at) => Promote(Secs(at))
    case Cancel(at) => Cancel(Secs(at))
  }

  predicate WholeChange(ch: Change) {
    match ch
    case Claim(_, at, lease) => Whole(at) && Whole(lease)
    case Complete(_, at) => Whole(at)
    case Fail(_, at, retryAt) => Whole(at) && (retryAt.Some? ==> Whole(retryAt.value))
    case Reap(_, at) => Whole(at)
    case Beat(_, lease) => Whole(lease)
    case Release(at) => Whole(at)
    case Promote(at) => Whole(at)
    case Cancel(at) => Whole(at)
  }

  lemma ChangeRelated(lockNs: nat, st: Step, id: JobId)
    requires OnGrid(st) && lockNs % 1_000_000_000 == 0
    ensures var p, q := ChangeFor(Config(Postgres, lockNs), st, id), ChangeFor(Config(SQLite, lockNs), st, id);
      (p.Some? <==> q.Some?) && (p.Some? ==> WholeChange(p.value) && q.value == ChangeInSeconds(p.value))
  {
    WholeLock(lockNs);
    WholeSum(st.at, lockNs / 1_000_000);
    if st.event.FailJob? {
      RetryRelated(st.at, st.event.backoffMs);
    }
  }

  lemma AllowedRelated(j: Job, ch: Change)
    requires WholeRow(j) && WholeChange(ch)
    ensures Allowed(InSeconds(j), ChangeInSeconds(ch)) <==> Allowed(j, ch)
  {
    if ch.Claim? || ch.Promote? {
      WholeOrder(j.scheduledAt, ch.at);
    }
    if ch.Reap? && j.lockExpiresAt.Some? {
      WholeOrder(ch.at, j.lockExpiresAt.value);
    }
  }

  lemma ChangedRelated(j: Job, ch: Change)
    requires WholeRow(j) && WholeChange(ch)
    ensures WholeRow(Changed(j, ch)) && InSeconds(Changed(j, ch)) == Changed(InSeconds(j), ChangeInSeconds(ch))
  {
    if ch.Release? {
      WholeOrder(j.scheduledAt, ch.at);
    }
  }

  lemma RowRelated(lockNs: nat, st: Step, id: JobId, j: Job)
    requires OnGrid(st) && lockNs % 1_000_000_000 == 0 && WholeRow(j)
    ensures WholeRow(RowAfter(Config(Postgres, lockNs), st, id, j))
    ensures RowAfter(Config(SQLite, lockNs), st, id, InSeconds(j)) ==
      InSeconds(RowAfter(Config(Postgres, lockNs), st, id, j))
  {
    ChangeRelated(lockNs, st, id);
    var p := ChangeFor(Config(Postgres, lockNs), st, id);
    if p.Some? {
      AllowedRelated(j, p.value);
      ChangedRelated(j, p.value);
    }
  }

  lemma NewRowRelated(o: CreateOpts, readAt: nat, comparedAt: nat, at: nat)
    requires Whole(readAt) && Whole(at) && (o.scheduledAt.Some? ==> Whole(o.scheduledAt.value))
    ensures WholeRow(NewJob(Postgres, o, readAt, comparedAt, at))
    ensures NewJob(SQLite, o, readAt, comparedAt, at) == InSeconds(NewJob(Postgres, o, readAt, comparedAt, at))
  {
  }

  // ----- one statement -----

  lemma QueuesRelated(lockNs: nat, p: Store, st: Step)
    requires OnGrid(st)
    ensures QueuesAfter(Config(SQLite, lockNs), StoreInSeconds(p).queues, st)
         == StoreInSeconds(Store(p.jobs, QueuesAfter(Config(Postgres, lockNs), p.queues, st))).queues
  {
  }

  lemma StepRowRelated(lockNs: nat, p: Store, st: Step, id: JobId)
    requires WholeRows(p) && OnGrid(st) && lockNs % 1_000_000_000 == 0
    requires id in JobsAfter(Config(Postgres, lockNs), p.jobs, st)
    ensures id in JobsAfter(Config(SQLite, lockNs), StoreInSeconds(p).jobs, st)
    ensures WholeRow(JobsAfter(Config(Postgres, lockNs), p.jobs, st)[id])
    ensures JobsAfter(Config(SQLite, lockNs), StoreInSeconds(p).jobs, st)[id]
         == InSeconds(JobsAfter(Config(Postgres, lockNs), p.jobs, st)[id])
  {
    if id in p.jobs {
      RowRelated(lockNs, st, id, p.jobs[id]);
    } else {
      NewRowRelated(st.event.opts, st.event.readAt, st.event.comparedAt, st.at);
    }
  }

  lemma StepRelated(lockNs: nat, p: Store, st: Step)
    requires WholeRows(p) && OnGrid(st) && lockNs % 1_000_000_000 == 0
    ensures Related(Apply(Config(Postgres, lockNs), p, st), Apply(Config(SQLite, lockNs), StoreInSeconds(p), st))
  {
    JobsRelated(lockNs, p, st, JobsAfter(Config(Postgres, lockNs), p.jobs, st));
    QueuesRelated(lockNs, p, st);
  }

  lemma JobsRelated(lockNs: nat, p: Store, st: Step, after: map<JobId, Job>)
    requires WholeRows(p) && OnGrid(st) && lockNs % 1_000_000_000 == 0
    requires after == JobsAfter(Config(Postgres, lockNs), p.jobs, st)
    ensures forall id :: id in after ==> WholeRow(after[id])
    ensures JobsAfter(Config(SQLite, lockNs), StoreInSeconds(p).jobs, st) ==
      map id | id in after :: InSeconds(after[id])
  {
    var inSeconds := JobsAfter(Config(SQLite, lockNs), StoreInSeconds(p).jobs, st);
    assert inSeconds.Keys == after.Keys;
    forall id | id in after
      ensures WholeRow(after[id]) && inSeconds[id] == InSeconds(after[id])
    {
      StepRowRelated(lockNs, p, st, id);
    }
  }

  lemma PickRelated(p: Store, queue: string, now: nat, skip: set<JobId>, pick: Option<JobId>)
    requires WholeRows(p) && Whole(now)
    ensures IsPick(StoreInSeconds(p), queue, Secs(now), skip, pick) <==> IsPick(p, queue, now, skip, pick)
  {
    var q := StoreInSeconds(p);
    assert Paused(q, queue) <==> Paused(p, queue);
    forall id
      ensures Candidate(q, queue, Secs(now), skip, id) <==> Candidate(p, queue, now, skip, id)
    {
      if id in p.jobs {
        WholeOrder(p.jobs[id].scheduledAt, now);
      }
    }
    forall a, b | a in p.jobs && b in p.jobs
      ensures KeyLe(q.jobs[a], a, q.jobs[b], b) <==> KeyLe(p.jobs[a], a, p.jobs[b], b)
    {
      WholeOrder(p.jobs[a].scheduledAt, p.jobs[b].scheduledAt);
    }
    if pick.Some? {
      assert Candidate(q, queue, Secs(now), skip, pick.value) <==> Candidate(p, queue, now, skip, pick.value);
    }
  }

  lemma BatchRelated(p: map<JobId, int>, q: map<JobId, int>, n: nat, batch: set<JobId>)
    requires p.Keys == q.Keys && forall id :: id in p ==> Whole(p[id]) && q[id] == Secs(p[id])
    ensures IsBatch(q, n, batch) <==> IsBatch(p, n, batch)
  {
    assert |p| == |p.Keys| && |q| == |q.Keys|;
    forall a, b | a in p && b in p
      ensures q[a] <= q[b] <==> p[a] <= p[b]
    {
      WholeOrder(p[a], p[b]);
    }
  }

  lemma DueRelated(p: Store, now: nat, skip: set<JobId>)
    requires WholeRows(p) && Whole(now)
    ensures var a, b := DueRows(p.jobs, now) - skip, DueRows(StoreInSeconds(p).jobs, Secs(now)) - skip;
      a.Keys == b.Keys && forall id :: id in a ==> Whole(a[id]) && b[id] == Secs(a[id])
  {
    forall id | id in p.jobs
      ensures Due(StoreInSeconds(p).jobs[id], Secs(now)) <==> Due(p.jobs[id], now)
    {
      AllowedRelated(p.jobs[id], Promote(now));
    }
  }

  lemma LapsedRelated(p: Store, now: nat, skip: set<JobId>)
    requires WholeRows(p) && Whole(now)
    ensures var a, b := LapsedRows(p.jobs, now) - skip, LapsedRows(StoreInSeconds(p).jobs, Secs(now)) - skip;
      a.Keys == b.Keys && forall id :: id in a ==> Whole(a[id]) && b[id] == Secs(a[id])
  {
    forall id | id in p.jobs
      ensures Lapsed(StoreInSeconds(p).jobs[id], Secs(now)) <==> Lapsed(p.jobs[id], now)
    {
      AllowedRelated(p.jobs[id], Reap(ErrorEntry(0, ""), now));
    }
  }

  lemma DueBatchRelated(p: Store, now: nat, skip: set<JobId>, n: nat, batch: set<JobId>)
    requires WholeRows(p) && Whole(now)
    ensures IsBatch(DueRows(StoreInSeconds(p).jobs, Secs(now)) - skip, n, batch) <==>
      IsBatch(DueRows(p.jobs, now) - skip, n, batch)
  {
    DueRelated(p, now, skip);
    BatchRelated(DueRows(p.jobs, now) - skip, DueRows(StoreInSeconds(p).jobs, Secs(now)) - skip, n, batch);
  }

  lemma LapsedBatchRelated(p: Store, now: nat, skip: set<JobId>, n: nat, batch: set<JobId>)
    requires WholeRows(p) && Whole(now)
    ensures IsBatch(LapsedRows(StoreInSeconds(p).jobs, Secs(now)) - skip, n, batch) <==>
      IsBatch(LapsedRows(p.jobs, now) - skip, n, batch)
  {
    LapsedRelated(p, now, skip);
    BatchRelated(LapsedRows(p.jobs, now) - skip, LapsedRows(StoreInSeconds(p).jobs, Secs(now)) - skip, n, batch);
  }

  lemma ChoicesRelated(lockNs: nat, p: Store, st: Step)
    requires WholeRows(p) && OnGrid(st)
    ensures Enabled(Config(SQLite, lockNs), StoreInSeconds(p), st) <==> Enabled(Config(Postgres, lockNs), p, st)
  {
    if st.event.ClaimJob? {
      PickRelated(p, st.event.queue, st.at, st.event.skip, st.event.pick);
    } else if st.event.FailExpiredJobs? {
      LapsedBatchRelated(p, st.at, st.event.skip, BatchLimit(st.event.limit), st.event.batch);
    } else if st.event.PromoteScheduledJobs? {
      DueBatchRelated(p, st.at, st.event.skip, BatchLimit(st.event.limit), st.event.batch);
    }
  }

  lemma ViewRelated(id: JobId, j: Job)
    requires WholeRow(j)
    ensures View(SQLite, id, InSeconds(j)) == View(Postgres, id, j)
  {
  }

  lemma RowOutcomeRelated(lockNs: nat, p: Store, st: Step, id: JobId)
    requires WholeRows(p) && OnGrid(st) && lockNs % 1_000_000_000 == 0
    ensures RowOutcome(Config(SQLite, lockNs), StoreInSeconds(p), st, id) ==
      RowOutcome(Config(Postgres, lockNs), p, st, id)
  {
    ChangeRelated(lockNs, st, id);
    var ch := ChangeFor(Config(Postgres, lockNs), st, id);
    if id in p.jobs && ch.Some? {
      AllowedRelated(p.jobs[id], ch.value);
    }
  }

  lemma ReturnedRelated(lockNs: nat, p: Store, st: Step, id: JobId)
    requires WholeRows(p) && OnGrid(st) && lockNs % 1_000_000_000 == 0
    ensures var p', q' := Apply(Config(Postgres, lockNs), p, st), Apply(Config(SQLite, lockNs), StoreInSeconds(p), st);
      (id in p'.jobs <==> id in q'.jobs)
      && (id in p'.jobs ==> View(SQLite, id, q'.jobs[id]) == View(Postgres, id, p'.jobs[id]))
  {
    StepRelated(lockNs, p, st);
    var p' := Apply(Config(Postgres, lockNs), p, st);
    if id in p'.jobs {
      ViewRelated(id, p'.jobs[id]);
    }
  }

  lemma ResultRelated(lockNs: nat, p: Store, st: Step)
    requires WholeRows(p) && OnGrid(st) && lockNs % 1_000_000_000 == 0
    ensures Result(Config(SQLite, lockNs), StoreInSeconds(p), st) == Result(Config(Postgres, lockNs), p, st)
  {
    match st.event
    case InsertJob(id, _, _, _) => ReturnedRelated(lockNs, p, st, id);
    case ClaimJob(_, _, _, pick) => if pick.Some? { ReturnedRelated(lockNs, p, st, pick.value); }
    case CompleteJob(id, _) => RowOutcomeRelated(lockNs, p, st, id);
    case FailJob(id, _, _) => RowOutcomeRelated(lockNs, p, st, id);
    case HeartbeatJob(id, _) => RowOutcomeRelated(lockNs, p, st, id);
    case PromoteJob(id) => RowOutcomeRelated(lockNs, p, st, id);
    case CancelJob(id) => RowOutcomeRelated(lockNs, p, st, id);
    case _ =>
  }

  // ----- whole runs -----

  ghost predicate GridRun(steps: seq<Step>) {
    forall i :: 0 <= i < |steps| ==> OnGrid(steps[i])
  }

  lemma {:induction false} RunRelated(lockNs: nat, p: Store, q: Store, steps: seq<Step>, n: nat)
    requires Related(p, q) && GridRun(steps) && lockNs % 1_000_000_000 == 0 && n <= |steps|
    ensures Related(At(Config(Postgres, lockNs), p, steps, n), At(Config(SQLite, lockNs), q, steps, n))
  {
    if n > 0 {
      RunRelated(lockNs, p, q, steps, n - 1);
      StepRelated(lockNs, At(Config(Postgres, lockNs), p, steps, n - 1), steps[n - 1]);
    }
  }

  lemma RelatedAt(lockNs: nat, p: Store, q: Store, steps: seq<Step>, n: nat)
    requires Related(p, q) && GridRun(steps) && lockNs % 1_000_000_000 == 0 && n < |steps|
    ensures EnabledAt(Config(SQLite, lockNs), q, steps, n) <==> EnabledAt(Config(Postgres, lockNs), p, steps, n)
    ensures Result(Config(SQLite, lockNs), At(Config(SQLite, lockNs), q, steps, n), steps[n])
         == Result(Config(Postgres, lockNs), At(Config(Postgres, lockNs), p, steps, n), steps[n])
  {
    RunRelated(lockNs, p, q, steps, n);
    var now := At(Config(Postgres, lockNs), p, steps, n);
    ChoicesRelated(lockNs, now, steps[n]);
    ResultRelated(lockNs, now, steps[n]);
  }

  /** Any sequence of calls on the whole-second grid is possible on SQLite exactly when it is possible on Postgres,
      returns the same results call by call, and leaves the same tables up to the unit. */
  lemma SQLiteRefinesPostgres(lockNs: nat, p: Store, q: Store, steps: seq<Step>)
    requires Related(p, q) && GridRun(steps) && lockNs % 1_000_000_000 == 0
    ensures Valid(Config(SQLite, lockNs), q, steps) <==> Valid(Config(Postgres, lockNs), p, steps)
    ensures forall n: nat :: n < |steps| ==>
      Result(Config(SQLite, lockNs), At(Config(SQLite, lockNs), q, steps, n), steps[n])
      == Result(Config(Postgres, lockNs), At(Config(Postgres, lockNs), p, steps, n), steps[n])
    ensures Related(At(Config(Postgres, lockNs), p, steps, |steps|), At(Config(SQLite, lockNs), q, steps, |steps|))
  {
    forall n: nat | n < |steps|
      ensures EnabledAt(Config(SQLite, lockNs), q, steps, n) <==> EnabledAt(Config(Postgres, lockNs), p, steps, n)
      ensures Result(Config(SQLite, lockNs), At(Config(SQLite, lockNs), q, steps, n), steps[n])
           == Result(Config(Postgres, lockNs), At(Config(Postgres, lockNs), p, steps, n), steps[n])
    {
      RelatedAt(lockNs, p, q, steps, n);
    }
    RunRelated(lockNs, p, q, steps, |steps|);
  }
}
