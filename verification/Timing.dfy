/** Properties of runs on a clock that never goes backwards, and how far the two dialects drift apart. */
module Timing {
  import opened Wrappers
  import opened Jobs
  import SingleJob

  // ----- due times -----

  /** A row that is, or could be, at work was due by now. */
  ghost predicate RowOnTime(d: Dialect, j: Job, now: nat) {
    j.status.Available? || j.status.Running? ==> j.scheduledAt <= Stamp(d, now)
  }

  ghost predicate OnTime(c: Config, s: Store, now: nat) {
    forall id :: id in s.jobs ==> RowOnTime(c.dialect, s.jobs[id], now)
  }

  lemma StampMonotone(d: Dialect, t: int, t': int)
    requires t <= t'
    ensures Stamp(d, t) <= Stamp(d, t')
  {
  }

  /** A retry is due no earlier than now, except after a negative backoff on Postgres. */
  lemma RetryNotBefore(d: Dialect, t: nat, backoffMs: Int64)
    ensures RetryAt(d, t, backoffMs).Some? ==>
      (Stamp(d, t) <= RetryAt(d, t, backoffMs).value <==> d.SQLite? || backoffMs >= 0)
  {
  }

  /** The statement does not fail this job with a negative backoff that Postgres takes. */
  predicate NoEarlyRetry(d: Dialect, st: Step, id: JobId) {
    st.event.FailJob? && st.event.id == id ==> d.SQLite? || st.event.backoffMs >= 0 || !Accepts(d, st.event.backoffMs)
  }

  lemma RowStaysOnTime(c: Config, st: Step, id: JobId, j: Job, now: nat)
    requires RowOnTime(c.dialect, j, now) && now <= st.at
    ensures RowOnTime(c.dialect, RowAfter(c, st, id, j), st.at)
    ensures NoEarlyRetry(c.dialect, st, id) ==> j.scheduledAt <= RowAfter(c, st, id, j).scheduledAt
  {
    StampMonotone(c.dialect, now, st.at);
    if st.event.FailJob? {
      RetryNotBefore(c.dialect, st.at, st.event.backoffMs);
    }
  }

  lemma NewJobOnTime(d: Dialect, o: CreateOpts, readAt: nat, comparedAt: nat, at: nat)
    requires readAt <= comparedAt <= at
    ensures RowOnTime(d, NewJob(d, o, readAt, comparedAt, at), at)
  {
    var scheduled := if o.scheduledAt.Some? then o.scheduledAt.value else readAt;
    if scheduled <= at {
      StampMonotone(d, scheduled, at);
    }
  }

  lemma StepKeepsOnTime(c: Config, s: Store, st: Step, now: nat)
    requires OnTime(c, s, now) && now <= st.at && Enabled(c, s, st)
    ensures OnTime(c, Apply(c, s, st), st.at)
  {
    var s' := Apply(c, s, st);
    forall id | id in s'.jobs
      ensures RowOnTime(c.dialect, s'.jobs[id], st.at)
    {
      if id in s.jobs {
        assert s'.jobs[id] == RowAfter(c, st, id, s.jobs[id]);
        RowStaysOnTime(c, st, id, s.jobs[id], now);
      } else {
        NewJobOnTime(c.dialect, st.event.opts, st.event.readAt, st.event.comparedAt, st.at);
      }
    }
  }

  /** The clock reading of the latest step, `from` before any. */
  function Now(steps: seq<Step>, from: nat, n: nat): nat
    requires n <= |steps|
  {
    if n == 0 then from else steps[n - 1].at
  }

  /** The clock starts no earlier than `from` and never runs backwards. */
  ghost predicate ClockedFrom(steps: seq<Step>, from: nat) {
    Clocked(steps) && (forall i :: 0 <= i < |steps| ==> from <= steps[i].at)
  }

  /** Available and running rows are always due, so the time guard of ClaimJob never hides an available row. */
  lemma {:induction false} OnTimeAlways(c: Config, s: Store, steps: seq<Step>, from: nat, n: nat)
    requires n <= |steps| && Valid(c, s, steps) && ClockedFrom(steps, from) && OnTime(c, s, from)
    ensures OnTime(c, At(c, s, steps, n), Now(steps, from, n))
  {
    if n > 0 {
      OnTimeAlways(c, s, steps, from, n - 1);
      assert EnabledAt(c, s, steps, n - 1);
      StepKeepsOnTime(c, At(c, s, steps, n - 1), steps[n - 1], Now(steps, from, n - 1));
    }
  }

  /** No run moves the scheduled_at of a job backwards, as long as no FailJob of it on Postgres gets a negative
      backoff. */
  lemma {:induction false} ScheduleNeverMovesBack(c: Config, s: Store, steps: seq<Step>, from: nat, id: JobId,
                                                  i: nat, k: nat)
    requires i <= k <= |steps| && Valid(c, s, steps) && ClockedFrom(steps, from) && OnTime(c, s, from)
    requires forall n :: 0 <= n < |steps| ==> NoEarlyRetry(c.dialect, steps[n], id)
    requires id in At(c, s, steps, i).jobs
    ensures id in At(c, s, steps, k).jobs
    ensures At(c, s, steps, i).jobs[id].scheduledAt <= At(c, s, steps, k).jobs[id].scheduledAt
    decreases k - i
  {
    if i < k {
      ScheduleNeverMovesBack(c, s, steps, from, id, i, k - 1);
      OnTimeAlways(c, s, steps, from, k - 1);
      var before := At(c, s, steps, k - 1);
      assert At(c, s, steps, k).jobs[id] == RowAfter(c, steps[k - 1], id, before.jobs[id]);
      RowStaysOnTime(c, steps[k - 1], id, before.jobs[id], Now(steps, from, k - 1));
    }
  }

  lemma FailedRowWaits(c: Config, st: Step, id: JobId, j: Job)
    requires st.event.FailJob? && st.event.id == id && j.status.Running?
    requires RowAfter(c, st, id, j).status.Retryable?
    ensures RetryAt(c.dialect, st.at, st.event.backoffMs) == Some(RowAfter(c, st, id, j).scheduledAt)
  {
  }

  /** Only the end of an attempt moves scheduled_at. */
  lemma WaitingRowKeepsSchedule(c: Config, st: Step, id: JobId, j: Job)
    requires !j.status.Running?
    ensures RowAfter(c, st, id, j).scheduledAt == j.scheduledAt
    ensures RowAfter(c, st, id, j).status.Running? ==> j.scheduledAt <= Stamp(c.dialect, st.at)
  {
  }

  /** From step i on the row waits for instant due, or that instant has passed. */
  ghost predicate WaitsOrPassed(c: Config, s: Store, steps: seq<Step>, id: JobId, due: int, n: nat)
    requires 0 < n <= |steps|
  {
    && id in At(c, s, steps, n).jobs
    && var j := At(c, s, steps, n).jobs[id];
      (!j.status.Running? && j.scheduledAt == due) || due <= Stamp(c.dialect, steps[n - 1].at)
  }

  lemma {:induction false} WaitsUntilDue(c: Config, s: Store, steps: seq<Step>, id: JobId, due: int, i: nat, k: nat)
    requires 0 < i <= k <= |steps| && Clocked(steps) && WaitsOrPassed(c, s, steps, id, due, i)
    ensures WaitsOrPassed(c, s, steps, id, due, k)
    decreases k
  {
    if i < k {
      WaitsUntilDue(c, s, steps, id, due, i, k - 1);
      var j := At(c, s, steps, k - 1).jobs[id];
      assert At(c, s, steps, k).jobs[id] == RowAfter(c, steps[k - 1], id, j);
      StampMonotone(c.dialect, steps[k - 2].at, steps[k - 1].at);
      if !j.status.Running? {
        WaitingRowKeepsSchedule(c, steps[k - 1], id, j);
      }
    }
  }

  lemma ClaimedRowIsDue(c: Config, s: Store, st: Step, id: JobId)
    requires Enabled(c, s, st) && st.event.ClaimJob? && st.event.pick == Some(id)
    ensures id in s.jobs && s.jobs[id].status.Available? && s.jobs[id].scheduledAt <= Stamp(c.dialect, st.at)
  {
  }

  /** After FailJob sends a row back with a backoff, no later ClaimJob takes it before that backoff has passed
      (on SQLite up to 999 ms early, its stamps being whole seconds). */
  lemma ClaimsSpacedByBackoff(c: Config, s: Store, steps: seq<Step>, id: JobId, i: nat, k: nat)
    requires i < k < |steps| && Valid(c, s, steps) && Clocked(steps)
    requires steps[i].event.FailJob? && steps[i].event.id == id
    requires id in At(c, s, steps, i).jobs && At(c, s, steps, i).jobs[id].status.Running?
    requires id in At(c, s, steps, i + 1).jobs && At(c, s, steps, i + 1).jobs[id].status.Retryable?
    requires steps[k].event.ClaimJob? && steps[k].event.pick == Some(id)
    ensures c.dialect.Postgres? ==> steps[i].at + steps[i].event.backoffMs <= steps[k].at
    ensures c.dialect.SQLite? ==> steps[i].at + steps[i].event.backoffMs <= steps[k].at + 999
  {
    var due := DueAfterFail(c, steps[i], id, At(c, s, steps, i), At(c, s, steps, i + 1));
    WaitsUntilDue(c, s, steps, id, due, i + 1, k);
    assert EnabledAt(c, s, steps, k);
    ClaimNotBefore(c, steps[k - 1], steps[k], id, At(c, s, steps, k), due);
    SpacedByBackoff(c.dialect, steps[i].at, steps[i].event.backoffMs, due, steps[k].at);
  }

  /** The instant the retry is due, on the stores around the FailJob. */
  lemma DueAfterFail(c: Config, st: Step, id: JobId, before: Store, after: Store) returns (due: int)
    requires st.event.FailJob? && st.event.id == id && after == Apply(c, before, st)
    requires id in before.jobs && before.jobs[id].status.Running?
    requires id in after.jobs && after.jobs[id].status.Retryable?
    ensures RetryAt(c.dialect, st.at, st.event.backoffMs) == Some(due) && due == after.jobs[id].scheduledAt
  {
    FailedRowWaits(c, st, id, before.jobs[id]);
    due := after.jobs[id].scheduledAt;
  }

  /** A claim of a row that waits for instant due, or whose due has passed, does not run before it. */
  lemma ClaimNotBefore(c: Config, last: Step, st: Step, id: JobId, s: Store, due: int)
    requires Enabled(c, s, st) && st.event.ClaimJob? && st.event.pick == Some(id) && last.at <= st.at
    requires id in s.jobs
    requires (!s.jobs[id].status.Running? && s.jobs[id].scheduledAt == due) || due <= Stamp(c.dialect, last.at)
    ensures due <= Stamp(c.dialect, st.at)
  {
    ClaimedRowIsDue(c, s, st, id);
    StampMonotone(c.dialect, last.at, st.at);
  }

  lemma SpacedByBackoff(d: Dialect, t: nat, backoffMs: Int64, due: int, now: nat)
    requires RetryAt(d, t, backoffMs) == Some(due) && due <= Stamp(d, now)
    ensures t + backoffMs <= now + if d.Postgres? then 0 else 999
  {
  }

  // ----- leases -----

  /** The lease a worker may count on, in milliseconds: the lock duration, on SQLite rounded down to whole seconds. */
  function LeaseMs(c: Config): nat {
    if c.dialect.Postgres? then c.lockNs / 1_000_000 else 1000 * (c.lockNs / 1_000_000_000)
  }

  /** Step n is a claim of the row, or a heartbeat that reaches it while it runs. */
  ghost predicate Beats(c: Config, s: Store, steps: seq<Step>, id: JobId, n: nat)
    requires n < |steps|
  {
    match steps[n].event
    case ClaimJob(_, _, _, pick) => pick == Some(id)
    case HeartbeatJob(i, progress) =>
      && i == id && id in At(c, s, steps, n).jobs
      && Allowed(At(c, s, steps, n).jobs[id], Beat(progress, LeaseEnd(c, steps[n].at)))
    case _ => false
  }

  /** When the row was last claimed or heartbeaten before step n. */
  ghost function LastBeat(c: Config, s: Store, steps: seq<Step>, id: JobId, n: nat): Option<nat>
    requires n <= |steps|
  {
    if n == 0 then None
    else if Beats(c, s, steps, id, n - 1) then Some(steps[n - 1].at)
    else LastBeat(c, s, steps, id, n - 1)
  }

  ghost predicate NothingRuns(s: Store) {
    forall id :: id in s.jobs ==> !s.jobs[id].status.Running?
  }

  lemma RunningRowKeepsLease(c: Config, st: Step, id: JobId, j: Job)
    requires RowAfter(c, st, id, j).status.Running?
    requires st.event.ClaimJob? && st.event.pick == Some(id) ==> Allowed(j, ChangeFor(c, st, id).value)
    ensures
      if (st.event.ClaimJob? && st.event.pick == Some(id))
         || (st.event.HeartbeatJob? && st.event.id == id && Allowed(j, Beat(st.event.progress, LeaseEnd(c, st.at))))
      then RowAfter(c, st, id, j).lockExpiresAt == Some(LeaseEnd(c, st.at))
      else j.status.Running? && RowAfter(c, st, id, j).lockExpiresAt == j.lockExpiresAt
  {
  }

  lemma {:induction false} LeaseFollowsLastBeat(c: Config, s: Store, steps: seq<Step>, id: JobId, n: nat)
    requires n <= |steps| && Valid(c, s, steps) && NothingRuns(s)
    requires id in At(c, s, steps, n).jobs && At(c, s, steps, n).jobs[id].status.Running?
    ensures LastBeat(c, s, steps, id, n).Some?
    ensures At(c, s, steps, n).jobs[id].lockExpiresAt == Some(LeaseEnd(c, LastBeat(c, s, steps, id, n).value))
  {
    if n > 0 {
      var before, st := At(c, s, steps, n - 1), steps[n - 1];
      assert EnabledAt(c, s, steps, n - 1);
      assert id in before.jobs;
      var j := before.jobs[id];
      assert At(c, s, steps, n).jobs[id] == RowAfter(c, st, id, j);
      if st.event.ClaimJob? && st.event.pick == Some(id) {
        ClaimedRowIsDue(c, before, st, id);
      }
      RunningRowKeepsLease(c, st, id, j);
      if !Beats(c, s, steps, id, n - 1) {
        LeaseFollowsLastBeat(c, s, steps, id, n - 1);
      }
    }
  }

  /** A running row has lapsed exactly when its last claim or heartbeat is more than the lock duration ago
      (on SQLite: counted in whole seconds of the wall clock). */
  lemma LapsedExactly(c: Config, s: Store, steps: seq<Step>, id: JobId, n: nat, now: nat)
    requires n <= |steps| && Valid(c, s, steps) && NothingRuns(s)
    requires id in At(c, s, steps, n).jobs && At(c, s, steps, n).jobs[id].status.Running?
    ensures LastBeat(c, s, steps, id, n).Some?
    ensures var last := LastBeat(c, s, steps, id, n).value;
      Lapsed(At(c, s, steps, n).jobs[id], Stamp(c.dialect, now)) <==>
        (if c.dialect.Postgres? then now > last + LeaseMs(c)
         else 1000 * (now / 1000) > 1000 * (last / 1000) + LeaseMs(c))
  {
    LeaseFollowsLastBeat(c, s, steps, id, n);
  }

  /** FailExpiredJobs takes a job only after a gap longer than the lease since its last claim or heartbeat. */
  lemma ReapedOnlyAfterGap(c: Config, s: Store, steps: seq<Step>, id: JobId, n: nat)
    requires n < |steps| && Valid(c, s, steps) && NothingRuns(s)
    requires steps[n].event.FailExpiredJobs? && id in steps[n].event.batch
    ensures LastBeat(c, s, steps, id, n).Some?
    ensures steps[n].at > LastBeat(c, s, steps, id, n).value + LeaseMs(c)
  {
    assert EnabledAt(c, s, steps, n);
    assert id in LapsedRows(At(c, s, steps, n).jobs, Stamp(c.dialect, steps[n].at));
    LeaseFollowsLastBeat(c, s, steps, id, n);
  }

  /** A statement by the worker of the job: a claim, a heartbeat, or the end of the attempt. */
  predicate WorkerStep(st: Step, id: JobId) {
    match st.event
    case ClaimJob(_, _, _, pick) => pick == Some(id)
    case HeartbeatJob(i, _) => i == id
    case CompleteJob(i, _) => i == id
    case FailJob(i, _, _) => i == id
    case CancelJob(i) => i == id
    case _ => false
  }

  /** At step n the worker is heard of again within the lease of its last claim or heartbeat, or the run ends
      before that time is over. */
  ghost predicate HeardInTime(c: Config, s: Store, steps: seq<Step>, id: JobId, n: nat)
    requires n < |steps|
  {
    var last := LastBeat(c, s, steps, id, n);
    && last.Some?
    && ((exists m :: n <= m < |steps| && WorkerStep(steps[m], id) && steps[m].at <= last.value + LeaseMs(c))
        || steps[|steps| - 1].at <= last.value + LeaseMs(c))
  }

  /** Consecutive statements of the worker are never further apart than the lease. */
  ghost predicate KeepsBeating(c: Config, s: Store, steps: seq<Step>, id: JobId) {
    forall n: nat :: n < |steps| && id in At(c, s, steps, n).jobs && At(c, s, steps, n).jobs[id].status.Running? ==>
      HeardInTime(c, s, steps, id, n)
  }

  /** In every run with arbitrary scheduler ticks, a job whose claim and heartbeats are spaced at most the lease apart
      is never failed by expiry. */
  lemma BeatingJobNeverReaped(c: Config, s: Store, steps: seq<Step>, id: JobId, n: nat)
    requires n < |steps| && Valid(c, s, steps) && Clocked(steps) && NothingRuns(s) && KeepsBeating(c, s, steps, id)
    ensures steps[n].event.FailExpiredJobs? ==> id !in steps[n].event.batch
  {
    if steps[n].event.FailExpiredJobs? && id in steps[n].event.batch {
      assert EnabledAt(c, s, steps, n);
      assert id in LapsedRows(At(c, s, steps, n).jobs, Stamp(c.dialect, steps[n].at));
      assert HeardInTime(c, s, steps, id, n);
      ReapedOnlyAfterGap(c, s, steps, id, n);
    }
  }

  // ----- which gaps are safe -----

  /** In a run from empty tables, expiry fails the job at step n although its last claim or heartbeat is no more than
      `gap` milliseconds old. */
  ghost predicate ReapedWithin(c: Config, steps: seq<Step>, id: JobId, n: nat, gap: nat) {
    && n < |steps| && Valid(c, EMPTY, steps) && Clocked(steps)
    && steps[n].event.FailExpiredJobs? && id in steps[n].event.batch
    && LastBeat(c, EMPTY, steps, id, n).Some? && steps[n].at <= LastBeat(c, EMPTY, steps, id, n).value + gap
  }

  ghost predicate GapIsSafe(c: Config, gap: nat) {
    !exists steps: seq<Step>, id: JobId, n: nat :: ReapedWithin(c, steps, id, n, gap)
  }

  const ANY_JOB := CreateOpts(SingleJob.QUEUE, "kind", "", Metadata("", None, false), 1, 1, None, false)

  /** A job is created at 0, claimed at `from`, and never heard of again until expiry runs at `to`. */
  function ClaimThenReap(from: nat, to: nat): seq<Step> {
    [SingleJob.Upsert(), SingleJob.Insert(ANY_JOB), SingleJob.ClaimBy("worker", from), SingleJob.Expire(to)]
  }

  lemma ClaimedThenReaped(c: Config, from: nat, to: nat)
    requires LeaseEnd(c, from) < Stamp(c.dialect, to)
    ensures Valid(c, EMPTY, ClaimThenReap(from, to))
  {
    var created := SingleJob.Created(c.dialect, ANY_JOB);
    var claimed := SingleJob.ClaimedRow(c, created, "worker", from);
    SingleJob.Create(c, ANY_JOB);
    assert ClaimThenReap(from, to)[..2] == [SingleJob.Upsert(), SingleJob.Insert(ANY_JOB)];
    SingleJob.ThenClaim(c, ClaimThenReap(from, to)[..2], created, "worker", from);
    SingleJob.ThenExpire(c, ClaimThenReap(from, to)[..2] + [SingleJob.ClaimBy("worker", from)], claimed, to);
    assert ClaimThenReap(from, to)
      == ClaimThenReap(from, to)[..2] + [SingleJob.ClaimBy("worker", from)] + [SingleJob.Expire(to)];
  }

  /** Such a job is reaped once its lease is over. */
  lemma ReapedOnceLapsed(c: Config, from: nat, to: nat)
    requires from <= to && LeaseEnd(c, from) < Stamp(c.dialect, to)
    ensures ReapedWithin(c, ClaimThenReap(from, to), 0, 3, to - from)
  {
    var steps := ClaimThenReap(from, to);
    ClaimedThenReaped(c, from, to);
    assert Beats(c, EMPTY, steps, 0, 2);
    assert LastBeat(c, EMPTY, steps, 0, 3) == Some(from);
  }

  /** A gap between heartbeats is safe in every run exactly when it is at most the lease. */
  lemma GapSafeExactly(c: Config, gap: nat)
    ensures GapIsSafe(c, gap) <==> gap <= LeaseMs(c)
  {
    if gap <= LeaseMs(c) {
      forall steps: seq<Step>, id: JobId, n: nat
        ensures !ReapedWithin(c, steps, id, n, gap)
      {
        if ReapedWithin(c, steps, id, n, gap) {
          ReapedOnlyAfterGap(c, EMPTY, steps, id, n);
        }
      }
    } else {
      var from := if c.dialect.Postgres? then 0 else 999;
      var to := from + LeaseMs(c) + 1;
      ReapedOnceLapsed(c, from, to);
      assert ReapedWithin(c, ClaimThenReap(from, to), 0, 3, gap);
    }
  }

  /** The documented gap is one lock duration.  The lease is that long, to the nanosecond, exactly for lock durations
      of whole milliseconds on Postgres and of whole seconds on SQLite; and the lock duration cut to milliseconds is
      safe exactly on Postgres, and on SQLite when what is left is whole seconds. */
  lemma DocumentedGapSafeExactly(c: Config)
    ensures 1_000_000 * LeaseMs(c) == c.lockNs <==>
      c.lockNs % (if c.dialect.Postgres? then 1_000_000 else 1_000_000_000) == 0
    ensures GapIsSafe(c, c.lockNs / 1_000_000) <==> c.dialect.Postgres? || c.lockNs / 1_000_000 % 1000 == 0
  {
    GapSafeExactly(c, c.lockNs / 1_000_000);
    DivSplit(c.lockNs);
  }

  // ----- skew between the dialects -----

  /** The first millisecond at which a row failed at t with this backoff can be promoted. */
  function FirstRetry(d: Dialect, t: nat, backoffMs: Int64): int
    requires RetryAt(d, t, backoffMs).Some?
  {
    Instant(d, RetryAt(d, t, backoffMs).value)
  }

  /** The first millisecond at which a row scheduled for instant x can be promoted. */
  function FirstDelayed(d: Dialect, x: int): int {
    Instant(d, Stamp(d, x))
  }

  /** The first millisecond at which a lease taken at t can be reaped. */
  function FirstLapse(c: Config, t: nat): nat {
    if c.dialect.Postgres? then LeaseEnd(c, t) + 1 else 1000 * (LeaseEnd(c, t) + 1)
  }

  /** SQLite retries between 999 ms before and 999 ms after Postgres, and every skew in that range occurs.  Negative
      backoffs that both take are as good as none on SQLite. */
  lemma RetrySkew(j: Job, e: ErrorEntry, t: nat, backoffMs: Int64, now: nat, skew: int)
    requires j.attempt < j.maxAttempts && Accepts(Postgres, backoffMs) && RetryAt(SQLite, t, backoffMs).Some?
    ensures forall d :: Due(Changed(j, Fail(e, Stamp(d, t), RetryAt(d, t, backoffMs))), Stamp(d, now)) <==>
      now >= FirstRetry(d, t, backoffMs)
    ensures backoffMs >= 0 ==> -999 <= FirstRetry(SQLite, t, backoffMs) - FirstRetry(Postgres, t, backoffMs) <= 999
    ensures backoffMs < 0 ==>
      FirstRetry(SQLite, t, backoffMs) - FirstRetry(Postgres, t, backoffMs) == -backoffMs - t % 1000
    ensures -999 <= skew <= 999 ==>
      exists u: nat, b: Int64 ::
        RetryAt(SQLite, u, b).Some? && b >= 0 && FirstRetry(SQLite, u, b) - FirstRetry(Postgres, u, b) == skew
  {
    if -999 <= skew <= 0 {
      assert FirstRetry(SQLite, -skew, 0) - FirstRetry(Postgres, -skew, 0) == skew;
    } else if 0 < skew <= 999 {
      assert FirstRetry(SQLite, 0, 1000 - skew) - FirstRetry(Postgres, 0, 1000 - skew) == skew;
    }
  }

  /** A delayed job is due on SQLite at most 999 ms before Postgres and never after it, and every such skew occurs. */
  lemma DelaySkew(o: CreateOpts, readAt: nat, comparedAt: nat, at: nat, now: nat, skew: int)
    requires !o.pending && o.scheduledAt.Some? && o.scheduledAt.value > comparedAt
    ensures forall d :: Due(NewJob(d, o, readAt, comparedAt, at), Stamp(d, now)) <==>
      now >= FirstDelayed(d, o.scheduledAt.value)
    ensures -999 <= FirstDelayed(SQLite, o.scheduledAt.value) - FirstDelayed(Postgres, o.scheduledAt.value) <= 0
    ensures -999 <= skew <= 0 ==> exists y: int :: FirstDelayed(SQLite, y) - FirstDelayed(Postgres, y) == skew
  {
    if -999 <= skew <= 0 {
      assert FirstDelayed(SQLite, -skew) - FirstDelayed(Postgres, -skew) == skew;
    }
  }

  lemma DivSplit(ns: nat)
    ensures ns / 1_000_000_000 == ns / 1_000_000 / 1000
    ensures ns % 1_000_000_000 == 0 ==> ns / 1_000_000 % 1000 == 0
  {
  }

  /** Leases lapse on SQLite within 999 ms of Postgres, never earlier when the lock duration is whole seconds;
      every skew in the range occurs. */
  lemma LapseSkew(j: Job, progress: Option<int>, lockNs: nat, t: nat, now: nat, skew: int)
    requires j.status.Running?
    ensures forall d :: Lapsed(Changed(j, Beat(progress, LeaseEnd(Config(d, lockNs), t))), Stamp(d, now)) <==>
      now >= FirstLapse(Config(d, lockNs), t)
    ensures -999 <= FirstLapse(Config(SQLite, lockNs), t) - FirstLapse(Config(Postgres, lockNs), t) <= 999
    ensures lockNs % 1_000_000_000 == 0 ==>
      0 <= FirstLapse(Config(SQLite, lockNs), t) - FirstLapse(Config(Postgres, lockNs), t)
    ensures -999 <= skew <= 999 ==>
      exists ns: nat, u: nat :: FirstLapse(Config(SQLite, ns), u) - FirstLapse(Config(Postgres, ns), u) == skew
    ensures 0 <= skew <= 999 ==>
      exists u: nat :: FirstLapse(Config(SQLite, 0), u) - FirstLapse(Config(Postgres, 0), u) == skew
  {
    DivSplit(lockNs);
    if 0 <= skew <= 999 {
      assert FirstLapse(Config(SQLite, 0), 999 - skew) - FirstLapse(Config(Postgres, 0), 999 - skew) == skew;
    } else if -999 <= skew < 0 {
      var ns := 1_000_000 * 999;
      assert ns / 1_000_000 == 999 && ns / 1_000_000_000 == 0;
      assert FirstLapse(Config(SQLite, ns), -skew) - FirstLapse(Config(Postgres, ns), -skew) == skew;
    }
  }
}
