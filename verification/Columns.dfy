/**
 What a caller can rely on about the columns of a job, statement by statement and over whole runs.

 Everything here is said in columns, clock readings and parameters.  Postgres stores the reading itself, in
 milliseconds, and SQLite its whole seconds.
 */
module Columns {
  import opened Wrappers
  import opened Jobs
  import Lifecycle

  // ----- steps and rows -----

  /** The statement is about this job: it names it, claims it, or has it in its batch. */
  predicate About(st: Step, id: JobId) {
    match st.event
    case InsertJob(i, _, _, _) => i == id
    case ClaimJob(_, _, _, pick) => pick == Some(id)
    case CompleteJob(i, _) => i == id
    case FailJob(i, _, _) => i == id
    case HeartbeatJob(i, _) => i == id
    case PromoteJob(i) => i == id
    case CancelJob(i) => i == id
    case FailExpiredJobs(_, _, batch) => id in batch
    case PromoteScheduledJobs(_, _, batch) => id in batch
    case _ => false
  }

  /** A statement changes no job it is not about, adds none but the one it inserts, and loses none. */
  lemma OthersUntouched(c: Config, s: Store, st: Step, id: JobId)
    requires !About(st, id)
    ensures id in Apply(c, s, st).jobs <==> id in s.jobs
    ensures id in s.jobs ==> Apply(c, s, st).jobs[id] == s.jobs[id]
  {
  }

  lemma RowStays(c: Config, s: Store, steps: seq<Step>, id: JobId, n: nat)
    requires n < |steps| && id in At(c, s, steps, n).jobs
    ensures id in At(c, s, steps, n + 1).jobs
    ensures At(c, s, steps, n + 1).jobs[id] == RowAfter(c, steps[n], id, At(c, s, steps, n).jobs[id])
  {
  }

  /** A terminal row is the same in every later state. */
  lemma TerminalForGood(c: Config, s: Store, steps: seq<Step>, id: JobId, i: nat, k: nat, j: Job)
    requires i <= k <= |steps| && id in At(c, s, steps, i).jobs
    requires j == At(c, s, steps, i).jobs[id] && Terminal(j.status)
    ensures id in At(c, s, steps, k).jobs && At(c, s, steps, k).jobs[id] == j
  {
    Lifecycle.RunExtends(c, s, steps, i, k);
    assert Lifecycle.Evolves(j, At(c, s, steps, k).jobs[id]);
  }

  // ----- creating -----

  /** The row CreateJob inserts: priority 1 and 25 attempts by default, due at the instant asked for or at once, pending
      if asked for, otherwise available exactly when that instant has come. */
  lemma Inserted(c: Config, s: Store, st: Step, j: Job)
    requires st.event.InsertJob? && st.event.id !in s.jobs && j == Apply(c, s, st).jobs[st.event.id]
    ensures var o := st.event.opts;
      var due := if o.scheduledAt.Some? then o.scheduledAt.value else st.event.readAt;
      && j.queue == o.queue && j.kind == o.kind && j.payload == o.payload && j.metadata == o.metadata
      && j.priority == (if o.priority == 0 then 1 else o.priority)
      && j.maxAttempts == (if o.maxAttempts == 0 then 25 else o.maxAttempts)
      && j.createdAt == (if c.dialect.Postgres? then st.at else st.at / 1000)
      && j.scheduledAt == (if c.dialect.Postgres? then due else due / 1000)
      && (j.status == Pending <==> o.pending)
      && (j.status == Available <==> !o.pending && due <= st.event.comparedAt)
      && (j.status == Scheduled <==> !o.pending && due > st.event.comparedAt)
      && j.attempt == 0 && j.progress == 0 && j.result == None && j.errors == [] && j.attemptedBy == []
      && j.attemptedAt == None && j.finalizedAt == None && j.lockExpiresAt == None
    ensures Result(c, s, st) == Row(View(c.dialect, st.event.id, j))
  {
  }

  /** An id that is taken is a database error, and nothing is inserted. */
  lemma DuplicateRefused(c: Config, s: Store, st: Step)
    requires st.event.InsertJob? && st.event.id in s.jobs
    ensures Result(c, s, st) == ErrDatabase && Apply(c, s, st) == s
  {
    assert Apply(c, s, st).jobs == s.jobs;
  }

  /** What a job was created with is shown in every later state. */
  lemma CreatedForGood(c: Config, s: Store, steps: seq<Step>, id: JobId, n: nat, k: nat)
    requires n < k <= |steps| && steps[n].event.InsertJob? && steps[n].event.id == id && id !in At(c, s, steps, n).jobs
    ensures id in At(c, s, steps, k).jobs
    ensures var o, j := steps[n].event.opts, At(c, s, steps, k).jobs[id];
      && j.queue == o.queue && j.kind == o.kind && j.payload == o.payload && j.metadata == o.metadata
      && j.priority == (if o.priority == 0 then 1 else o.priority)
      && j.maxAttempts == (if o.maxAttempts == 0 then 25 else o.maxAttempts)
      && j.createdAt == (if c.dialect.Postgres? then steps[n].at else steps[n].at / 1000)
  {
    var created := At(c, s, steps, n + 1);
    Inserted(c, At(c, s, steps, n), steps[n], created.jobs[id]);
    Lifecycle.RunExtends(c, s, steps, n + 1, k);
    assert Lifecycle.Evolves(created.jobs[id], At(c, s, steps, k).jobs[id]);
  }

  // ----- claiming -----

  /** A claim starts the next attempt of its row for the worker, now, with a fresh lease, and returns the row as it then
      is. */
  lemma Claimed(c: Config, s: Store, st: Step, id: JobId)
    requires st.event.ClaimJob? && st.event.pick == Some(id) && Enabled(c, s, st)
    ensures id in s.jobs && id in Apply(c, s, st).jobs
    ensures var j, t := s.jobs[id], st.at;
      var now := if c.dialect.Postgres? then t else t / 1000;
      var lease := if c.dialect.Postgres? then t + c.lockNs / 1_000_000 else t / 1000 + c.lockNs / 1_000_000_000;
      && Apply(c, s, st).jobs[id] ==
           j.(status := Running, attempt := j.attempt + 1, attemptedAt := Some(now),
              attemptedBy := j.attemptedBy + [st.event.worker], lockExpiresAt := Some(lease))
      && Result(c, s, st) == Row(View(c.dialect, id, Apply(c, s, st).jobs[id]))
  {
    assert Candidate(s, st.event.queue, Stamp(c.dialect, st.at), st.event.skip, id);
  }

  lemma EmptyClaim(c: Config, s: Store, st: Step)
    requires st.event.ClaimJob? && st.event.pick == None
    ensures Result(c, s, st) == NoRow && Apply(c, s, st) == s
  {
    assert Apply(c, s, st).jobs == s.jobs;
  }

  /** Which worker made an attempt is shown in every later state. */
  lemma WorkerRecorded(c: Config, s: Store, steps: seq<Step>, id: JobId, n: nat, k: nat)
    requires n < k <= |steps| && Valid(c, s, steps) && Lifecycle.Balanced(s)
    requires steps[n].event.ClaimJob? && steps[n].event.pick == Some(id)
    ensures id in At(c, s, steps, n).jobs && id in At(c, s, steps, k).jobs
    ensures var a, j := At(c, s, steps, n).jobs[id].attempt, At(c, s, steps, k).jobs[id];
      a < |j.attemptedBy| && j.attemptedBy[a] == steps[n].event.worker
  {
    var before, after := At(c, s, steps, n), At(c, s, steps, n + 1);
    assert EnabledAt(c, s, steps, n);
    Claimed(c, before, steps[n], id);
    Lifecycle.LedgerAlways(c, s, steps, n);
    assert Lifecycle.Ledger(before.jobs[id]);
    assert after.jobs[id].attemptedBy[before.jobs[id].attempt] == steps[n].event.worker;
    Lifecycle.RunExtends(c, s, steps, n + 1, k);
    assert Lifecycle.Evolves(after.jobs[id], At(c, s, steps, k).jobs[id]);
  }

  /** attempted_at is when the job was last claimed: it stays until the next claim of the job. */
  lemma {:induction false} AttemptedAtStays(c: Config, s: Store, steps: seq<Step>, id: JobId, n: nat, k: nat)
    requires n < k <= |steps| && Valid(c, s, steps)
    requires steps[n].event.ClaimJob? && steps[n].event.pick == Some(id)
    requires forall i :: n < i < k && steps[i].event.ClaimJob? ==> steps[i].event.pick != Some(id)
    ensures id in At(c, s, steps, k).jobs
    ensures At(c, s, steps, k).jobs[id].attemptedAt ==
      Some(if c.dialect.Postgres? then steps[n].at else steps[n].at / 1000)
    decreases k
  {
    if k == n + 1 {
      assert EnabledAt(c, s, steps, n);
      Claimed(c, At(c, s, steps, n), steps[n], id);
    } else {
      AttemptedAtStays(c, s, steps, id, n, k - 1);
      RowStays(c, s, steps, id, k - 1);
    }
  }

  // ----- completing -----

  /** CompleteJob succeeds exactly on a running job, and then sets three columns; otherwise it changes nothing. */
  lemma Completed(c: Config, s: Store, st: Step)
    requires st.event.CompleteJob?
    ensures var id, now := st.event.id, if c.dialect.Postgres? then st.at else st.at / 1000;
      if id in s.jobs && s.jobs[id].status == Running then
        && Result(c, s, st) == Done && id in Apply(c, s, st).jobs
        && Apply(c, s, st).jobs[id] ==
             s.jobs[id].(status := Status.Completed, result := Some(st.event.result), finalizedAt := Some(now))
      else Result(c, s, st) == ErrWrongState && Apply(c, s, st) == s
  {
    if Result(c, s, st) != Done {
      assert Apply(c, s, st).jobs == s.jobs;
    }
  }

  /** Once CompleteJob has returned, the job is completed with the result handed in, since that moment, in every later
      state and in every row that a query shows. */
  lemma CompletedForGood(c: Config, s: Store, steps: seq<Step>, n: nat, k: nat, id: JobId, result: Json)
    requires n < k <= |steps| && steps[n].event == CompleteJob(id, result)
    requires Result(c, At(c, s, steps, n), steps[n]) == Done
    ensures id in At(c, s, steps, k).jobs
    ensures var j, t := At(c, s, steps, k).jobs[id], steps[n].at;
      && j.status == Status.Completed && j.result == Some(result)
      && j.finalizedAt == Some(if c.dialect.Postgres? then t else t / 1000)
      && View(c.dialect, id, j).status == Status.Completed && View(c.dialect, id, j).result == Some(result)
      && View(c.dialect, id, j).finalizedAt == Some(if c.dialect.Postgres? then t else 1000 * (t / 1000))
  {
    var before, after := At(c, s, steps, n), At(c, s, steps, n + 1);
    assert after == Apply(c, before, steps[n]);
    Completed(c, before, steps[n]);
    TerminalForGood(c, s, steps, id, n + 1, k, after.jobs[id]);
  }

  // ----- failing -----

  /** FailJob on a running job with attempts left, when it returns: the job is retryable with the message added, and due
      after the backoff: on Postgres to the millisecond, on SQLite after the backoff rounded up to whole seconds.  The
      negative backoffs that SQLite takes are as good as none. */
  lemma FailedForRetry(c: Config, s: Store, st: Step)
    requires st.event.FailJob? && Result(c, s, st) == Done
    ensures st.event.id in s.jobs && st.event.id in Apply(c, s, st).jobs
    ensures var j, after, t, b := s.jobs[st.event.id], Apply(c, s, st).jobs[st.event.id], st.at, st.event.backoffMs;
      j.attempt < j.maxAttempts ==>
        && after == j.(status := Retryable, scheduledAt := after.scheduledAt,
                       errors := j.errors + [ErrorEntry(t, st.event.message)], finalizedAt := None)
        && after.scheduledAt == (if c.dialect.Postgres? then t + b
                                 else if b >= 0 then t / 1000 + (b + 999) / 1000
                                 else t / 1000)
  {
  }

  /** So the job is due at a later clock reading exactly when the backoff has passed. */
  lemma RetryDueExactly(c: Config, s: Store, st: Step, now: nat)
    requires st.event.FailJob? && Result(c, s, st) == Done && st.event.id in s.jobs
    requires s.jobs[st.event.id].attempt < s.jobs[st.event.id].maxAttempts
    ensures st.event.id in Apply(c, s, st).jobs
    ensures var t, b := st.at, st.event.backoffMs;
      Due(Apply(c, s, st).jobs[st.event.id], if c.dialect.Postgres? then now else now / 1000) <==>
        if c.dialect.Postgres? then t + b <= now
        else if b >= 0 then t / 1000 + (b + 999) / 1000 <= now / 1000
        else t / 1000 <= now / 1000
  {
    FailedForRetry(c, s, st);
  }

  /** On its last attempt the job is discarded instead, keeping its due time. */
  lemma FailedForGood(c: Config, s: Store, st: Step)
    requires st.event.FailJob? && Result(c, s, st) == Done
    ensures st.event.id in s.jobs && st.event.id in Apply(c, s, st).jobs
    ensures var j, t := s.jobs[st.event.id], st.at;
      j.attempt >= j.maxAttempts ==>
        Apply(c, s, st).jobs[st.event.id] ==
          j.(status := Discarded, errors := j.errors + [ErrorEntry(t, st.event.message)],
             finalizedAt := Some(if c.dialect.Postgres? then t else t / 1000))
  {
  }

  /** FailJob returns exactly when the job runs and the database takes the backoff; on SQLite the last attempt takes
      any.  Postgres looks at the backoff first, SQLite at the row. */
  lemma FailReturns(c: Config, s: Store, st: Step)
    requires st.event.FailJob?
    ensures var id, b := st.event.id, st.event.backoffMs;
      var running := id in s.jobs && s.jobs[id].status == Running;
      var fits := c.dialect.Postgres? ==> -0x8000_0000 <= b <= 0x7fff_ffff;
      && (Result(c, s, st) == ErrWrongState <==> fits && !running)
      && (Result(c, s, st) == Done ==> fits && running)
      && (c.dialect.Postgres? && fits && running ==> Result(c, s, st) == Done)
      && (running && s.jobs[id].attempt >= s.jobs[id].maxAttempts && fits ==> Result(c, s, st) == Done)
      && (Result(c, s, st) in {Done, ErrWrongState, ErrDatabase})
  {
  }

  /** The row takes part in attempt a and leaves it with this entry. */
  ghost predicate EndsWith(before: Job, after: Job, entry: ErrorEntry) {
    after.errors == before.errors + [entry]
  }

  /** The entry of a failed attempt stays where it is: entry a - 1 is about attempt a, in every later state. */
  lemma EntryForGood(c: Config, s: Store, steps: seq<Step>, id: JobId, n: nat, k: nat, entry: ErrorEntry)
    requires n < k <= |steps| && Lifecycle.Balanced(s)
    requires id in At(c, s, steps, n).jobs && At(c, s, steps, n).jobs[id].status == Running
    requires id in At(c, s, steps, n + 1).jobs
    requires EndsWith(At(c, s, steps, n).jobs[id], At(c, s, steps, n + 1).jobs[id], entry)
    ensures id in At(c, s, steps, k).jobs
    ensures var a, j := At(c, s, steps, n).jobs[id].attempt, At(c, s, steps, k).jobs[id];
      1 <= a <= |j.errors| && j.errors[a - 1] == entry
  {
    Lifecycle.LedgerAlways(c, s, steps, n);
    assert Lifecycle.Ledger(At(c, s, steps, n).jobs[id]);
    Lifecycle.RunExtends(c, s, steps, n + 1, k);
    assert Lifecycle.Evolves(At(c, s, steps, n + 1).jobs[id], At(c, s, steps, k).jobs[id]);
  }

  /** The message given to FailJob is shown, with its time, as the error of that attempt in every later state. */
  lemma MessageForGood(c: Config, s: Store, steps: seq<Step>, n: nat, k: nat, id: JobId, message: string)
    requires n < k <= |steps| && Lifecycle.Balanced(s) && steps[n].event.FailJob?
    requires steps[n].event.id == id && steps[n].event.message == message
    requires Result(c, At(c, s, steps, n), steps[n]) == Done
    ensures id in At(c, s, steps, n).jobs && id in At(c, s, steps, k).jobs
    ensures var a, j := At(c, s, steps, n).jobs[id].attempt, At(c, s, steps, k).jobs[id];
      && 1 <= a <= |j.errors| && j.errors[a - 1] == ErrorEntry(steps[n].at, message)
      && View(c.dialect, id, j).errors == j.errors
  {
    var before := At(c, s, steps, n);
    FailReturns(c, before, steps[n]);
    FailedForRetry(c, before, steps[n]);
    FailedForGood(c, before, steps[n]);
    assert At(c, s, steps, n + 1) == Apply(c, before, steps[n]);
    EntryForGood(c, s, steps, id, n, k, ErrorEntry(steps[n].at, message));
  }

  // ----- expiry -----

  /** FailExpiredJobs takes only running jobs whose lease has passed, gives each the entry 'job lock expired', clears
      the
      lease, and makes it due at once or discards it. */
  lemma Expired(c: Config, s: Store, st: Step, id: JobId)
    requires st.event.FailExpiredJobs? && Enabled(c, s, st) && id in st.event.batch
    ensures id in s.jobs && id in Apply(c, s, st).jobs
    ensures var j, t, now := s.jobs[id], st.at, if c.dialect.Postgres? then st.at else st.at / 1000;
      && j.status == Running && j.lockExpiresAt.Some? && j.lockExpiresAt.value < now && id !in st.event.skip
      && Apply(c, s, st).jobs[id] ==
           if j.attempt >= j.maxAttempts then
             j.(status := Discarded, errors := j.errors + [ErrorEntry(t, "job lock expired")],
                finalizedAt := Some(now), lockExpiresAt := None)
           else
             j.(status := Retryable, scheduledAt := now, errors := j.errors + [ErrorEntry(t, "job lock expired")],
                finalizedAt := None, lockExpiresAt := None)
  {
    assert id in LapsedRows(s.jobs, Stamp(c.dialect, st.at)) - st.event.skip;
  }

  /** That entry stays, too. */
  lemma ExpiryForGood(c: Config, s: Store, steps: seq<Step>, id: JobId, n: nat, k: nat)
    requires n < k <= |steps| && Lifecycle.Balanced(s) && EnabledAt(c, s, steps, n)
    requires steps[n].event.FailExpiredJobs? && id in steps[n].event.batch
    ensures id in At(c, s, steps, n).jobs && id in At(c, s, steps, k).jobs
    ensures var a, j := At(c, s, steps, n).jobs[id].attempt, At(c, s, steps, k).jobs[id];
      1 <= a <= |j.errors| && j.errors[a - 1] == ErrorEntry(steps[n].at, "job lock expired")
  {
    var before := At(c, s, steps, n);
    Expired(c, before, steps[n], id);
    assert At(c, s, steps, n + 1) == Apply(c, before, steps[n]);
    EntryForGood(c, s, steps, id, n, k, ErrorEntry(steps[n].at, "job lock expired"));
  }

  // ----- heartbeats -----

  /** HeartbeatJob succeeds exactly on a running job with a progress, if any, in 0..100; then it renews the lease and
      sets that progress, otherwise it changes nothing. */
  lemma Beaten(c: Config, s: Store, st: Step)
    requires st.event.HeartbeatJob?
    ensures var id, p, t := st.event.id, st.event.progress, st.at;
      var lease := if c.dialect.Postgres? then t + c.lockNs / 1_000_000 else t / 1000 + c.lockNs / 1_000_000_000;
      if id !in s.jobs || s.jobs[id].status != Running then Result(c, s, st) == ErrWrongState && Apply(c, s, st) == s
      else if p.Some? && (p.value < 0 || p.value > 100) then Result(c, s, st) == ErrDatabase && Apply(c, s, st) == s
      else
        && Result(c, s, st) == Done && id in Apply(c, s, st).jobs
        && Apply(c, s, st).jobs[id] ==
             s.jobs[id].(lockExpiresAt := Some(lease), progress := if p.Some? then p.value else s.jobs[id].progress)
  {
    if Result(c, s, st) != Done {
      assert Apply(c, s, st).jobs == s.jobs;
    }
  }

  /** The progress of the latest heartbeat before step n that returned and carried one; without any, the progress at
      the start, or 0 for a job created since. */
  ghost function LatestProgress(c: Config, s: Store, steps: seq<Step>, id: JobId, n: nat): int
    requires n <= |steps|
  {
    if n == 0 then (if id in s.jobs then s.jobs[id].progress else 0)
    else if Reports(c, s, steps, id, n - 1) then steps[n - 1].event.progress.value
    else LatestProgress(c, s, steps, id, n - 1)
  }

  ghost predicate Reports(c: Config, s: Store, steps: seq<Step>, id: JobId, n: nat)
    requires n < |steps|
  {
    && steps[n].event.HeartbeatJob? && steps[n].event.id == id && steps[n].event.progress.Some?
    && Result(c, At(c, s, steps, n), steps[n]) == Done
  }

  lemma ProgressStep(c: Config, s: Store, st: Step, s': Store, id: JobId)
    requires s' == Apply(c, s, st) && id in s.jobs
    ensures id in s'.jobs
    ensures s'.jobs[id].progress ==
      if st.event.HeartbeatJob? && st.event.id == id && st.event.progress.Some? && Result(c, s, st) == Done
      then st.event.progress.value else s.jobs[id].progress
  {
    assert s'.jobs[id] == RowAfter(c, st, id, s.jobs[id]);
  }

  lemma ProgressStarts(c: Config, s: Store, st: Step, s': Store, id: JobId)
    requires s' == Apply(c, s, st) && id !in s.jobs
    ensures id in s'.jobs ==> s'.jobs[id].progress == 0
    ensures st.event.HeartbeatJob? && st.event.id == id ==> Result(c, s, st) != Done
  {
  }

  lemma {:induction false} NoProgressBefore(c: Config, s: Store, steps: seq<Step>, id: JobId, n: nat)
    requires n <= |steps| && id !in At(c, s, steps, n).jobs
    ensures LatestProgress(c, s, steps, id, n) == 0
  {
    if n > 0 {
      assert id !in At(c, s, steps, n - 1).jobs;
      NoProgressBefore(c, s, steps, id, n - 1);
      ProgressStarts(c, At(c, s, steps, n - 1), steps[n - 1], At(c, s, steps, n), id);
    }
  }

  /** The progress of a job is always that of its latest heartbeat that carried one. */
  lemma {:induction false} ProgressIsLatest(c: Config, s: Store, steps: seq<Step>, id: JobId, n: nat)
    requires n <= |steps| && id in At(c, s, steps, n).jobs
    ensures At(c, s, steps, n).jobs[id].progress == LatestProgress(c, s, steps, id, n)
  {
    if n > 0 {
      var before, after := At(c, s, steps, n - 1), At(c, s, steps, n);
      if id in before.jobs {
        ProgressIsLatest(c, s, steps, id, n - 1);
        ProgressStep(c, before, steps[n - 1], after, id);
      } else {
        NoProgressBefore(c, s, steps, id, n - 1);
        ProgressStarts(c, before, steps[n - 1], after, id);
      }
    }
  }

  // ----- promoting and cancelling -----

  /** PromoteJob succeeds exactly on a pending job, which becomes available if it is due and scheduled otherwise. */
  lemma Released(c: Config, s: Store, st: Step)
    requires st.event.PromoteJob?
    ensures var id, now := st.event.id, if c.dialect.Postgres? then st.at else st.at / 1000;
      if id in s.jobs && s.jobs[id].status == Pending then
        && Result(c, s, st) == Done && id in Apply(c, s, st).jobs
        && Apply(c, s, st).jobs[id] ==
             s.jobs[id].(status := if s.jobs[id].scheduledAt <= now then Available else Scheduled)
      else Result(c, s, st) == ErrWrongState && Apply(c, s, st) == s
  {
    if Result(c, s, st) != Done {
      assert Apply(c, s, st).jobs == s.jobs;
    }
  }

  /** PromoteScheduledJobs takes only scheduled and retryable jobs that are due, and makes them available. */
  lemma Promoted(c: Config, s: Store, st: Step, id: JobId)
    requires st.event.PromoteScheduledJobs? && Enabled(c, s, st) && id in st.event.batch
    ensures id in s.jobs && id in Apply(c, s, st).jobs
    ensures var j, now := s.jobs[id], if c.dialect.Postgres? then st.at else st.at / 1000;
      && (j.status == Scheduled || j.status == Retryable) && j.scheduledAt <= now && id !in st.event.skip
      && Apply(c, s, st).jobs[id] == j.(status := Available)
  {
    assert id in DueRows(s.jobs, Stamp(c.dialect, st.at)) - st.event.skip;
  }

  /** CancelJob succeeds exactly on a job that is not completed, discarded or cancelled. */
  lemma Cancelled(c: Config, s: Store, st: Step)
    requires st.event.CancelJob? && Lifecycle.Balanced(s)
    ensures var id, now := st.event.id, if c.dialect.Postgres? then st.at else st.at / 1000;
      if id in s.jobs && s.jobs[id].status !in {Status.Completed, Discarded, Status.Cancelled} then
        && Result(c, s, st) == Done && id in Apply(c, s, st).jobs
        && Apply(c, s, st).jobs[id] == s.jobs[id].(status := Status.Cancelled, finalizedAt := Some(now))
      else Result(c, s, st) == ErrWrongState && Apply(c, s, st) == s
  {
    if st.event.id in s.jobs {
      assert Lifecycle.Ledger(s.jobs[st.event.id]);
    }
    if Result(c, s, st) != Done {
      assert Apply(c, s, st).jobs == s.jobs;
    }
  }

  /** Once CancelJob has returned, the job is cancelled, since that moment, in every later state. */
  lemma CancelledForGood(c: Config, s: Store, steps: seq<Step>, n: nat, k: nat, id: JobId)
    requires n < k <= |steps| && Lifecycle.Balanced(s) && steps[n].event == CancelJob(id)
    requires Result(c, At(c, s, steps, n), steps[n]) == Done
    ensures id in At(c, s, steps, k).jobs
    ensures var j, t := At(c, s, steps, k).jobs[id], steps[n].at;
      j.status == Status.Cancelled && j.finalizedAt == Some(if c.dialect.Postgres? then t else t / 1000)
  {
    var before, after := At(c, s, steps, n), At(c, s, steps, n + 1);
    assert after == Apply(c, before, steps[n]);
    Lifecycle.LedgerAlways(c, s, steps, n);
    Cancelled(c, before, steps[n]);
    TerminalForGood(c, s, steps, id, n + 1, k, after.jobs[id]);
  }

  // ----- bounded batches -----

  /** A batch holds the earliest due jobs: min(limit, due) of them (1000 for a non-positive limit), and no due job left
      behind, unless it was skipped, is due before one that was taken. */
  lemma PromotesEarliest(c: Config, s: Store, st: Step, taken: JobId, left: JobId)
    requires st.event.PromoteScheduledJobs? && Enabled(c, s, st)
    requires taken in st.event.batch && left in s.jobs && left !in st.event.batch && left !in st.event.skip
    requires s.jobs[left].status == Scheduled || s.jobs[left].status == Retryable
    requires s.jobs[left].scheduledAt <= if c.dialect.Postgres? then st.at else st.at / 1000
    ensures taken in s.jobs && s.jobs[taken].scheduledAt <= s.jobs[left].scheduledAt
    ensures |st.event.batch| == if st.event.limit <= 0 then 1000 else st.event.limit
    ensures Result(c, s, st) == Affected(|st.event.batch|)
  {
    var rows := DueRows(s.jobs, Stamp(c.dialect, st.at)) - st.event.skip;
    assert taken in rows && left in rows;
    FullBatch(rows, BatchLimit(st.event.limit), st.event.batch, left);
  }

  /** The same for expiry, by the end of the lease. */
  lemma ExpiresEarliest(c: Config, s: Store, st: Step, taken: JobId, left: JobId)
    requires st.event.FailExpiredJobs? && Enabled(c, s, st)
    requires taken in st.event.batch && left in s.jobs && left !in st.event.batch && left !in st.event.skip
    requires s.jobs[left].status == Running && s.jobs[left].lockExpiresAt.Some?
    requires s.jobs[left].lockExpiresAt.value < if c.dialect.Postgres? then st.at else st.at / 1000
    ensures taken in s.jobs && s.jobs[taken].lockExpiresAt.Some?
    ensures s.jobs[taken].lockExpiresAt.value <= s.jobs[left].lockExpiresAt.value
    ensures |st.event.batch| == if st.event.limit <= 0 then 1000 else st.event.limit
    ensures Result(c, s, st) == Affected(|st.event.batch|)
  {
    var rows := LapsedRows(s.jobs, Stamp(c.dialect, st.at)) - st.event.skip;
    assert taken in rows && left in rows;
    FullBatch(rows, BatchLimit(st.event.limit), st.event.batch, left);
  }

  lemma FullBatch(rows: map<JobId, int>, n: nat, batch: set<JobId>, left: JobId)
    requires IsBatch(rows, n, batch) && left in rows && left !in batch
    ensures |batch| == n
  {
    if |rows| <= n {
      SameSize(batch, rows.Keys);
    }
  }

  lemma {:induction false} SameSize(a: set<JobId>, b: set<JobId>)
    requires a <= b && |a| == |b|
    ensures a == b
    decreases a
  {
    if a == {} {
      assert b == {};
    } else {
      var x :| x in a;
      SameSize(a - {x}, b - {x});
    }
  }

  // ----- what a query shows -----

  /** A row as every query returns it: the columns as they are, the instants in milliseconds on both drivers. */
  lemma Shown(d: Dialect, id: JobId, j: Job, row: JobRow)
    requires row == View(d, id, j)
    ensures row.id == id && row.queue == j.queue && row.kind == j.kind && row.status == j.status
    ensures row.priority == j.priority && row.attempt == j.attempt && row.maxAttempts == j.maxAttempts
    ensures row.progress == j.progress && row.payload == j.payload && row.metadata == j.metadata
    ensures row.result == j.result && row.errors == j.errors
    ensures var unit := if d.Postgres? then 1 else 1000;
      && row.createdAt == unit * j.createdAt && row.scheduledAt == unit * j.scheduledAt
      && (row.attemptedAt.Some? <==> j.attemptedAt.Some?) && (row.finalizedAt.Some? <==> j.finalizedAt.Some?)
      && (j.attemptedAt.Some? ==> row.attemptedAt.value == unit * j.attemptedAt.value)
      && (j.finalizedAt.Some? ==> row.finalizedAt.value == unit * j.finalizedAt.value)
  {
  }
}
