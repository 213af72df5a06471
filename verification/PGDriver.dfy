/** The Postgres driver: tables in milliseconds, one method per statement. */
module PGDriver {
  import opened Wrappers
  import opened Jobs
  import Claims
  import Counts
  import Selection

  class Driver {
    const lockNs: nat
    var jobs: map<JobId, Job>
    var queues: map<string, QueueRow>
    /** Every statement executed so far. */
    ghost var log: seq<Step>

    constructor (lockNs: nat)
      ensures Valid() && Tables() == EMPTY && this.lockNs == lockNs
    {
      this.lockNs, jobs, queues, log := lockNs, map[], map[], [];
    }

    ghost function Tables(): Store
      reads this
    {
      Store(jobs, queues)
    }

    /** The tables are the result of the statements in the log, so every theorem about runs is one about the driver. */
    ghost predicate Valid()
      reads this
    {
      Counts.Logged(Conf(), log, Tables())
    }

    ghost function Conf(): Config {
      Config(Postgres, lockNs)
    }

    /** The driver has executed st: it is the next statement of the log, and the tables are those Apply describes. */
    twostate predicate Ran(st: Step)
      reads this
    {
      Tables() == Apply(Conf(), old(Tables()), st) && log == old(log) + [st]
    }

    method CreateJob(o: CreateOpts, id: JobId, upsertAt: nat, readAt: nat, comparedAt: nat, at: nat)
      returns (r: Outcome)
      requires upsertAt <= readAt <= comparedAt <= at
      requires Valid()
      modifies this
      ensures Valid()
      ensures log == old(log) + [Step(upsertAt, Event.UpsertQueue(o.queue)),
                                 Step(at, Event.InsertJob(id, o, readAt, comparedAt))]
      ensures Tables() == Apply(Conf(), Apply(Conf(), old(Tables()), Step(upsertAt, Event.UpsertQueue(o.queue))),
                                Step(at, Event.InsertJob(id, o, readAt, comparedAt)))
      ensures r == Result(Conf(), Apply(Conf(), old(Tables()), Step(upsertAt, Event.UpsertQueue(o.queue))),
                          Step(at, Event.InsertJob(id, o, readAt, comparedAt)))
    {
      UpsertQueue(o.queue, upsertAt);
      assert log[|log| - 1].event == Event.UpsertQueue(o.queue);
      r := InsertJob(id, o, readAt, comparedAt, at);
    }

    method UpsertQueue(name: string, now: nat)
      requires Valid()
      modifies this
      ensures Valid()
      ensures Ran(Step(now, Event.UpsertQueue(name)))
    {
      ghost var st := Step(now, Event.UpsertQueue(name));
      Counts.LogStep(Conf(), log, Tables(), st);
      log := log + [st];
      Selection.NoRow(Conf(), jobs, st);
      if name in queues {
        queues := queues[name := queues[name].(updatedAt := now)];
      } else {
        queues := queues[name := QueueRow(None, now, now)];
      }
    }

    method InsertJob(id: JobId, o: CreateOpts, readAt: nat, comparedAt: nat, at: nat) returns (r: Outcome)
      requires Valid() && Counts.Upserted(log, o.queue) && readAt <= comparedAt <= at
      modifies this
      ensures Valid()
      ensures Ran(Step(at, Event.InsertJob(id, o, readAt, comparedAt)))
      ensures r == Result(Conf(), old(Tables()), Step(at, Event.InsertJob(id, o, readAt, comparedAt)))
    {
      var scheduled := readAt;
      if o.scheduledAt.Some? {
        scheduled := o.scheduledAt.value;
      }
      var priority := o.priority;
      if priority == 0 {
        priority := 1;
      }
      var maxAttempts := o.maxAttempts;
      if maxAttempts == 0 {
        maxAttempts := 25;
      }
      var status := Available;
      if scheduled > comparedAt {
        status := Scheduled;
      }
      if o.pending {
        status := Pending;
      }
      ghost var st := Step(at, Event.InsertJob(id, o, readAt, comparedAt));
      Counts.LogStep(Conf(), log, Tables(), st);
      log := log + [st];
      Selection.NewRow(Conf(), jobs, st);
      if id in jobs {
        r := ErrDatabase;
      } else {
        var j := Job(o.queue, o.kind, status, priority, 0, maxAttempts, 0, o.payload, o.metadata, None, [], [],
                     at, scheduled, None, None, None);
        jobs := jobs[id := j];
        r := Row(View(Postgres, id, j));
      }
    }

    /** skip: the rows other transactions hold locked. */
    method ClaimJob(queue: string, worker: string, skip: set<JobId>, now: nat)
      returns (r: Outcome, ghost pick: Option<JobId>)
      requires Valid()
      modifies this
      ensures Valid()
      ensures Enabled(Conf(), old(Tables()), Step(now, Event.ClaimJob(queue, worker, skip, pick)))
      ensures Ran(Step(now, Event.ClaimJob(queue, worker, skip, pick)))
      ensures r == Result(Conf(), old(Tables()), Step(now, Event.ClaimJob(queue, worker, skip, pick)))
    {
      var chosen := Claims.SelectJob(Store(jobs, queues), queue, now, skip);
      pick := chosen;
      ghost var st := Step(now, Event.ClaimJob(queue, worker, skip, chosen));
      Counts.LogStep(Conf(), log, Tables(), st);
      log := log + [st];
      match chosen
      case None =>
        r := NoRow;
        Selection.NoRow(Conf(), jobs, st);
      case Some(id) =>
        Selection.ClaimRan(Conf(), Tables(), st, id);
        Take(id, worker, now);
        r := Row(View(Postgres, id, jobs[id]));
    }

    method Take(id: JobId, worker: string, now: nat)
      requires id in jobs
      modifies this`jobs
      ensures jobs ==
        old(jobs)[id := Changed(old(jobs)[id], Claim(worker, Stamp(Postgres, now), LeaseEnd(Conf(), now)))]
    {
      var lockMs := lockNs / 1_000_000;
      var j := jobs[id];
      jobs := jobs[id := j.(status := Running, attempt := j.attempt + 1, attemptedAt := Some(now),
                            attemptedBy := j.attemptedBy + [worker], lockExpiresAt := Some(now + lockMs))];
    }

    method CompleteJob(id: JobId, result: Json, now: nat) returns (r: Outcome)
      requires Valid()
      modifies this
      ensures Valid()
      ensures Ran(Step(now, Event.CompleteJob(id, result)))
      ensures r == Result(Conf(), old(Tables()), Step(now, Event.CompleteJob(id, result)))
    {
      ghost var st := Step(now, Event.CompleteJob(id, result));
      Counts.LogStep(Conf(), log, Tables(), st);
      log := log + [st];
      Selection.RowRan(Conf(), Tables(), st, id);
      if id in jobs && jobs[id].status.Running? {
        jobs := jobs[id := jobs[id].(status := Completed, finalizedAt := Some(now), result := Some(result))];
        r := Done;
      } else {
        r := ErrWrongState;
      }
    }

    method FailJob(id: JobId, message: string, backoffMs: Int64, now: nat) returns (r: Outcome)
      requires Valid()
      modifies this
      ensures Valid()
      ensures Ran(Step(now, Event.FailJob(id, message, backoffMs)))
      ensures r == Result(Conf(), old(Tables()), Step(now, Event.FailJob(id, message, backoffMs)))
    {
      ghost var st := Step(now, Event.FailJob(id, message, backoffMs));
      Counts.LogStep(Conf(), log, Tables(), st);
      log := log + [st];
      Selection.RowRan(Conf(), Tables(), st, id);
      if backoffMs < MIN_INT32 || backoffMs > MAX_INT32 {
        return ErrDatabase;
      }
      if id in jobs && jobs[id].status.Running? {
        var j := jobs[id];
        var errors := j.errors + [ErrorEntry(now, message)];
        if j.attempt >= j.maxAttempts {
          jobs := jobs[id := j.(status := Discarded, errors := errors, finalizedAt := Some(now))];
        } else {
          jobs := jobs[id := j.(status := Retryable, scheduledAt := now + backoffMs, errors := errors,
              finalizedAt := None)];
        }
        r := Done;
      } else {
        r := ErrWrongState;
      }
    }

    method HeartbeatJob(id: JobId, progress: Option<int>, now: nat) returns (r: Outcome)
      requires Valid()
      modifies this
      ensures Valid()
      ensures Ran(Step(now, Event.HeartbeatJob(id, progress)))
      ensures r == Result(Conf(), old(Tables()), Step(now, Event.HeartbeatJob(id, progress)))
    {
      ghost var st := Step(now, Event.HeartbeatJob(id, progress));
      Counts.LogStep(Conf(), log, Tables(), st);
      log := log + [st];
      Selection.RowRan(Conf(), Tables(), st, id);
      var lockMs := lockNs / 1_000_000;
      if id in jobs && jobs[id].status.Running? {
        if progress.Some? && !(0 <= progress.value <= 100) {
          return ErrDatabase;
        }
        jobs := jobs[id := jobs[id].(lockExpiresAt := Some(now + lockMs))];
        if progress.Some? {
          jobs := jobs[id := jobs[id].(progress := progress.value)];
        }
        r := Done;
      } else {
        r := ErrWrongState;
      }
    }

    method FailExpiredJobs(limit: int, skip: set<JobId>, now: nat) returns (n: nat, ghost batch: set<JobId>)
      requires Valid()
      modifies this
      ensures Valid()
      ensures Enabled(Conf(), old(Tables()), Step(now, Event.FailExpiredJobs(limit, skip, batch)))
      ensures Ran(Step(now, Event.FailExpiredJobs(limit, skip, batch)))
      ensures n == |batch|
    {
      var chosen := Selection.SelectBatch(LapsedRows(jobs, now) - skip, BatchLimit(limit));
      batch, n := chosen, |chosen|;
      ghost var st := Step(now, Event.FailExpiredJobs(limit, skip, chosen));
      Selection.LapsedChosen(Conf(), Tables(), st);
      Counts.LogStep(Conf(), log, Tables(), st);
      log := log + [st];
      Reap(chosen, now);
      Selection.LapsedBatchRan(Conf(), old(Tables()), st, Tables());
    }

    method Reap(chosen: set<JobId>, now: nat)
      requires chosen <= jobs.Keys
      modifies this`jobs
      ensures Selection.Rewritten(old(jobs), jobs, chosen, Change.Reap(ErrorEntry(now, LOCK_EXPIRED), now))
    {
      var todo := chosen;
      while todo != {}
        invariant todo <= chosen
        invariant Selection.Rewritten(old(jobs), jobs, chosen - todo, Change.Reap(ErrorEntry(now, LOCK_EXPIRED), now))
        decreases todo
      {
        var id :| id in todo;
        todo := todo - {id};
        var j := jobs[id];
        var errors := j.errors + [ErrorEntry(now, LOCK_EXPIRED)];
        if j.attempt >= j.maxAttempts {
          jobs := jobs[id := j.(status := Discarded, errors := errors, finalizedAt := Some(now),
              lockExpiresAt := None)];
        } else {
          jobs := jobs[id := j.(status := Retryable, scheduledAt := now, errors := errors,
                                finalizedAt := None, lockExpiresAt := None)];
        }
      }
    }

    method PromoteJob(id: JobId, now: nat) returns (r: Outcome)
      requires Valid()
      modifies this
      ensures Valid()
      ensures Ran(Step(now, Event.PromoteJob(id)))
      ensures r == Result(Conf(), old(Tables()), Step(now, Event.PromoteJob(id)))
    {
      ghost var st := Step(now, Event.PromoteJob(id));
      Counts.LogStep(Conf(), log, Tables(), st);
      log := log + [st];
      Selection.RowRan(Conf(), Tables(), st, id);
      if id in jobs && jobs[id].status.Pending? {
        jobs := jobs[id := jobs[id].(status := if jobs[id].scheduledAt > now then Scheduled else Available)];
        r := Done;
      } else {
        r := ErrWrongState;
      }
    }

    method CancelJob(id: JobId, now: nat) returns (r: Outcome)
      requires Valid()
      modifies this
      ensures Valid()
      ensures Ran(Step(now, Event.CancelJob(id)))
      ensures r == Result(Conf(), old(Tables()), Step(now, Event.CancelJob(id)))
    {
      ghost var st := Step(now, Event.CancelJob(id));
      Counts.LogStep(Conf(), log, Tables(), st);
      log := log + [st];
      Selection.RowRan(Conf(), Tables(), st, id);
      if id in jobs && jobs[id].status !in {Completed, Discarded, Cancelled} {
        var finalized := jobs[id].finalizedAt;
        if finalized.None? {
          finalized := Some(now);
        }
        jobs := jobs[id := jobs[id].(status := Cancelled, finalizedAt := finalized)];
        r := Done;
      } else {
        r := ErrWrongState;
      }
    }

    method PromoteScheduledJobs(limit: int, skip: set<JobId>, now: nat) returns (n: nat, ghost batch: set<JobId>)
      requires Valid()
      modifies this
      ensures Valid()
      ensures Enabled(Conf(), old(Tables()), Step(now, Event.PromoteScheduledJobs(limit, skip, batch)))
      ensures Ran(Step(now, Event.PromoteScheduledJobs(limit, skip, batch)))
      ensures n == |batch|
    {
      var chosen := Selection.SelectBatch(DueRows(jobs, now) - skip, BatchLimit(limit));
      batch, n := chosen, |chosen|;
      ghost var st := Step(now, Event.PromoteScheduledJobs(limit, skip, chosen));
      Selection.DueChosen(Conf(), Tables(), st);
      Counts.LogStep(Conf(), log, Tables(), st);
      log := log + [st];
      MakeAvailable(chosen, now);
      Selection.DueBatchRan(Conf(), old(Tables()), st, Tables());
    }

    method MakeAvailable(chosen: set<JobId>, ghost now: nat)
      requires chosen <= jobs.Keys
      modifies this`jobs
      ensures Selection.Rewritten(old(jobs), jobs, chosen, Promote(now))
    {
      var todo := chosen;
      while todo != {}
        invariant todo <= chosen
        invariant Selection.Rewritten(old(jobs), jobs, chosen - todo, Promote(now))
        decreases todo
      {
        var id :| id in todo;
        todo := todo - {id};
        jobs := jobs[id := jobs[id].(status := Available)];
      }
    }

    method PauseQueue(name: string, now: nat)
      requires Valid()
      modifies this
      ensures Valid()
      ensures Ran(Step(now, Event.PauseQueue(name)))
    {
      ghost var st := Step(now, Event.PauseQueue(name));
      Counts.LogStep(Conf(), log, Tables(), st);
      log := log + [st];
      Selection.NoRow(Conf(), jobs, st);
      if name in queues {
        queues := queues[name := queues[name].(pausedAt := Some(now), updatedAt := now)];
      } else {
        queues := queues[name := QueueRow(Some(now), now, now)];
      }
    }

    method ResumeQueue(name: string, now: nat)
      requires Valid()
      modifies this
      ensures Valid()
      ensures Ran(Step(now, Event.ResumeQueue(name)))
    {
      ghost var st := Step(now, Event.ResumeQueue(name));
      Counts.LogStep(Conf(), log, Tables(), st);
      log := log + [st];
      Selection.NoRow(Conf(), jobs, st);
      if name in queues {
        queues := queues[name := queues[name].(pausedAt := None, updatedAt := now)];
      }
    }
  }
}
