/** Runs from empty tables, built one statement at a time, with a single job in a single queue. */
module SingleJob {
  import opened Wrappers
  import opened Jobs
  import Lifecycle

  const QUEUE := "q"

  /** The tables with the one job, its queue upserted at instant 0. */
  function With(j: Job): Store {
    Store(map[0 := j], map[QUEUE := QueueRow(None, 0, 0)])
  }

  function Upsert(): Step {
    Step(0, UpsertQueue(QUEUE))
  }

  function Insert(o: CreateOpts): Step {
    Step(0, InsertJob(0, o, 0, 0))
  }

  function Created(d: Dialect, o: CreateOpts): Job {
    NewJob(d, o, 0, 0, 0)
  }

  function ClaimBy(worker: string, at: nat): Step {
    Step(at, ClaimJob(QUEUE, worker, {}, Some(0)))
  }

  function ClaimedRow(c: Config, j: Job, worker: string, at: nat): Job {
    Changed(j, Claim(worker, Stamp(c.dialect, at), LeaseEnd(c, at)))
  }

  function Expire(at: nat): Step {
    Step(at, FailExpiredJobs(1, {}, {0}))
  }

  function ExpiredRow(c: Config, j: Job, at: nat): Job {
    Changed(j, Reap(ErrorEntry(at, LOCK_EXPIRED), Stamp(c.dialect, at)))
  }

  function PromoteDue(at: nat): Step {
    Step(at, PromoteScheduledJobs(1, {}, {0}))
  }

  lemma Append(c: Config, h: seq<Step>, s: Store, st: Step, end: Store)
    requires Lifecycle.Reaches(c, EMPTY, h, s) && Enabled(c, s, st) && Apply(c, s, st) == end
    ensures Lifecycle.Reaches(c, EMPTY, h + [st], end)
  {
    Lifecycle.AppendStep(c, EMPTY, h, st);
  }

  /** The queue is upserted and the job created. */
  lemma Create(c: Config, o: CreateOpts)
    requires o.queue == QUEUE
    ensures Lifecycle.Reaches(c, EMPTY, [Upsert(), Insert(o)], With(Created(c.dialect, o)))
  {
    var queueOnly := Store(map[], map[QUEUE := QueueRow(None, 0, 0)]);
    Append(c, [], EMPTY, Upsert(), queueOnly);
    Append(c, [Upsert()], queueOnly, Insert(o), With(Created(c.dialect, o)));
    assert [] + [Upsert()] == [Upsert()] && [Upsert()] + [Insert(o)] == [Upsert(), Insert(o)];
  }

  lemma OneRowStep(c: Config, j: Job, st: Step)
    requires !st.event.InsertJob? && !st.event.UpsertQueue? && !st.event.PauseQueue? && !st.event.ResumeQueue?
    ensures Apply(c, With(j), st) == With(RowAfter(c, st, 0, j))
  {
  }

  lemma ThenClaim(c: Config, h: seq<Step>, j: Job, worker: string, at: nat)
    requires Lifecycle.Reaches(c, EMPTY, h, With(j)) && Eligible(j, QUEUE, Stamp(c.dialect, at))
    ensures Lifecycle.Reaches(c, EMPTY, h + [ClaimBy(worker, at)], With(ClaimedRow(c, j, worker, at)))
  {
    OneRowStep(c, j, ClaimBy(worker, at));
    Append(c, h, With(j), ClaimBy(worker, at), With(ClaimedRow(c, j, worker, at)));
  }

  lemma OneInBatch(rows: map<JobId, int>)
    requires rows.Keys == {0}
    ensures IsBatch(rows - {}, 1, {0})
  {
    assert rows - {} == rows;
    assert |rows| == |rows.Keys| == 1;
  }

  lemma ThenExpire(c: Config, h: seq<Step>, j: Job, at: nat)
    requires Lifecycle.Reaches(c, EMPTY, h, With(j)) && Lapsed(j, Stamp(c.dialect, at))
    ensures Lifecycle.Reaches(c, EMPTY, h + [Expire(at)], With(ExpiredRow(c, j, at)))
  {
    OneRowStep(c, j, Expire(at));
    OneInBatch(LapsedRows(With(j).jobs, Stamp(c.dialect, at)));
    Append(c, h, With(j), Expire(at), With(ExpiredRow(c, j, at)));
  }

  lemma ThenPromote(c: Config, h: seq<Step>, j: Job, at: nat)
    requires Lifecycle.Reaches(c, EMPTY, h, With(j)) && Due(j, Stamp(c.dialect, at))
    ensures Lifecycle.Reaches(c, EMPTY, h + [PromoteDue(at)], With(j.(status := Available)))
  {
    OneRowStep(c, j, PromoteDue(at));
    OneInBatch(DueRows(With(j).jobs, Stamp(c.dialect, at)));
    Append(c, h, With(j), PromoteDue(at), With(j.(status := Available)));
  }

  /** A statement for the job alone. */
  lemma ThenStep(c: Config, h: seq<Step>, j: Job, st: Step)
    requires Lifecycle.Reaches(c, EMPTY, h, With(j))
    requires st.event.CompleteJob? || st.event.FailJob? || st.event.HeartbeatJob? || st.event.CancelJob?
    ensures Lifecycle.Reaches(c, EMPTY, h + [st], With(RowAfter(c, st, 0, j)))
  {
    OneRowStep(c, j, st);
    Append(c, h, With(j), st, With(RowAfter(c, st, 0, j)));
  }

  // ----- looking into a run -----

  lemma {:induction false} AtTake(c: Config, s: Store, steps: seq<Step>, k: nat, n: nat)
    requires n <= k <= |steps|
    ensures At(c, s, steps[..k], n) == At(c, s, steps, n)
  {
    if n > 0 {
      AtTake(c, s, steps, k, n - 1);
    }
  }

  /** What a prefix of the run reaches is what the run passes. */
  lemma ReachedAt(c: Config, steps: seq<Step>, n: nat, s: Store)
    requires n <= |steps| && Lifecycle.Reaches(c, EMPTY, steps[..n], s)
    ensures At(c, EMPTY, steps, n) == s
  {
    AtTake(c, EMPTY, steps, n, n);
  }
}
