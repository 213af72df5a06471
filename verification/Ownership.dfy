/** When the worker that claimed a job still holds it, and what happens when it does not. */
module Ownership {
  import opened Wrappers
  import opened Jobs
  import Lifecycle
  import SingleJob
  import Timing

  /** A statement that ends the attempt of the job, whoever makes it: no statement says which worker reports. */
  predicate EndsAttempt(st: Step, id: JobId) {
    match st.event
    case CompleteJob(i, _) => i == id
    case FailJob(i, _, _) => i == id
    case CancelJob(i) => i == id
    case _ => false
  }

  /** Before step n the job was last heard of no longer than the lease before some report on it at one of n..k. */
  ghost predicate HeardBy(c: Config, s: Store, steps: seq<Step>, id: JobId, n: nat, k: nat)
    requires n <= k < |steps|
  {
    var last := Timing.LastBeat(c, s, steps, id, n);
    && last.Some?
    && exists m :: n <= m <= k && Timing.WorkerStep(steps[m], id) && steps[m].at <= last.value + Timing.LeaseMs(c)
  }

  /** Step n does not end the attempt, and the job is not silent for longer than the lease around it. */
  ghost predicate HeldAt(c: Config, s: Store, steps: seq<Step>, id: JobId, n: nat, k: nat)
    requires n <= k < |steps|
  {
    !EndsAttempt(steps[n], id) && HeardBy(c, s, steps, id, n, k)
  }

  /** The job is claimed at step i; until step k nobody ends the attempt, and the job is never silent for longer than
      the lease. */
  ghost predicate Held(c: Config, s: Store, steps: seq<Step>, id: JobId, i: nat, k: nat) {
    && i < k < |steps| && Valid(c, s, steps) && Clocked(steps) && Timing.NothingRuns(s)
    && steps[i].event.ClaimJob? && steps[i].event.pick == Some(id)
    && forall n: nat :: i < n < k ==> HeldAt(c, s, steps, id, n, k)
  }

  lemma RunningRowStays(c: Config, st: Step, id: JobId, j: Job)
    requires j.status.Running? && !EndsAttempt(st, id) && !(st.event.FailExpiredJobs? && id in st.event.batch)
    ensures var after := RowAfter(c, st, id, j);
      after.status.Running? && after.attempt == j.attempt && after.attemptedBy == j.attemptedBy
  {
  }

  lemma NotReaped(c: Config, s: Store, steps: seq<Step>, id: JobId, i: nat, k: nat, n: nat)
    requires Held(c, s, steps, id, i, k) && i < n < k
    ensures !EndsAttempt(steps[n], id)
    ensures !(steps[n].event.FailExpiredJobs? && id in steps[n].event.batch)
  {
    assert HeldAt(c, s, steps, id, n, k);
    if steps[n].event.FailExpiredJobs? && id in steps[n].event.batch {
      Timing.ReapedOnlyAfterGap(c, s, steps, id, n);
    }
  }

  /** The row runs in the attempt that a claim of `before` by this worker starts. */
  ghost predicate RunsFor(s: Store, id: JobId, before: Job, worker: string) {
    && id in s.jobs && s.jobs[id].status.Running?
    && s.jobs[id].attempt == before.attempt + 1 && s.jobs[id].attemptedBy == before.attemptedBy + [worker]
  }

  lemma ClaimStarts(c: Config, s: Store, st: Step, id: JobId)
    requires Enabled(c, s, st) && st.event.ClaimJob? && st.event.pick == Some(id)
    ensures id in s.jobs && RunsFor(Apply(c, s, st), id, s.jobs[id], st.event.worker)
  {
    Timing.ClaimedRowIsDue(c, s, st, id);
    assert Candidate(s, st.event.queue, Stamp(c.dialect, st.at), st.event.skip, id);
  }

  lemma StillRuns(c: Config, s: Store, st: Step, id: JobId, first: Job, worker: string)
    requires RunsFor(s, id, first, worker)
    requires !EndsAttempt(st, id) && !(st.event.FailExpiredJobs? && id in st.event.batch)
    ensures RunsFor(Apply(c, s, st), id, first, worker)
  {
    assert Apply(c, s, st).jobs[id] == RowAfter(c, st, id, s.jobs[id]);
    RunningRowStays(c, st, id, s.jobs[id]);
  }

  lemma {:induction false} RunsUntil(c: Config, s: Store, steps: seq<Step>, id: JobId, i: nat, k: nat, n: nat,
                                     first: Job, worker: string)
    requires Held(c, s, steps, id, i, k) && i < n <= k && RunsFor(At(c, s, steps, i + 1), id, first, worker)
    ensures RunsFor(At(c, s, steps, n), id, first, worker)
    decreases n
  {
    if n > i + 1 {
      RunsUntil(c, s, steps, id, i, k, n - 1, first, worker);
      NotReaped(c, s, steps, id, i, k, n - 1);
      StillRuns(c, At(c, s, steps, n - 1), steps[n - 1], id, first, worker);
    }
  }

  /** A worker that is heard of within every lease, while nobody else reports on the job or cancels it, finds the job
      still running in the attempt it claimed, itself the last in attempted_by; so completing it succeeds. */
  lemma HeldUntilReported(c: Config, s: Store, steps: seq<Step>, id: JobId, i: nat, k: nat)
    requires Held(c, s, steps, id, i, k)
    ensures id in At(c, s, steps, i).jobs
    ensures RunsFor(At(c, s, steps, k), id, At(c, s, steps, i).jobs[id], steps[i].event.worker)
    ensures steps[k].event.CompleteJob? && steps[k].event.id == id ==> Result(c, At(c, s, steps, k), steps[k]) == Done
  {
    assert EnabledAt(c, s, steps, i);
    ClaimStarts(c, At(c, s, steps, i), steps[i], id);
    RunsUntil(c, s, steps, id, i, k, k, At(c, s, steps, i).jobs[id], steps[i].event.worker);
  }

  // ----- a stale worker -----

  const OPTIONS := CreateOpts(SingleJob.QUEUE, "kind", "", Metadata("", None, false), 2, 1, None, false)

  /** The first instant at which a lease taken at 0 can be reaped. */
  function Late(c: Config): nat {
    Timing.FirstLapse(c, 0)
  }

  /** The first worker is silent until its lease has lapsed, the second claims the job, and the first reports. */
  function Steps(c: Config): seq<Step> {
    [ SingleJob.Upsert(), SingleJob.Insert(OPTIONS), SingleJob.ClaimBy("first", 0), SingleJob.Expire(Late(c)),
      SingleJob.PromoteDue(Late(c)), SingleJob.ClaimBy("second", Late(c)), Report(c) ]
  }

  function Report(c: Config): Step {
    Step(Late(c), CompleteJob(0, "result of the first"))
  }

  function Created(c: Config): Job {
    SingleJob.Created(c.dialect, OPTIONS)
  }

  function Claimed(c: Config): Job {
    SingleJob.ClaimedRow(c, Created(c), "first", 0)
  }

  function Reaped(c: Config): Job {
    SingleJob.ExpiredRow(c, Claimed(c), Late(c))
  }

  function ClaimedAgain(c: Config): Job {
    SingleJob.ClaimedRow(c, Reaped(c).(status := Available), "second", Late(c))
  }

  lemma UpToExpiry(c: Config)
    ensures Lifecycle.Reaches(c, EMPTY, Steps(c)[..4], SingleJob.With(Reaped(c)))
  {
    SingleJob.Create(c, OPTIONS);
    assert Steps(c)[..2] == [SingleJob.Upsert(), SingleJob.Insert(OPTIONS)];
    SingleJob.ThenClaim(c, Steps(c)[..2], Created(c), "first", 0);
    assert Steps(c)[..3] == Steps(c)[..2] + [SingleJob.ClaimBy("first", 0)];
    SingleJob.ThenExpire(c, Steps(c)[..3], Claimed(c), Late(c));
    assert Steps(c)[..4] == Steps(c)[..3] + [SingleJob.Expire(Late(c))];
  }

  lemma UpToSecondClaim(c: Config)
    ensures Lifecycle.Reaches(c, EMPTY, Steps(c)[..6], SingleJob.With(ClaimedAgain(c)))
  {
    UpToExpiry(c);
    SingleJob.ThenPromote(c, Steps(c)[..4], Reaped(c), Late(c));
    assert Steps(c)[..5] == Steps(c)[..4] + [SingleJob.PromoteDue(Late(c))];
    SingleJob.ThenClaim(c, Steps(c)[..5], Reaped(c).(status := Available), "second", Late(c));
    assert Steps(c)[..6] == Steps(c)[..5] + [SingleJob.ClaimBy("second", Late(c))];
  }

  /** On either driver the report of the first worker completes the attempt of the second. */
  lemma StaleWorkerEndsAttempt(c: Config)
    ensures Valid(c, EMPTY, Steps(c)) && Clocked(Steps(c))
    ensures At(c, EMPTY, Steps(c), 6) == SingleJob.With(ClaimedAgain(c))
    ensures ClaimedAgain(c).status.Running? && ClaimedAgain(c).attemptedBy == ["first", "second"]
    ensures Result(c, SingleJob.With(ClaimedAgain(c)), Report(c)) == Done
    ensures At(c, EMPTY, Steps(c), 7) ==
      SingleJob.With(Changed(ClaimedAgain(c), Complete("result of the first", Stamp(c.dialect, Late(c)))))
  {
    UpToSecondClaim(c);
    SingleJob.ReachedAt(c, Steps(c), 6, SingleJob.With(ClaimedAgain(c)));
    SingleJob.ThenStep(c, Steps(c)[..6], ClaimedAgain(c), Report(c));
    assert Steps(c) == Steps(c)[..6] + [Report(c)];
  }
}
