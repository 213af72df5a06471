/** The bound on status changes is reached: a pending, delayed job that fails every attempt. */
module WorstCase {
  import opened Wrappers
  import opened Jobs
  import Lifecycle

  const QUEUE := "q"

  function Options(n: nat): CreateOpts {
    CreateOpts(QUEUE, "kind", "", Metadata("", None, false), n, 1, Some(1000), true)
  }

  /** Create, release, promote when due, then claim, fail and promote again until the attempts run out. */
  function WorstStep(n: nat, i: nat): Step {
    if i == 0 then Step(0, UpsertQueue(QUEUE))
    else if i == 1 then Step(0, InsertJob(0, Options(n), 0, 0))
    else if i == 2 then Step(0, PromoteJob(0))
    else if i % 3 == 0 then Step(1000, PromoteScheduledJobs(1, {}, {0}))
    else if i % 3 == 1 then Step(1000, ClaimJob(QUEUE, "worker", {}, Some(0)))
    else Step(1000, FailJob(0, "failed", 0))
  }

  function Worst(n: nat): seq<Step>
    requires n >= 1
  {
    seq(3 * n + 3, i requires 0 <= i < 3 * n + 3 => WorstStep(n, i))
  }

  function StatusBefore(n: nat, i: nat): Status
    requires i >= 2
  {
    if i == 2 then Pending
    else if i == 3 then Scheduled
    else if i % 3 == 1 then Available
    else if i % 3 == 2 then Running
    else if i / 3 - 1 >= n then Discarded else Retryable
  }

  function AttemptBefore(i: nat): nat
    requires i >= 2
  {
    if i <= 4 then 0 else if i % 3 == 1 then i / 3 - 1 else if i % 3 == 2 then i / 3 else i / 3 - 1
  }

  /** The tables before step i. */
  ghost predicate Stage(c: Config, n: nat, s: Store, i: nat)
    requires i >= 2
  {
    && s.jobs.Keys == {0} && QUEUE in s.queues && s.queues[QUEUE].pausedAt.None?
    && s.jobs[0].queue == QUEUE && s.jobs[0].maxAttempts == n && s.jobs[0].scheduledAt == Stamp(c.dialect, 1000)
    && s.jobs[0].status == StatusBefore(n, i) && s.jobs[0].attempt == AttemptBefore(i)
  }

  /** The run is in that stage. */
  ghost predicate StageAt(c: Config, n: nat, i: nat)
    requires n >= 1 && 2 <= i <= 3 * n + 3
  {
    forall s {:trigger Stage(c, n, s, i)} :: s == At(c, EMPTY, Worst(n), i) ==> Stage(c, n, s, i)
  }

  lemma SingleBatch(rows: map<JobId, nat>)
    requires rows.Keys == {0}
    ensures IsBatch(rows, 1, {0})
  {
    assert |rows| == |rows.Keys| == 1;
  }

  lemma StageEnabled(c: Config, n: nat, s: Store, i: nat)
    requires n >= 1 && 2 <= i < 3 * n + 3 && Stage(c, n, s, i)
    ensures Enabled(c, s, WorstStep(n, i))
  {
    if i > 2 && i % 3 == 0 {
      var due := DueRows(s.jobs, Stamp(c.dialect, 1000)) - {};
      assert due.Keys == {0};
      SingleBatch(due);
    } else if i > 2 && i % 3 == 1 {
      assert forall id :: Candidate(s, QUEUE, Stamp(c.dialect, 1000), {}, id) ==> id == 0;
    }
  }

  lemma StageStep(c: Config, n: nat, s: Store, i: nat)
    requires n >= 1 && 2 <= i < 3 * n + 3 && Stage(c, n, s, i)
    ensures Stage(c, n, Apply(c, s, WorstStep(n, i)), i + 1)
    ensures Apply(c, s, WorstStep(n, i)).jobs[0].status != s.jobs[0].status
  {
    var s' := Apply(c, s, WorstStep(n, i));
    assert s'.jobs[0] == RowAfter(c, WorstStep(n, i), 0, s.jobs[0]);
  }

  lemma Begin(c: Config, n: nat)
    requires n >= 1
    ensures StageAt(c, n, 2)
  {
    var steps := Worst(n);
    assert At(c, EMPTY, steps, 1) == Apply(c, EMPTY, WorstStep(n, 0));
    assert At(c, EMPTY, steps, 2) == Apply(c, At(c, EMPTY, steps, 1), WorstStep(n, 1));
  }

  lemma BeginEnabled(c: Config, n: nat)
    requires n >= 1
    ensures EnabledAt(c, EMPTY, Worst(n), 0) && EnabledAt(c, EMPTY, Worst(n), 1)
  {
  }

  lemma NextStage(c: Config, n: nat, i: nat)
    requires n >= 1 && 2 <= i < 3 * n + 3 && StageAt(c, n, i)
    ensures StageAt(c, n, i + 1)
  {
    var s := At(c, EMPTY, Worst(n), i);
    StageStep(c, n, s, i);
    assert At(c, EMPTY, Worst(n), i + 1) == Apply(c, s, WorstStep(n, i));
  }

  lemma {:induction false} StageAlways(c: Config, n: nat, i: nat)
    requires n >= 1 && 2 <= i <= 3 * n + 3
    ensures StageAt(c, n, i)
  {
    if i == 2 {
      Begin(c, n);
    } else {
      StageAlways(c, n, i - 1);
      NextStage(c, n, i - 1);
    }
  }

  lemma StageNow(c: Config, n: nat, i: nat, s: Store)
    requires n >= 1 && 2 <= i <= 3 * n + 3 && s == At(c, EMPTY, Worst(n), i)
    ensures Stage(c, n, s, i)
  {
    StageAlways(c, n, i);
  }

  /** Step i - 1 changes the status, on the two stores around it. */
  lemma StatusChanged(c: Config, n: nat, i: nat, before: Store, after: Store)
    requires n >= 1 && 2 < i <= 3 * n + 3 && Stage(c, n, before, i - 1)
    requires after == Apply(c, before, WorstStep(n, i - 1))
    ensures 0 in before.jobs && 0 in after.jobs && after.jobs[0].status != before.jobs[0].status
  {
    StageStep(c, n, before, i - 1);
  }

  lemma {:induction false} EveryStepChangesStatus(c: Config, n: nat, steps: seq<Step>, begin: nat, i: nat)
    requires n >= 1 && steps == Worst(n) && begin == 2 <= i <= |steps|
    requires 0 in At(c, EMPTY, steps, begin).jobs
    ensures Lifecycle.StatusChanges(c, EMPTY, steps, 0, begin, i) == i - begin
  {
    if i > begin {
      EveryStepChangesStatus(c, n, steps, begin, i - 1);
      var before, after := At(c, EMPTY, steps, i - 1), At(c, EMPTY, steps, i);
      StageNow(c, n, i - 1, before);
      StatusChanged(c, n, i, before, after);
      Lifecycle.ChangeCounted(c, EMPTY, steps, 0, begin, i, before, after);
    }
  }

  lemma WorstEnabled(c: Config, n: nat, i: nat)
    requires n >= 1 && i < 3 * n + 3
    ensures EnabledAt(c, EMPTY, Worst(n), i)
  {
    if i < 2 {
      BeginEnabled(c, n);
    } else {
      var s := At(c, EMPTY, Worst(n), i);
      StageNow(c, n, i, s);
      StageEnabled(c, n, s, i);
    }
  }

  lemma WorstValid(c: Config, n: nat)
    requires n >= 1
    ensures Valid(c, EMPTY, Worst(n))
  {
    forall i: nat | i < |Worst(n)|
      ensures EnabledAt(c, EMPTY, Worst(n), i)
    {
      WorstEnabled(c, n, i);
    }
  }

  lemma FirstStage(c: Config, n: nat, begin: nat, first: Store)
    requires n >= 1 && begin == 2 && first == At(c, EMPTY, Worst(n), begin)
    ensures 0 in first.jobs && first.jobs[0].maxAttempts == n
  {
    StageNow(c, n, begin, first);
  }

  /** For every number of attempts some run from empty tables changes the status of a job, created by its first two
      steps, exactly 3 * max_attempts + 1 times. */
  lemma BoundIsReached(c: Config, n: nat, steps: seq<Step>, begin: nat, first: Store)
    requires n >= 1 && steps == Worst(n) && begin == 2 && first == At(c, EMPTY, steps, begin)
    ensures Valid(c, EMPTY, steps)
    ensures 0 in first.jobs && first.jobs[0].maxAttempts == n
    ensures Lifecycle.StatusChanges(c, EMPTY, steps, 0, begin, |steps|) == 3 * n + 1
  {
    WorstValid(c, n);
    FirstStage(c, n, begin, first);
    EveryStepChangesStatus(c, n, steps, begin, |steps|);
  }
}
