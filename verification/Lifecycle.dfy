/** What every statement keeps about a job row, and what follows over whole runs. */
module Lifecycle {
  import opened Wrappers
  import opened Jobs

  // ----- the ledger -----

  /** How the counters, lists and optional columns of a row agree with its status. */
  ghost predicate Ledger(j: Job) {
    && |j.attemptedBy| == j.attempt <= j.maxAttempts
    && 1 <= j.maxAttempts
    && (Waiting(j.status) ==> j.attempt < j.maxAttempts && |j.errors| == j.attempt)
    && (j.status.Running? ==> 1 <= j.attempt && |j.errors| == j.attempt - 1 && j.lockExpiresAt.Some?)
    && (j.status.Completed? ==> 1 <= j.attempt && |j.errors| == j.attempt - 1)
    && (j.status.Discarded? ==> |j.errors| == j.attempt == j.maxAttempts)
    && (j.status.Cancelled? ==> |j.errors| == j.attempt || |j.errors| == j.attempt - 1)
    && (j.finalizedAt.Some? <==> Terminal(j.status))
    && (j.result.Some? <==> j.status.Completed?)
    && (j.attemptedAt.Some? <==> 1 <= j.attempt)
    && 0 <= j.progress <= 100
  }

  ghost predicate Balanced(s: Store) {
    forall id :: id in s.jobs ==> Ledger(s.jobs[id])
  }

  lemma ChangeKeepsLedger(j: Job, c: Change)
    requires Ledger(j) && Allowed(j, c)
    ensures Ledger(Changed(j, c))
  {
  }

  lemma StepKeepsLedger(c: Config, s: Store, st: Step)
    requires Balanced(s)
    ensures Balanced(Apply(c, s, st))
  {
    forall id | id in Apply(c, s, st).jobs
      ensures Ledger(Apply(c, s, st).jobs[id])
    {
      if id in s.jobs && ChangeFor(c, st, id).Some? && Allowed(s.jobs[id], ChangeFor(c, st, id).value) {
        ChangeKeepsLedger(s.jobs[id], ChangeFor(c, st, id).value);
      }
    }
  }

  /** In every state of every run the rows obey the ledger. */
  lemma {:induction false} LedgerAlways(c: Config, s: Store, steps: seq<Step>, n: nat)
    requires n <= |steps| && Balanced(s)
    ensures Balanced(At(c, s, steps, n))
  {
    if n > 0 {
      LedgerAlways(c, s, steps, n - 1);
      StepKeepsLedger(c, At(c, s, steps, n - 1), steps[n - 1]);
    }
  }

  // ----- what never changes, and what only grows -----

  /** Later is a possible future of Earlier under any statements. */
  ghost predicate Evolves(earlier: Job, later: Job) {
    && later.queue == earlier.queue
    && later.kind == earlier.kind
    && later.priority == earlier.priority
    && later.maxAttempts == earlier.maxAttempts
    && later.payload == earlier.payload
    && later.metadata == earlier.metadata
    && later.createdAt == earlier.createdAt
    && earlier.attempt <= later.attempt
    && earlier.attemptedBy <= later.attemptedBy
    && earlier.errors <= later.errors
    && (Terminal(earlier.status) ==> later == earlier)
  }

  ghost predicate Extends(s: Store, s': Store) {
    && (forall id :: id in s.jobs ==> id in s'.jobs && Evolves(s.jobs[id], s'.jobs[id]))
    && (forall q :: q in s.queues ==> q in s'.queues)
  }

  lemma ChangeEvolves(j: Job, c: Change)
    requires Allowed(j, c)
    ensures Evolves(j, Changed(j, c))
  {
  }

  lemma StepExtends(c: Config, s: Store, st: Step)
    ensures Extends(s, Apply(c, s, st))
  {
    var s' := Apply(c, s, st);
    forall id | id in s.jobs
      ensures id in s'.jobs && Evolves(s.jobs[id], s'.jobs[id])
    {
      assert s'.jobs[id] == RowAfter(c, st, id, s.jobs[id]);
      var ch := ChangeFor(c, st, id);
      if ch.Some? && Allowed(s.jobs[id], ch.value) {
        ChangeEvolves(s.jobs[id], ch.value);
      }
    }
    assert forall q :: q in s.queues ==> q in s'.queues;
  }

  lemma ExtendsTransitive(a: Store, b: Store, d: Store)
    requires Extends(a, b) && Extends(b, d)
    ensures Extends(a, d)
  {
    forall id | id in a.jobs
      ensures id in d.jobs && Evolves(a.jobs[id], d.jobs[id])
    {
      assert id in b.jobs && Evolves(a.jobs[id], b.jobs[id]);
    }
  }

  /** Rows are never lost, attempts never fall, settings never change, and a terminal row is frozen for good. */
  lemma {:induction false} RunExtends(c: Config, s: Store, steps: seq<Step>, i: nat, k: nat)
    requires i <= k <= |steps|
    ensures Extends(At(c, s, steps, i), At(c, s, steps, k))
  {
    if i < k {
      RunExtends(c, s, steps, i, k - 1);
      StepExtends(c, At(c, s, steps, k - 1), steps[k - 1]);
      ExtendsTransitive(At(c, s, steps, i), At(c, s, steps, k - 1), At(c, s, steps, k));
    }
  }

  // ----- longer runs -----

  lemma {:induction false} AtPrefix(c: Config, s: Store, h: seq<Step>, st: Step, n: nat)
    requires n <= |h|
    ensures At(c, s, h + [st], n) == At(c, s, h, n)
  {
    if n > 0 {
      AtPrefix(c, s, h, st, n - 1);
    }
  }

  lemma AppendStep(c: Config, s: Store, h: seq<Step>, st: Step)
    requires Valid(c, s, h) && Enabled(c, At(c, s, h, |h|), st)
    ensures Valid(c, s, h + [st])
    ensures At(c, s, h + [st], |h| + 1) == Apply(c, At(c, s, h, |h|), st)
  {
    forall n: nat | n < |h| + 1
      ensures EnabledAt(c, s, h + [st], n)
    {
      AtPrefix(c, s, h, st, n);
      assert n < |h| ==> EnabledAt(c, s, h, n);
    }
    AtPrefix(c, s, h, st, |h|);
  }

  /** The steps of h are possible from s and lead to end. */
  ghost predicate Reaches(c: Config, s: Store, h: seq<Step>, end: Store) {
    Valid(c, s, h) && At(c, s, h, |h|) == end
  }

  // ----- attempts end once -----

  lemma OnlyClaimStartsRunning(c: Config, st: Step, id: JobId, j: Job)
    requires !j.status.Running? && RowAfter(c, st, id, j).status.Running?
    ensures RowAfter(c, st, id, j).attempt == j.attempt + 1
  {
  }

  lemma {:induction false} RunningAgainIsNewAttempt(c: Config, s: Store, steps: seq<Step>, id: JobId, i: nat, k: nat)
    requires i <= k <= |steps| && id in At(c, s, steps, i).jobs && id in At(c, s, steps, k).jobs
    requires !At(c, s, steps, i).jobs[id].status.Running? && At(c, s, steps, k).jobs[id].status.Running?
    ensures At(c, s, steps, i).jobs[id].attempt < At(c, s, steps, k).jobs[id].attempt
    decreases k
  {
    RunExtends(c, s, steps, i, k - 1);
    StepExtends(c, At(c, s, steps, k - 1), steps[k - 1]);
    var before := At(c, s, steps, k - 1).jobs[id];
    if before.status.Running? {
      RunningAgainIsNewAttempt(c, s, steps, id, i, k - 1);
    } else {
      OnlyClaimStartsRunning(c, steps[k - 1], id, before);
    }
  }

  lemma AttemptGrows(a: Store, b: Store, id: JobId)
    requires Extends(a, b) && id in a.jobs
    ensures id in b.jobs && a.jobs[id].attempt <= b.jobs[id].attempt
  {
  }

  /** The row takes part in an attempt that it then leaves. */
  ghost predicate EndsAttempt(before: Store, after: Store, id: JobId) {
    && id in before.jobs && before.jobs[id].status.Running?
    && id in after.jobs && !after.jobs[id].status.Running?
  }

  /** Whoever reports it, no attempt of a job is ended twice: whenever the job runs again after step i ended an
      attempt, it is in a later one. */
  lemma AttemptEndsOnce(c: Config, s: Store, steps: seq<Step>, id: JobId, i: nat, k: nat,
                        first: Store, between: Store, later: Store)
    requires i < k <= |steps|
    requires first == At(c, s, steps, i) && between == At(c, s, steps, i + 1) && later == At(c, s, steps, k)
    requires EndsAttempt(first, between, id)
    requires id in later.jobs && later.jobs[id].status.Running?
    ensures first.jobs[id].attempt < later.jobs[id].attempt
  {
    StepExtends(c, first, steps[i]);
    AttemptGrows(first, between, id);
    RunningAgainIsNewAttempt(c, s, steps, id, i + 1, k);
  }

  // ----- how often a job can change status -----

  /** The most status changes a row can still undergo. */
  function Budget(j: Job): nat
    requires j.attempt <= j.maxAttempts
    requires Waiting(j.status) ==> j.attempt < j.maxAttempts
  {
    var left := 3 * (j.maxAttempts - j.attempt);
    match j.status
    case Pending => left + 1
    case Scheduled => left
    case Retryable => left
    case Available => left - 1
    case Running => left + 1
    case _ => 0
  }

  lemma ChangeSpendsBudget(j: Job, c: Change)
    requires Ledger(j) && Allowed(j, c)
    ensures Ledger(Changed(j, c))
    ensures Changed(j, c).status == j.status ==> Budget(Changed(j, c)) == Budget(j)
    ensures Changed(j, c).status != j.status ==> Budget(Changed(j, c)) < Budget(j)
  {
  }

  /** How many of the steps i..k change the status of row id. */
  function StatusChanges(c: Config, s: Store, steps: seq<Step>, id: JobId, i: nat, k: nat): nat
    requires i <= k <= |steps|
    requires id in At(c, s, steps, i).jobs
    decreases k - i
  {
    if i == k then 0 else
      RunExtends(c, s, steps, i, k - 1);
      RunExtends(c, s, steps, i, k);
      var before, after := At(c, s, steps, k - 1).jobs[id], At(c, s, steps, k).jobs[id];
      StatusChanges(c, s, steps, id, i, k - 1) + if after.status != before.status then 1 else 0
  }

  lemma ChangeCounted(c: Config, s: Store, steps: seq<Step>, id: JobId, i: nat, k: nat, before: Store, after: Store)
    requires i < k <= |steps|
    requires id in At(c, s, steps, i).jobs
    requires At(c, s, steps, k - 1) == before && At(c, s, steps, k) == after
    requires id in before.jobs && id in after.jobs && after.jobs[id].status != before.jobs[id].status
    ensures StatusChanges(c, s, steps, id, i, k) == StatusChanges(c, s, steps, id, i, k - 1) + 1
  {
  }

  lemma {:induction false} ChangesWithinBudget(c: Config, s: Store, steps: seq<Step>, id: JobId, i: nat, k: nat)
    requires i <= k <= |steps| && id in At(c, s, steps, i).jobs
    requires Ledger(At(c, s, steps, i).jobs[id])
    ensures id in At(c, s, steps, k).jobs && Ledger(At(c, s, steps, k).jobs[id])
    ensures StatusChanges(c, s, steps, id, i, k) + Budget(At(c, s, steps, k).jobs[id])
         <= Budget(At(c, s, steps, i).jobs[id])
    decreases k - i
  {
    if i < k {
      ChangesWithinBudget(c, s, steps, id, i, k - 1);
      StepSpendsBudget(c, At(c, s, steps, k - 1), steps[k - 1], At(c, s, steps, k), id);
    }
  }

  lemma StepSpendsBudget(c: Config, s: Store, st: Step, s': Store, id: JobId)
    requires s' == Apply(c, s, st) && id in s.jobs && Ledger(s.jobs[id])
    ensures id in s'.jobs && Ledger(s'.jobs[id])
    ensures Budget(s'.jobs[id]) + (if s'.jobs[id].status != s.jobs[id].status then 1 else 0) <= Budget(s.jobs[id])
  {
    var ch := ChangeFor(c, st, id);
    assert s'.jobs[id] == RowAfter(c, st, id, s.jobs[id]);
    if ch.Some? && Allowed(s.jobs[id], ch.value) {
      ChangeSpendsBudget(s.jobs[id], ch.value);
    }
  }

  /** No run changes the status of a job more than 3 * max_attempts + 1 times. */
  lemma StatusChangesBounded(c: Config, s: Store, steps: seq<Step>, id: JobId, i: nat, k: nat)
    requires i <= k <= |steps| && Balanced(s)
    requires id in At(c, s, steps, i).jobs
    ensures StatusChanges(c, s, steps, id, i, k) <= 3 * At(c, s, steps, i).jobs[id].maxAttempts + 1
  {
    LedgerAlways(c, s, steps, i);
    ChangesWithinBudget(c, s, steps, id, i, k);
  }
}
