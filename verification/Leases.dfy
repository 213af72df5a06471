/**
 Leftover leases are never observed.

 CompleteJob, FailJob and CancelJob leave lock_expires_at behind on rows that no longer run; only FailExpiredJobs
 clears it.  No statement can tell.
 */
module Leases {
  import opened Wrappers
  import opened Jobs

  function ForgetRow(j: Job): Job {
    if j.status.Running? then j else j.(lockExpiresAt := None)
  }

  /** The store with the lease of every row that is not running cleared. */
  function Forget(s: Store): Store {
    Store(map id | id in s.jobs :: ForgetRow(s.jobs[id]), s.queues)
  }

  lemma ForgetAllowed(a: Job, b: Job, ch: Change)
    requires ForgetRow(a) == ForgetRow(b)
    ensures Allowed(a, ch) <==> Allowed(b, ch)
  {
  }

  lemma ForgetChanged(a: Job, b: Job, ch: Change)
    requires ForgetRow(a) == ForgetRow(b) && Allowed(a, ch) && Allowed(b, ch)
    ensures ForgetRow(Changed(a, ch)) == ForgetRow(Changed(b, ch))
  {
  }

  lemma ForgetView(d: Dialect, id: JobId, a: Job, b: Job)
    requires ForgetRow(a) == ForgetRow(b)
    ensures View(d, id, a) == View(d, id, b)
  {
  }

  lemma ForgetRowAfter(c: Config, st: Step, id: JobId, a: Job, b: Job)
    requires ForgetRow(a) == ForgetRow(b)
    ensures ForgetRow(RowAfter(c, st, id, a)) == ForgetRow(RowAfter(c, st, id, b))
  {
    var ch := ChangeFor(c, st, id);
    if ch.Some? {
      ForgetAllowed(a, b, ch.value);
      if Allowed(a, ch.value) {
        ForgetChanged(a, b, ch.value);
      }
    }
  }

  ghost predicate SameButLeases(a: Store, b: Store) {
    Forget(a) == Forget(b)
  }

  lemma SameRows(a: Store, b: Store)
    requires SameButLeases(a, b)
    ensures a.jobs.Keys == b.jobs.Keys && a.queues == b.queues
    ensures forall id :: id in a.jobs ==> ForgetRow(a.jobs[id]) == ForgetRow(b.jobs[id])
  {
    assert Forget(a).jobs.Keys == a.jobs.Keys && Forget(b).jobs.Keys == b.jobs.Keys;
    forall id | id in a.jobs
      ensures ForgetRow(a.jobs[id]) == ForgetRow(b.jobs[id])
    {
      assert Forget(a).jobs[id] == Forget(b).jobs[id];
    }
  }

  lemma SameButLeasesByRow(a: Store, b: Store)
    requires a.jobs.Keys == b.jobs.Keys && a.queues == b.queues
    requires forall id :: id in a.jobs ==> ForgetRow(a.jobs[id]) == ForgetRow(b.jobs[id])
    ensures SameButLeases(a, b)
  {
    assert Forget(a).jobs == Forget(b).jobs;
  }

  lemma SamePick(a: Store, b: Store, queue: string, now: nat, skip: set<JobId>, pick: Option<JobId>)
    requires SameButLeases(a, b) && IsPick(a, queue, now, skip, pick)
    ensures IsPick(b, queue, now, skip, pick)
  {
    SameRows(a, b);
    forall id
      ensures Candidate(a, queue, now, skip, id) <==> Candidate(b, queue, now, skip, id)
      ensures Candidate(a, queue, now, skip, id) ==>
        a.jobs[id].priority == b.jobs[id].priority && a.jobs[id].scheduledAt == b.jobs[id].scheduledAt
    {
      assert id in a.jobs ==> ForgetRow(a.jobs[id]) == ForgetRow(b.jobs[id]);
    }
  }

  lemma SameBatches(a: Store, b: Store, now: nat)
    requires SameButLeases(a, b)
    ensures LapsedRows(a.jobs, now) == LapsedRows(b.jobs, now)
    ensures DueRows(a.jobs, now) == DueRows(b.jobs, now)
  {
    SameRows(a, b);
    forall id | id in a.jobs
      ensures Lapsed(a.jobs[id], now) <==> Lapsed(b.jobs[id], now)
      ensures Lapsed(a.jobs[id], now) ==> a.jobs[id].lockExpiresAt == b.jobs[id].lockExpiresAt
      ensures Due(a.jobs[id], now) <==> Due(b.jobs[id], now)
      ensures a.jobs[id].scheduledAt == b.jobs[id].scheduledAt
    {
      assert ForgetRow(a.jobs[id]) == ForgetRow(b.jobs[id]);
    }
  }

  lemma SameChoices(c: Config, a: Store, b: Store, st: Step)
    requires SameButLeases(a, b) && Enabled(c, a, st)
    ensures Enabled(c, b, st)
  {
    SameRows(a, b);
    var now := Stamp(c.dialect, st.at);
    SameBatches(a, b, now);
    if st.event.ClaimJob? {
      SamePick(a, b, st.event.queue, now, st.event.skip, st.event.pick);
    }
  }

  lemma SameRow(c: Config, a: Store, b: Store, st: Step, id: JobId)
    requires SameButLeases(a, b)
    ensures id in Apply(c, a, st).jobs <==> id in Apply(c, b, st).jobs
    ensures id in Apply(c, a, st).jobs ==> ForgetRow(Apply(c, a, st).jobs[id]) == ForgetRow(Apply(c, b, st).jobs[id])
    ensures id in Apply(c, a, st).jobs ==>
      View(c.dialect, id, Apply(c, a, st).jobs[id]) == View(c.dialect, id, Apply(c, b, st).jobs[id])
  {
    SameRows(a, b);
    if id in a.jobs {
      ForgetRowAfter(c, st, id, a.jobs[id], b.jobs[id]);
    }
    if id in Apply(c, a, st).jobs {
      ForgetView(c.dialect, id, Apply(c, a, st).jobs[id], Apply(c, b, st).jobs[id]);
    }
  }

  lemma SameStep(c: Config, a: Store, b: Store, st: Step)
    requires SameButLeases(a, b)
    ensures SameButLeases(Apply(c, a, st), Apply(c, b, st))
  {
    SameRows(a, b);
    var a', b' := Apply(c, a, st), Apply(c, b, st);
    forall id
      ensures id in a'.jobs <==> id in b'.jobs
      ensures id in a'.jobs ==> ForgetRow(a'.jobs[id]) == ForgetRow(b'.jobs[id])
    {
      SameRow(c, a, b, st, id);
    }
    SameButLeasesByRow(a', b');
  }

  lemma SameRowOutcome(c: Config, a: Store, b: Store, st: Step, id: JobId)
    requires SameButLeases(a, b)
    ensures RowOutcome(c, a, st, id) == RowOutcome(c, b, st, id)
  {
    SameRows(a, b);
    if id in a.jobs {
      assert ForgetRow(a.jobs[id]) == ForgetRow(b.jobs[id]);
    }
  }

  lemma SameResult(c: Config, a: Store, b: Store, st: Step)
    requires SameButLeases(a, b)
    ensures Result(c, a, st) == Result(c, b, st)
  {
    if st.event.InsertJob? {
      SameRows(a, b);
      SameRow(c, a, b, st, st.event.id);
    } else if st.event.ClaimJob? {
      if st.event.pick.Some? {
        SameRows(a, b);
        SameRow(c, a, b, st, st.event.pick.value);
      }
    } else if st.event.CompleteJob? || st.event.FailJob? || st.event.HeartbeatJob? || st.event.PromoteJob?
      || st.event.CancelJob? {
      SameRowOutcome(c, a, b, st, st.event.id);
    }
  }

  lemma {:induction false} RunsStaySame(c: Config, a: Store, b: Store, steps: seq<Step>, n: nat)
    requires SameButLeases(a, b) && n <= |steps|
    ensures SameButLeases(At(c, a, steps, n), At(c, b, steps, n))
  {
    if n > 0 {
      RunsStaySame(c, a, b, steps, n - 1);
      SameStep(c, At(c, a, steps, n - 1), At(c, b, steps, n - 1), steps[n - 1]);
    }
  }

  /** Two stores that differ only in such leases allow the same choices and give equal results at every step of
      every run, and end up differing only in such leases. */
  lemma LeftoverLeasesUnobserved(c: Config, a: Store, b: Store, steps: seq<Step>)
    requires SameButLeases(a, b)
    ensures Valid(c, a, steps) <==> Valid(c, b, steps)
    ensures forall n: nat :: n < |steps| ==>
      Result(c, At(c, a, steps, n), steps[n]) == Result(c, At(c, b, steps, n), steps[n])
    ensures SameButLeases(At(c, a, steps, |steps|), At(c, b, steps, |steps|))
  {
    forall n: nat | n < |steps|
      ensures Result(c, At(c, a, steps, n), steps[n]) == Result(c, At(c, b, steps, n), steps[n])
      ensures EnabledAt(c, a, steps, n) <==> EnabledAt(c, b, steps, n)
    {
      SameAt(c, a, b, steps, n);
    }
    RunsStaySame(c, a, b, steps, |steps|);
  }

  lemma SameAt(c: Config, a: Store, b: Store, steps: seq<Step>, n: nat)
    requires SameButLeases(a, b) && n < |steps|
    ensures Result(c, At(c, a, steps, n), steps[n]) == Result(c, At(c, b, steps, n), steps[n])
    ensures EnabledAt(c, a, steps, n) <==> EnabledAt(c, b, steps, n)
  {
    RunsStaySame(c, a, b, steps, n);
    var x, y := At(c, a, steps, n), At(c, b, steps, n);
    SameResult(c, x, y, steps[n]);
    if Enabled(c, x, steps[n]) {
      SameChoices(c, x, y, steps[n]);
    } else if Enabled(c, y, steps[n]) {
      SameChoices(c, y, x, steps[n]);
    }
  }
}
