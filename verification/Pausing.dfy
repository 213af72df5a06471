/** When a queue is paused, and when a claim therefore finds nothing. */
module Pausing {
  import opened Wrappers
  import opened Jobs
  import Claims

  /** The column: paused_at is set. */
  predicate IsPaused(s: Store, queue: string) {
    queue in s.queues && s.queues[queue].pausedAt != None
  }

  /** Before step n the last word on the queue is PauseQueue: it was paused at some step, or at the start, and has not
      been resumed since. */
  ghost predicate PausedSince(s: Store, steps: seq<Step>, queue: string, n: nat)
    requires n <= |steps|
  {
    (exists p: nat :: LastPause(steps, queue, p, n)) || (IsPaused(s, queue) && NotResumed(steps, queue, 0, n))
  }

  predicate LastPause(steps: seq<Step>, queue: string, p: nat, n: nat)
    requires n <= |steps|
  {
    p < n && steps[p].event == PauseQueue(queue) && NotResumed(steps, queue, p + 1, n)
  }

  predicate NotResumed(steps: seq<Step>, queue: string, from: nat, n: nat)
    requires n <= |steps|
  {
    forall r :: from <= r < n ==> steps[r].event != ResumeQueue(queue)
  }

  /** What one statement does to the column. */
  lemma PauseStep(c: Config, s: Store, st: Step, queue: string)
    ensures IsPaused(Apply(c, s, st), queue) <==>
      st.event == PauseQueue(queue) || (IsPaused(s, queue) && st.event != ResumeQueue(queue))
  {
  }

  lemma PausedSinceStep(s: Store, steps: seq<Step>, queue: string, n: nat)
    requires n < |steps|
    ensures PausedSince(s, steps, queue, n + 1) <==>
      steps[n].event == PauseQueue(queue) || (PausedSince(s, steps, queue, n) && steps[n].event != ResumeQueue(queue))
  {
    if steps[n].event == PauseQueue(queue) {
      assert LastPause(steps, queue, n, n + 1);
    } else {
      var next := n + 1;
      StillNotResumed(steps, queue, 0, n);
      if p: nat :| LastPause(steps, queue, p, next) {
        StillNotResumed(steps, queue, p + 1, n);
        assert LastPause(steps, queue, p, n);
      }
      if p: nat :| LastPause(steps, queue, p, n) && steps[n].event != ResumeQueue(queue) {
        StillNotResumed(steps, queue, p + 1, n);
        assert LastPause(steps, queue, p, next);
      }
    }
  }

  lemma StillNotResumed(steps: seq<Step>, queue: string, from: nat, n: nat)
    requires n < |steps| && from <= n
    ensures NotResumed(steps, queue, from, n + 1) <==>
      NotResumed(steps, queue, from, n) && steps[n].event != ResumeQueue(queue)
  {
  }

  /** In every run a queue is paused exactly from a pause to the next resume. */
  lemma {:induction false} PausedExactly(c: Config, s: Store, steps: seq<Step>, queue: string, n: nat)
    requires n <= |steps|
    ensures IsPaused(At(c, s, steps, n), queue) <==> PausedSince(s, steps, queue, n)
  {
    if n == 0 {
      assert NotResumed(steps, queue, 0, 0);
    } else {
      PausedExactly(c, s, steps, queue, n - 1);
      PausedSinceStep(s, steps, queue, n - 1);
      PauseStep(c, At(c, s, steps, n - 1), steps[n - 1], queue);
    }
  }

  /** Resuming resumes: from a resume on, and until the next pause, the queue is not paused. */
  lemma ResumedUntilPause(c: Config, s: Store, steps: seq<Step>, queue: string, r: nat, n: nat)
    requires r < n <= |steps| && steps[r].event == ResumeQueue(queue)
    requires forall p :: r < p < n ==> steps[p].event != PauseQueue(queue)
    ensures !IsPaused(At(c, s, steps, n), queue)
  {
    PausedExactly(c, s, steps, queue, n);
    forall p: nat
      ensures !LastPause(steps, queue, p, n)
    {
      assert p < r && p < n ==> !NotResumed(steps, queue, p + 1, n);
    }
  }

  /** An available job of the queue that is due and not locked by another transaction. */
  predicate Claimable(c: Config, s: Store, queue: string, at: nat, skip: set<JobId>, id: JobId) {
    && id in s.jobs && id !in skip
    && s.jobs[id].queue == queue && s.jobs[id].status == Available
    && s.jobs[id].scheduledAt <= if c.dialect.Postgres? then at else at / 1000
  }

  /** A claim finds nothing exactly when there is nothing to claim, or between a pause of the queue and the next resume;
      in particular, after a resume and until the next pause it returns a row whenever there is one. */
  lemma ClaimFindsNothingExactly(c: Config, s: Store, steps: seq<Step>, n: nat)
    requires n < |steps| && steps[n].event.ClaimJob? && EnabledAt(c, s, steps, n)
    ensures var queue, skip, now := steps[n].event.queue, steps[n].event.skip, At(c, s, steps, n);
      Result(c, now, steps[n]) == NoRow <==>
        PausedSince(s, steps, queue, n) || forall id :: !Claimable(c, now, queue, steps[n].at, skip, id)
  {
    var now := At(c, s, steps, n);
    PausedExactly(c, s, steps, steps[n].event.queue, n);
    Claims.ClaimFindsNothing(c, now, steps[n]);
    assert forall id :: Claimable(c, now, steps[n].event.queue, steps[n].at, steps[n].event.skip, id) <==>
      Claims.Waiting(c, now, steps[n], id);
  }

  /** The rows of the queues table: made unpaused by CreateJob, paused by PauseQueue, never lost, and stamped with the
      time of the last statement that touched them. */
  lemma QueueRowAfter(c: Config, s: Store, st: Step, queue: string)
    ensures var now, after := if c.dialect.Postgres? then st.at else st.at / 1000, Apply(c, s, st).queues;
      if st.event == UpsertQueue(queue) then
        && queue in after
        && after[queue] == if queue in s.queues then s.queues[queue].(updatedAt := now) else QueueRow(None, now, now)
      else if st.event == PauseQueue(queue) then
        && queue in after && after[queue].pausedAt == Some(now) && after[queue].updatedAt == now
        && after[queue].createdAt == if queue in s.queues then s.queues[queue].createdAt else now
      else if st.event == ResumeQueue(queue) && queue in s.queues then
        && queue in after && after[queue].pausedAt == None && after[queue].updatedAt == now
        && after[queue].createdAt == s.queues[queue].createdAt
      else (queue in after <==> queue in s.queues) && (queue in after ==> after[queue] == s.queues[queue])
  {
  }
}
