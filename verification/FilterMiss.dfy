/** Which filters make paging miss a job, with runs from empty tables that do. */
module FilterMiss {
  import opened Wrappers
  import opened Jobs
  import opened Listing
  import Lifecycle
  import SingleJob

  /** In a run from empty tables, paging to the end does not return job id, which matched when the first page was
      read. */
  ghost predicate Missed(c: Config, steps: seq<Step>, times: seq<nat>, tables: seq<map<JobId, Job>>,
                         f: Filter, limit: nat, pages: seq<seq<JobId>>, id: JobId) {
    && Valid(c, EMPTY, steps) && Clocked(steps) && DuringRun(c, EMPTY, steps, times, tables)
    && Session(tables, f, limit, pages) && Ended(tables, f, limit, pages)
    && Listed(tables[0], f, None, id) && forall k :: 0 <= k < |pages| ==> id !in pages[k]
  }

  lemma LastingMissesNothing(c: Config, steps: seq<Step>, times: seq<nat>, tables: seq<map<JobId, Job>>,
                             f: Filter, limit: nat, pages: seq<seq<JobId>>, id: JobId)
    requires Lasting(f)
    ensures !Missed(c, steps, times, tables, f, limit, pages, id)
  {
    if Missed(c, steps, times, tables, f, limit, pages, id) {
      PagingMissesNothing(c, EMPTY, steps, times, tables, f, limit, pages);
    }
  }

  // ----- two jobs in any status that jobs can leave -----

  function Two(a: Job, b: Job, queue: string): Store {
    Store(map[1 := a, 2 := b], map[queue := QueueRow(None, 0, 0)])
  }

  /** The run leads to these tables, all at instant 0. */
  ghost predicate Ready(c: Config, h: seq<Step>, s: Store) {
    Lifecycle.Reaches(c, EMPTY, h, s) && forall i :: 0 <= i < |h| ==> h[i].at == 0
  }

  lemma Then(c: Config, h: seq<Step>, s: Store, st: Step, end: Store)
    requires Ready(c, h, s) && st.at == 0 && Enabled(c, s, st) && Apply(c, s, st) == end
    ensures Ready(c, h + [st], end)
  {
    SingleJob.Append(c, h, s, st, end);
  }

  /** Options that create a job in the status, or in `available` for those that only a claim leads to. */
  function Options(queue: string, st: Status): CreateOpts {
    var scheduledAt := if st.Scheduled? then Some(1000) else None;
    CreateOpts(queue, "kind", "", Metadata("", None, false), 2, 1, scheduledAt, st.Pending?)
  }

  function Created(c: Config, queue: string, st: Status): Job {
    NewJob(c.dialect, Options(queue, st), 0, 0, 0)
  }

  function Claimed(c: Config, queue: string, st: Status): Job {
    Changed(Created(c, queue, st), Claim("worker", 0, LeaseEnd(c, 0)))
  }

  function Failed(c: Config, queue: string, st: Status): Job {
    Changed(Claimed(c, queue, st), Fail(ErrorEntry(0, "failed"), 0, Some(0)))
  }

  lemma CreateTwo(c: Config, queue: string, st: Status) returns (h: seq<Step>)
    ensures Ready(c, h, Two(Created(c, queue, st), Created(c, queue, st), queue))
  {
    var j, o := Created(c, queue, st), Options(queue, st);
    var none := Store(map[], map[queue := QueueRow(None, 0, 0)]);
    var one := Store(map[1 := j], none.queues);
    h := [];
    Then(c, h, EMPTY, Step(0, UpsertQueue(queue)), none);
    h := h + [Step(0, UpsertQueue(queue))];
    Then(c, h, none, Step(0, InsertJob(1, o, 0, 0)), one);
    h := h + [Step(0, InsertJob(1, o, 0, 0))];
    Then(c, h, one, Step(0, InsertJob(2, o, 0, 0)), Two(j, j, queue));
    h := h + [Step(0, InsertJob(2, o, 0, 0))];
  }

  /** A statement for one of the two jobs. */
  lemma OneOfTwo(c: Config, a: Job, b: Job, queue: string, st: Step)
    requires !st.event.InsertJob? && !st.event.UpsertQueue? && !st.event.PauseQueue? && !st.event.ResumeQueue?
    ensures Apply(c, Two(a, b, queue), st) == Two(RowAfter(c, st, 1, a), RowAfter(c, st, 2, b), queue)
  {
  }

  function ClaimOf(queue: string, id: JobId): Step {
    Step(0, ClaimJob(queue, "worker", {}, Some(id)))
  }

  lemma ClaimTwo(c: Config, queue: string, st: Status) returns (h: seq<Step>)
    requires st.Running? || st.Retryable?
    ensures Ready(c, h, Two(Claimed(c, queue, st), Claimed(c, queue, st), queue))
  {
    var j, r := Created(c, queue, st), Claimed(c, queue, st);
    h := CreateTwo(c, queue, st);
    FirstClaim(c, queue, j);
    OneOfTwo(c, j, j, queue, ClaimOf(queue, 1));
    Then(c, h, Two(j, j, queue), ClaimOf(queue, 1), Two(r, j, queue));
    h := h + [ClaimOf(queue, 1)];
    SecondClaim(c, queue, r, j);
    OneOfTwo(c, r, j, queue, ClaimOf(queue, 2));
    Then(c, h, Two(r, j, queue), ClaimOf(queue, 2), Two(r, r, queue));
    h := h + [ClaimOf(queue, 2)];
  }

  lemma FirstClaim(c: Config, queue: string, j: Job)
    requires Eligible(j, queue, 0)
    ensures Enabled(c, Two(j, j, queue), ClaimOf(queue, 1))
  {
  }

  lemma SecondClaim(c: Config, queue: string, r: Job, j: Job)
    requires r.status.Running? && Eligible(j, queue, 0)
    ensures Enabled(c, Two(r, j, queue), ClaimOf(queue, 2))
  {
  }

  function FailOf(id: JobId): Step {
    Step(0, FailJob(id, "failed", 0))
  }

  lemma FailTwo(c: Config, queue: string, st: Status) returns (h: seq<Step>)
    requires st.Retryable?
    ensures Ready(c, h, Two(Failed(c, queue, st), Failed(c, queue, st), queue))
  {
    var r, j := Failed(c, queue, st), Claimed(c, queue, st);
    h := ClaimTwo(c, queue, st);
    OneOfTwo(c, j, j, queue, FailOf(1));
    Then(c, h, Two(j, j, queue), FailOf(1), Two(r, j, queue));
    h := h + [FailOf(1)];
    OneOfTwo(c, r, j, queue, FailOf(2));
    Then(c, h, Two(r, j, queue), FailOf(2), Two(r, r, queue));
    h := h + [FailOf(2)];
  }

  lemma TwoJobs(c: Config, queue: string, st: Status) returns (h: seq<Step>, j: Job)
    requires !Terminal(st)
    ensures Ready(c, h, Two(j, j, queue)) && j.queue == queue && j.status == st
  {
    if st.Running? {
      h := ClaimTwo(c, queue, st);
      j := Claimed(c, queue, st);
    } else if st.Retryable? {
      h := FailTwo(c, queue, st);
      j := Failed(c, queue, st);
    } else {
      h := CreateTwo(c, queue, st);
      j := Created(c, queue, st);
    }
  }

  // ----- the older one is cancelled after the first page -----

  /** Page by page: job 2, then nothing, job 1 having left the status in between. */
  lemma HiddenAfterFirstPage(before: map<JobId, Job>, after: map<JobId, Job>, f: Filter)
    requires before.Keys == after.Keys == {1, 2}
    requires Matches(f, before[1]) && Matches(f, before[2]) && !Matches(f, after[1])
    ensures Session([before, after], f, 1, [[2], []]) && Ended([before, after], f, 1, [[2], []])
  {
    var tables, pages: seq<seq<JobId>> := [before, after], [[2], []];
    assert Cursor(pages, 1) == Some(2);
    assert PageAt(tables, f, 1, pages, 0);
    assert PageAt(tables, f, 1, pages, 1);
  }

  lemma ReadAroundLastStep(c: Config, h: seq<Step>, s: Store, st: Step, end: Store)
    requires Ready(c, h, s) && Ready(c, h + [st], end)
    ensures DuringRun(c, EMPTY, h + [st], [|h|, |h| + 1], [s.jobs, end.jobs])
  {
    Lifecycle.AtPrefix(c, EMPTY, h, st, |h|);
  }

  /** Two jobs in any status that jobs can leave: cancelling the older one after the first page hides it. */
  lemma StatusFilterCanMiss(c: Config, f: Filter, h: seq<Step>, j: Job)
    requires f.status.Some? && !Terminal(f.status.value) && Matches(f, j) && Ready(c, h, Two(j, j, j.queue))
    ensures var cancelled := RowAfter(c, Step(0, CancelJob(1)), 1, j);
      Missed(c, h + [Step(0, CancelJob(1))], [|h|, |h| + 1],
             [Two(j, j, j.queue).jobs, Two(cancelled, j, j.queue).jobs], f, 1, [[2], []], 1)
  {
    var cancel := Step(0, CancelJob(1));
    var before, after := Two(j, j, j.queue), Two(RowAfter(c, cancel, 1, j), j, j.queue);
    OneOfTwo(c, j, j, j.queue, cancel);
    Then(c, h, before, cancel, after);
    ReadAroundLastStep(c, h, before, cancel, after);
    HiddenAfterFirstPage(before.jobs, after.jobs, f);
  }

  /** Exactly which filters can miss a job: those with a status that jobs can leave. */
  lemma FilterMissesExactly(c: Config, f: Filter)
    ensures (exists steps: seq<Step>, times: seq<nat>, tables: seq<map<JobId, Job>>, limit: nat,
                    pages: seq<seq<JobId>>, id: JobId ::
               Missed(c, steps, times, tables, f, limit, pages, id))
      <==> !Lasting(f)
  {
    if Lasting(f) {
      forall steps: seq<Step>, times: seq<nat>, tables: seq<map<JobId, Job>>, limit: nat, pages: seq<seq<JobId>>,
          id: JobId
        ensures !Missed(c, steps, times, tables, f, limit, pages, id)
      {
        LastingMissesNothing(c, steps, times, tables, f, limit, pages, id);
      }
    } else {
      var h, j := TwoJobs(c, if f.queue == "" then SingleJob.QUEUE else f.queue, f.status.value);
      StatusFilterCanMiss(c, f, h, j);
    }
  }
}
