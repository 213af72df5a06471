/** ORDER BY an instant LIMIT n, and the updates that follow from it. */
module Selection {
  import opened Wrappers
  import opened Jobs

  /** The rows a bounded scan takes: repeatedly the earliest row left. */
  method SelectBatch(rows: map<JobId, int>, n: nat) returns (batch: set<JobId>)
    ensures IsBatch(rows, n, batch)
  {
    batch := {};
    var rest := rows.Keys;
    assert |rest| == |rows|;
    while rest != {} && |batch| < n
      invariant batch !! rest && batch + rest == rows.Keys
      invariant |batch| <= n && |batch| + |rest| == |rows|
      invariant forall a, b :: a in batch && b in rest ==> rows[a] <= rows[b]
      decreases rest
    {
      var id := Earliest(rows, rest);
      batch, rest := batch + {id}, rest - {id};
    }
  }

  method Earliest(rows: map<JobId, int>, among: set<JobId>) returns (id: JobId)
    requires among != {} && among <= rows.Keys
    ensures id in among && forall b :: b in among ==> rows[id] <= rows[b]
  {
    id :| id in among;
    var rest := among - {id};
    while rest != {}
      invariant id in among && rest <= among
      invariant forall b :: b in among && b !in rest ==> rows[id] <= rows[b]
      decreases rest
    {
      var other :| other in rest;
      rest := rest - {other};
      if rows[other] < rows[id] {
        id := other;
      }
    }
  }

  /** A batch of the due rows that are not skipped is one the statement may take. */
  lemma DueChosen(c: Config, s: Store, st: Step)
    requires st.event.PromoteScheduledJobs?
    requires IsBatch(DueRows(s.jobs, Stamp(c.dialect, st.at)) - st.event.skip,
                     BatchLimit(st.event.limit), st.event.batch)
    ensures Enabled(c, s, st)
    ensures st.event.batch <= DueRows(s.jobs, Stamp(c.dialect, st.at)).Keys <= s.jobs.Keys
  {
  }

  lemma LapsedChosen(c: Config, s: Store, st: Step)
    requires st.event.FailExpiredJobs?
    requires IsBatch(LapsedRows(s.jobs, Stamp(c.dialect, st.at)) - st.event.skip,
                     BatchLimit(st.event.limit), st.event.batch)
    ensures Enabled(c, s, st)
    ensures st.event.batch <= LapsedRows(s.jobs, Stamp(c.dialect, st.at)).Keys <= s.jobs.Keys
  {
  }

  lemma SkipNone(rows: map<JobId, int>)
    ensures rows - {} == rows
  {
  }

  // ----- tables after a statement that touches few rows -----

  lemma OneRow(c: Config, jobs: map<JobId, Job>, st: Step, id: JobId)
    requires !st.event.InsertJob? && forall i :: i != id ==> ChangeFor(c, st, i).None?
    ensures JobsAfter(c, jobs, st) == if id in jobs then jobs[id := RowAfter(c, st, id, jobs[id])] else jobs
  {
  }

  /** A statement for the row id alone. */
  predicate Names(st: Step, id: JobId) {
    match st.event
    case CompleteJob(i, _) => i == id
    case FailJob(i, _, _) => i == id
    case HeartbeatJob(i, _) => i == id
    case PromoteJob(i) => i == id
    case CancelJob(i) => i == id
    case _ => false
  }

  /** What such a statement does and returns: nothing is changed unless the row matches and can be stored. */
  lemma RowRan(c: Config, s: Store, st: Step, id: JobId)
    requires Names(st, id)
    ensures var ch := ChangeFor(c, st, id);
      if ch.None? then Apply(c, s, st) == s && Result(c, s, st) == ErrDatabase
      else if id !in s.jobs || !Where(s.jobs[id], ch.value) then
        Apply(c, s, st) == s && Result(c, s, st) == ErrWrongState
      else if !Storable(s.jobs[id], ch.value) then Apply(c, s, st) == s && Result(c, s, st) == ErrDatabase
      else Apply(c, s, st) == Store(s.jobs[id := Changed(s.jobs[id], ch.value)], s.queues) && Result(c, s, st) == Done
  {
    OneRow(c, s.jobs, st, id);
    assert id in s.jobs ==> s.jobs[id := s.jobs[id]] == s.jobs;
  }

  /** What a claim that may take row id does and returns. */
  lemma ClaimRan(c: Config, s: Store, st: Step, id: JobId)
    requires st.event.ClaimJob? && st.event.pick == Some(id) && Enabled(c, s, st)
    ensures id in s.jobs
    ensures var j := Changed(s.jobs[id], Claim(st.event.worker, Stamp(c.dialect, st.at), LeaseEnd(c, st.at)));
      Apply(c, s, st) == Store(s.jobs[id := j], s.queues) && Result(c, s, st) == Row(View(c.dialect, id, j))
  {
    assert Candidate(s, st.event.queue, Stamp(c.dialect, st.at), st.event.skip, id);
    OneRow(c, s.jobs, st, id);
  }

  lemma NoRow(c: Config, jobs: map<JobId, Job>, st: Step)
    requires !st.event.InsertJob? && forall i :: ChangeFor(c, st, i).None?
    ensures JobsAfter(c, jobs, st) == jobs
  {
  }

  lemma NewRow(c: Config, jobs: map<JobId, Job>, st: Step)
    requires st.event.InsertJob?
    ensures var e := st.event;
      JobsAfter(c, jobs, st)
      == if e.id in jobs then jobs else jobs[e.id := NewJob(c.dialect, e.opts, e.readAt, e.comparedAt, st.at)]
  {
  }

  /** Exactly the rows of the batch have had the SET clause of ch applied. */
  ghost predicate Rewritten(before: map<JobId, Job>, after: map<JobId, Job>, batch: set<JobId>, ch: Change) {
    && after.Keys == before.Keys
    && forall id :: id in before ==> after[id] == if id in batch then Changed(before[id], ch) else before[id]
  }

  lemma DueBatchRan(c: Config, before: Store, st: Step, after: Store)
    requires st.event.PromoteScheduledJobs? && st.event.batch <= DueRows(before.jobs, Stamp(c.dialect, st.at)).Keys
    requires Rewritten(before.jobs, after.jobs, st.event.batch, Promote(Stamp(c.dialect, st.at)))
    requires after.queues == before.queues
    ensures after == Apply(c, before, st)
  {
    assert JobsAfter(c, before.jobs, st) == after.jobs;
  }

  lemma LapsedBatchRan(c: Config, before: Store, st: Step, after: Store)
    requires st.event.FailExpiredJobs? && st.event.batch <= LapsedRows(before.jobs, Stamp(c.dialect, st.at)).Keys
    requires Rewritten(before.jobs, after.jobs, st.event.batch,
                       Reap(ErrorEntry(st.at, LOCK_EXPIRED), Stamp(c.dialect, st.at)))
    requires after.queues == before.queues
    ensures after == Apply(c, before, st)
  {
    assert JobsAfter(c, before.jobs, st) == after.jobs;
  }
}
