/** The queries see the same tables through both drivers, and no query sees a leftover lease. */
module Reads {
  import opened Wrappers
  import opened Jobs
  import opened Listing
  import Counts
  import Dialects
  import Leases

  /** The tables agree on what the queries filter, order and group by. */
  ghost predicate SameKeysQueuesStatuses(a: map<JobId, Job>, b: map<JobId, Job>) {
    a.Keys == b.Keys && forall id :: id in a ==> a[id].queue == b[id].queue && a[id].status == b[id].status
  }

  /** The answers of ListJobs (the page of ids), QueueInfo, ListQueues and JobCountsByStatus on this store. */
  ghost predicate Answers(s: Store, f: Filter, after: Option<JobId>, limit: nat, page: seq<JobId>,
                          info: Counts.QueueSummary, queues: seq<Counts.QueueSummary>, counts: map<Status, nat>) {
    && IsPage(s.jobs, f, after, limit, page)
    && Counts.SummaryOf(s, info)
    && Counts.AllQueues(s, queues)
    && Counts.CountsOf(s.jobs, Counts.InQueue(s.jobs, None), counts)
  }

  lemma SamePage(a: map<JobId, Job>, b: map<JobId, Job>, f: Filter, after: Option<JobId>, limit: nat, page: seq<JobId>)
    requires SameKeysQueuesStatuses(a, b) && IsPage(a, f, after, limit, page)
    ensures IsPage(b, f, after, limit, page)
  {
    assert forall id :: Listed(a, f, after, id) <==> Listed(b, f, after, id);
  }

  lemma SameCounts(a: map<JobId, Job>, b: map<JobId, Job>, queue: Option<string>, counts: map<Status, nat>)
    requires SameKeysQueuesStatuses(a, b) && Counts.CountsOf(a, Counts.InQueue(a, queue), counts)
    ensures Counts.CountsOf(b, Counts.InQueue(b, queue), counts)
  {
    var ids := Counts.InQueue(a, queue);
    assert Counts.InQueue(b, queue) == ids;
    forall st
      ensures Counts.CountOf(b, ids, counts, st)
    {
      assert Counts.CountOf(a, ids, counts, st);
      assert Counts.WithStatus(a, ids, st) == Counts.WithStatus(b, ids, st);
    }
  }

  ghost predicate SameQueues(a: Store, b: Store) {
    a.queues.Keys == b.queues.Keys && forall q :: Paused(a, q) <==> Paused(b, q)
  }

  lemma SameAnswers(a: Store, b: Store, f: Filter, after: Option<JobId>, limit: nat, page: seq<JobId>,
                    info: Counts.QueueSummary, queues: seq<Counts.QueueSummary>, counts: map<Status, nat>)
    requires SameKeysQueuesStatuses(a.jobs, b.jobs) && SameQueues(a, b)
    requires Answers(a, f, after, limit, page, info, queues, counts)
    ensures Answers(b, f, after, limit, page, info, queues, counts)
  {
    SamePage(a.jobs, b.jobs, f, after, limit, page);
    SameCounts(a.jobs, b.jobs, None, counts);
    SameCounts(a.jobs, b.jobs, Some(info.name), info.counts);
    forall i | 0 <= i < |queues|
      ensures Counts.SummaryOf(b, queues[i])
    {
      assert Counts.SummaryOf(a, queues[i]);
      SameCounts(a.jobs, b.jobs, Some(queues[i].name), queues[i].counts);
    }
  }

  /** On whole-second tables GetJob, ListJobs, the queue queries and the counts answer alike on both drivers. */
  lemma DialectsAnswerAlike(p: Store, q: Store, f: Filter, after: Option<JobId>, limit: nat, page: seq<JobId>,
                            info: Counts.QueueSummary, queues: seq<Counts.QueueSummary>, counts: map<Status, nat>)
    requires Dialects.Related(p, q)
    ensures p.jobs.Keys == q.jobs.Keys
    ensures forall id :: id in p.jobs ==> View(SQLite, id, q.jobs[id]) == View(Postgres, id, p.jobs[id])
    ensures Answers(p, f, after, limit, page, info, queues, counts) <==>
      Answers(q, f, after, limit, page, info, queues, counts)
  {
    forall id | id in p.jobs
      ensures View(SQLite, id, q.jobs[id]) == View(Postgres, id, p.jobs[id])
    {
      Dialects.ViewRelated(id, p.jobs[id]);
    }
    assert SameQueues(p, q);
    if Answers(p, f, after, limit, page, info, queues, counts) {
      SameAnswers(p, q, f, after, limit, page, info, queues, counts);
    } else if Answers(q, f, after, limit, page, info, queues, counts) {
      SameAnswers(q, p, f, after, limit, page, info, queues, counts);
    }
  }

  /** Tables that differ only in leftover leases answer alike. */
  lemma LeasesAnswerAlike(d: Dialect, a: Store, b: Store, f: Filter, after: Option<JobId>, limit: nat, page: seq<JobId>,
                          info: Counts.QueueSummary, queues: seq<Counts.QueueSummary>, counts: map<Status, nat>)
    requires Leases.SameButLeases(a, b)
    ensures a.jobs.Keys == b.jobs.Keys
    ensures forall id :: id in a.jobs ==> View(d, id, a.jobs[id]) == View(d, id, b.jobs[id])
    ensures Answers(a, f, after, limit, page, info, queues, counts) <==>
      Answers(b, f, after, limit, page, info, queues, counts)
  {
    Leases.SameRows(a, b);
    forall id | id in a.jobs
      ensures View(d, id, a.jobs[id]) == View(d, id, b.jobs[id])
      ensures a.jobs[id].queue == b.jobs[id].queue && a.jobs[id].status == b.jobs[id].status
    {
      assert Leases.ForgetRow(a.jobs[id]) == Leases.ForgetRow(b.jobs[id]);
      Leases.ForgetView(d, id, a.jobs[id], b.jobs[id]);
    }
    if Answers(a, f, after, limit, page, info, queues, counts) {
      SameAnswers(a, b, f, after, limit, page, info, queues, counts);
    } else if Answers(b, f, after, limit, page, info, queues, counts) {
      SameAnswers(b, a, f, after, limit, page, info, queues, counts);
    }
  }
}
