/** Counting jobs: JobCountsByStatus, QueueInfo, ListQueues and the queue statistics made from them. */
module Counts {
  import opened Wrappers
  import opened Jobs
  import opened TextOrder
  import Lifecycle

  // ----- SELECT status, COUNT(*) ... GROUP BY status -----

  /** The jobs of one queue, or of all queues for None. */
  function InQueue(jobs: map<JobId, Job>, queue: Option<string>): set<JobId> {
    set id | id in jobs && (queue.Some? ==> jobs[id].queue == queue.value)
  }

  function WithStatus(jobs: map<JobId, Job>, ids: set<JobId>, st: Status): set<JobId> {
    set id | id in ids && id in jobs && jobs[id].status == st
  }

  /** The map has an entry for exactly the statuses that occur, and it is their number. */
  ghost predicate CountOf(jobs: map<JobId, Job>, ids: set<JobId>, counts: map<Status, nat>, st: Status) {
    (st in counts <==> WithStatus(jobs, ids, st) != {}) && (st in counts ==> counts[st] == |WithStatus(jobs, ids, st)|)
  }

  ghost predicate CountsOf(jobs: map<JobId, Job>, ids: set<JobId>, counts: map<Status, nat>) {
    forall st :: CountOf(jobs, ids, counts, st)
  }

  method CountByStatus(jobs: map<JobId, Job>, queue: Option<string>) returns (counts: map<Status, nat>)
    ensures CountsOf(jobs, InQueue(jobs, queue), counts)
  {
    counts := map[];
    var rest := InQueue(jobs, queue);
    ghost var done := {};
    while rest != {}
      invariant done !! rest && done + rest == InQueue(jobs, queue)
      invariant CountsOf(jobs, done, counts)
      decreases rest
    {
      var id :| id in rest;
      var st := jobs[id].status;
      AddOne(jobs, done, counts, id);
      counts := counts[st := if st in counts then counts[st] + 1 else 1];
      rest := rest - {id};
      done := done + {id};
    }
    assert done == InQueue(jobs, queue);
  }

  lemma OneMore(jobs: map<JobId, Job>, ids: set<JobId>, id: JobId, st: Status)
    requires id in jobs && id !in ids
    ensures WithStatus(jobs, ids + {id}, st) == WithStatus(jobs, ids, st) + (if jobs[id].status == st then {id} else {})
    ensures id !in WithStatus(jobs, ids, st)
  {
  }

  lemma AddOne(jobs: map<JobId, Job>, ids: set<JobId>, counts: map<Status, nat>, id: JobId)
    requires id in jobs && id !in ids && CountsOf(jobs, ids, counts)
    ensures var st := jobs[id].status;
      CountsOf(jobs, ids + {id}, counts[st := if st in counts then counts[st] + 1 else 1])
  {
    var own := jobs[id].status;
    var after := counts[own := if own in counts then counts[own] + 1 else 1];
    forall st
      ensures CountOf(jobs, ids + {id}, after, st)
    {
      assert CountOf(jobs, ids, counts, st);
      OneMore(jobs, ids, id, st);
    }
  }

  // ----- statistics -----

  datatype QueueStats = QueueStats(pending: nat, scheduled: nat, available: nat, running: nat,
                                   retryable: nat, cancelled: nat, discarded: nat, completed: nat)
  {
    function Total(): nat {
      pending + scheduled + available + running + retryable + cancelled + discarded + completed
    }
  }

  function Count(counts: map<Status, nat>, st: Status): nat {
    if st in counts then counts[st] else 0
  }

  function CountsToStats(counts: map<Status, nat>): QueueStats {
    QueueStats(Count(counts, Pending), Count(counts, Scheduled), Count(counts, Available), Count(counts, Running),
               Count(counts, Retryable), Count(counts, Cancelled), Count(counts, Discarded), Count(counts, Completed))
  }

  lemma CountIsCard(jobs: map<JobId, Job>, ids: set<JobId>, counts: map<Status, nat>, st: Status)
    requires CountsOf(jobs, ids, counts)
    ensures Count(counts, st) == |WithStatus(jobs, ids, st)|
  {
    assert CountOf(jobs, ids, counts, st);
  }

  function Card(jobs: map<JobId, Job>, ids: set<JobId>, st: Status): nat {
    |WithStatus(jobs, ids, st)|
  }

  function CardTotal(jobs: map<JobId, Job>, ids: set<JobId>): nat {
    Card(jobs, ids, Pending) + Card(jobs, ids, Scheduled) + Card(jobs, ids, Available) + Card(jobs, ids, Running)
    + Card(jobs, ids, Retryable) + Card(jobs, ids, Cancelled) + Card(jobs, ids, Discarded) + Card(jobs, ids, Completed)
  }

  lemma CardStep(jobs: map<JobId, Job>, ids: set<JobId>, id: JobId, st: Status)
    requires id in jobs && id !in ids
    ensures Card(jobs, ids + {id}, st) == Card(jobs, ids, st) + (if jobs[id].status == st then 1 else 0)
  {
    OneMore(jobs, ids, id, st);
  }

  lemma CardTotalStep(jobs: map<JobId, Job>, ids: set<JobId>, id: JobId)
    requires id in jobs && id !in ids
    ensures CardTotal(jobs, ids + {id}) == CardTotal(jobs, ids) + 1
  {
    CardStep(jobs, ids, id, Pending);
    CardStep(jobs, ids, id, Scheduled);
    CardStep(jobs, ids, id, Available);
    CardStep(jobs, ids, id, Running);
    CardStep(jobs, ids, id, Retryable);
    CardStep(jobs, ids, id, Cancelled);
    CardStep(jobs, ids, id, Discarded);
    CardStep(jobs, ids, id, Completed);
  }

  lemma {:induction false} CardTotalIsCard(jobs: map<JobId, Job>, ids: set<JobId>)
    requires ids <= jobs.Keys
    ensures CardTotal(jobs, ids) == |ids|
    decreases ids
  {
    if ids != {} {
      var id :| id in ids;
      var rest := ids - {id};
      assert rest + {id} == ids;
      CardTotalIsCard(jobs, rest);
      CardTotalStep(jobs, rest, id);
    }
  }

  /** countsToStats drops nothing: the eight numbers add up to the jobs counted. */
  lemma StatsAddUp(jobs: map<JobId, Job>, ids: set<JobId>, counts: map<Status, nat>)
    requires CountsOf(jobs, ids, counts) && ids <= jobs.Keys
    ensures CountsToStats(counts).Total() == |ids|
  {
    CardTotalIsCard(jobs, ids);
    forall st
      ensures Count(counts, st) == Card(jobs, ids, st)
    {
      CountIsCard(jobs, ids, counts, st);
    }
  }

  // ----- queues -----

  datatype QueueSummary = QueueSummary(name: string, paused: bool, counts: map<Status, nat>)

  /** GetQueue: an unknown queue reads as unpaused and empty. */
  method QueueInfo(s: Store, name: string) returns (info: QueueSummary)
    ensures info.name == name && (info.paused <==> Paused(s, name))
    ensures CountsOf(s.jobs, InQueue(s.jobs, Some(name)), info.counts)
  {
    var counts := CountByStatus(s.jobs, Some(name));
    info := QueueSummary(name, name in s.queues && s.queues[name].pausedAt.Some?, counts);
  }

  ghost predicate InNameOrder(names: seq<string>) {
    forall i, k :: 0 <= i < k < |names| ==> LexLt(names[i], names[k])
  }

  method FirstName(names: set<string>) returns (first: string)
    requires names != {}
    ensures first in names && forall n :: n in names ==> LexLe(first, n)
  {
    first :| first in names;
    LexReflexive(first);
    var rest := names - {first};
    while rest != {}
      invariant first in names && rest <= names
      invariant forall n :: n in names && n !in rest ==> LexLe(first, n)
      decreases rest
    {
      var other :| other in rest;
      rest := rest - {other};
      LexTotal(first, other);
      if !LexLe(first, other) {
        forall n | n in names && n !in rest
          ensures LexLe(other, n)
        {
          if n == other {
            LexReflexive(other);
          } else {
            LexTransitive(other, first, n);
          }
        }
        first := other;
      }
    }
  }

  /** SELECT name FROM queues ORDER BY name. */
  method QueueNames(queues: map<string, QueueRow>) returns (names: seq<string>)
    ensures InNameOrder(names) && forall n :: n in names <==> n in queues
  {
    names := [];
    var rest := queues.Keys;
    while rest != {}
      invariant rest <= queues.Keys && InNameOrder(names)
      invariant forall n :: n in queues <==> n in names || n in rest
      invariant forall i, n :: 0 <= i < |names| && n in rest ==> LexLt(names[i], n)
      decreases rest
    {
      var first := FirstName(rest);
      names, rest := names + [first], rest - {first};
    }
  }

  ghost predicate SummaryOf(s: Store, q: QueueSummary) {
    (q.paused <==> Paused(s, q.name)) && CountsOf(s.jobs, InQueue(s.jobs, Some(q.name)), q.counts)
  }

  function Names(out: seq<QueueSummary>): (names: seq<string>)
    ensures |names| == |out| && forall i :: 0 <= i < |out| ==> names[i] == out[i].name
  {
    seq(|out|, i requires 0 <= i < |out| => out[i].name)
  }

  /** Every queue once, in name order, with its counts. */
  ghost predicate AllQueues(s: Store, out: seq<QueueSummary>) {
    && InNameOrder(Names(out))
    && (forall n :: n in Names(out) <==> n in s.queues)
    && forall i :: 0 <= i < |out| ==> SummaryOf(s, out[i])
  }

  /** The driver's ListQueues: the names in order, then the counts of each. */
  method ListQueues(s: Store) returns (out: seq<QueueSummary>)
    ensures AllQueues(s, out)
  {
    var all := QueueNames(s.queues);
    out := [];
    var i := 0;
    while i < |all|
      invariant 0 <= i <= |all| && |out| == i
      invariant forall k :: 0 <= k < i ==> out[k].name == all[k] && SummaryOf(s, out[k])
    {
      var info := QueueInfo(s, all[i]);
      out := out + [info];
      i := i + 1;
    }
    assert Names(out) == all;
  }

  // ----- totals -----

  function SumOver(out: seq<QueueSummary>, st: Status, n: nat): nat
    requires n <= |out|
  {
    if n == 0 then 0 else SumOver(out, st, n - 1) + Count(out[n - 1].counts, st)
  }

  /** The jobs of the first n queues. */
  function InQueues(jobs: map<JobId, Job>, names: seq<string>, n: nat): set<JobId>
    requires n <= |names|
  {
    if n == 0 then {} else InQueues(jobs, names, n - 1) + InQueue(jobs, Some(names[n - 1]))
  }

  lemma {:induction false} InQueuesMembers(jobs: map<JobId, Job>, names: seq<string>, n: nat, id: JobId)
    requires n <= |names|
    ensures id in InQueues(jobs, names, n) <==> id in jobs && exists k :: 0 <= k < n && jobs[id].queue == names[k]
  {
    if n > 0 {
      InQueuesMembers(jobs, names, n - 1, id);
    }
  }

  lemma CardUnion(jobs: map<JobId, Job>, a: set<JobId>, b: set<JobId>, st: Status)
    requires a !! b
    ensures Card(jobs, a + b, st) == Card(jobs, a, st) + Card(jobs, b, st)
  {
    assert WithStatus(jobs, a + b, st) == WithStatus(jobs, a, st) + WithStatus(jobs, b, st);
    assert WithStatus(jobs, a, st) !! WithStatus(jobs, b, st);
  }

  lemma NextQueueDisjoint(jobs: map<JobId, Job>, names: seq<string>, n: nat)
    requires n < |names| && InNameOrder(names)
    ensures InQueues(jobs, names, n) !! InQueue(jobs, Some(names[n]))
  {
    forall id | id in InQueues(jobs, names, n)
      ensures id !in InQueue(jobs, Some(names[n]))
    {
      InQueuesMembers(jobs, names, n, id);
    }
  }

  lemma NextQueueCounted(s: Store, out: seq<QueueSummary>, names: seq<string>, st: Status, n: nat)
    requires AllQueues(s, out) && names == Names(out) && n < |out|
    ensures Card(s.jobs, InQueues(s.jobs, names, n + 1), st) ==
      Card(s.jobs, InQueues(s.jobs, names, n), st) + Count(out[n].counts, st)
  {
    NextQueueDisjoint(s.jobs, names, n);
    CardUnion(s.jobs, InQueues(s.jobs, names, n), InQueue(s.jobs, Some(names[n])), st);
    assert SummaryOf(s, out[n]);
    CountIsCard(s.jobs, InQueue(s.jobs, Some(names[n])), out[n].counts, st);
  }

  lemma {:induction false} SumOverQueues(s: Store, out: seq<QueueSummary>, names: seq<string>, st: Status, n: nat)
    requires AllQueues(s, out) && names == Names(out) && n <= |out|
    ensures SumOver(out, st, n) == Card(s.jobs, InQueues(s.jobs, names, n), st)
  {
    if n > 0 {
      SumOverQueues(s, out, names, st, n - 1);
      NextQueueCounted(s, out, names, st, n - 1);
    } else {
      assert WithStatus(s.jobs, {}, st) == {};
    }
  }

  /** Every job's queue is in the queues table. */
  ghost predicate QueuesKnown(s: Store) {
    forall id :: id in s.jobs ==> s.jobs[id].queue in s.queues
  }

  lemma KnownQueuesCoverJobs(s: Store, names: seq<string>)
    requires QueuesKnown(s) && forall n :: n in names <==> n in s.queues
    ensures InQueues(s.jobs, names, |names|) == InQueue(s.jobs, None) == s.jobs.Keys
  {
    forall id | id in s.jobs
      ensures id in InQueues(s.jobs, names, |names|)
    {
      InQueuesMembers(s.jobs, names, |names|, id);
    }
    forall id | id in InQueues(s.jobs, names, |names|)
      ensures id in s.jobs
    {
      InQueuesMembers(s.jobs, names, |names|, id);
    }
  }

  /** The counts of ListQueues summed over the queues are those of JobCountsByStatus. */
  lemma QueueCountsAddUp(s: Store, out: seq<QueueSummary>, all: map<Status, nat>, st: Status)
    requires QueuesKnown(s) && AllQueues(s, out)
    requires CountsOf(s.jobs, InQueue(s.jobs, None), all)
    ensures SumOver(out, st, |out|) == Count(all, st)
  {
    SumOverQueues(s, out, Names(out), st, |out|);
    KnownQueuesCoverJobs(s, Names(out));
    CountIsCard(s.jobs, InQueue(s.jobs, None), all, st);
  }

  /** CreateJob upserts the queue before it inserts the job. */
  ghost predicate UpsertsFirst(steps: seq<Step>) {
    forall i :: 0 <= i < |steps| && steps[i].event.InsertJob? ==>
      exists k :: 0 <= k < i && steps[k].event == UpsertQueue(steps[i].event.opts.queue)
  }

  lemma UpsertedQueueStays(c: Config, s: Store, steps: seq<Step>, k: nat, n: nat)
    requires k < n <= |steps| && steps[k].event.UpsertQueue?
    ensures steps[k].event.name in At(c, s, steps, n).queues
  {
    assert steps[k].event.name in At(c, s, steps, k + 1).queues;
    Lifecycle.RunExtends(c, s, steps, k + 1, n);
  }

  lemma InsertsIntoKnownQueue(c: Config, s: Store, steps: seq<Step>, n: nat)
    requires UpsertsFirst(steps) && n < |steps| && steps[n].event.InsertJob?
    ensures steps[n].event.opts.queue in At(c, s, steps, n).queues
  {
    var k :| 0 <= k < n && steps[k].event == UpsertQueue(steps[n].event.opts.queue);
    UpsertedQueueStays(c, s, steps, k, n);
  }

  lemma StepKeepsQueuesKnown(c: Config, s: Store, st: Step)
    requires QueuesKnown(s) && (st.event.InsertJob? ==> st.event.opts.queue in s.queues)
    ensures QueuesKnown(Apply(c, s, st))
  {
    Lifecycle.StepExtends(c, s, st);
    var s' := Apply(c, s, st);
    forall id | id in s'.jobs
      ensures s'.jobs[id].queue in s'.queues
    {
      if id in s.jobs {
        assert Lifecycle.Evolves(s.jobs[id], s'.jobs[id]);
      }
    }
  }

  /** In every run the queue of every job is in the queues table. */
  lemma {:induction false} QueuesAlwaysKnown(c: Config, s: Store, steps: seq<Step>, n: nat)
    requires QueuesKnown(s) && UpsertsFirst(steps) && n <= |steps|
    ensures QueuesKnown(At(c, s, steps, n))
  {
    if n > 0 {
      QueuesAlwaysKnown(c, s, steps, n - 1);
      if steps[n - 1].event.InsertJob? {
        InsertsIntoKnownQueue(c, s, steps, n - 1);
      }
      StepKeepsQueuesKnown(c, At(c, s, steps, n - 1), steps[n - 1]);
    }
  }

  // ----- the runs of a driver -----

  ghost predicate Upserted(log: seq<Step>, queue: string) {
    exists k :: 0 <= k < |log| && log[k].event == UpsertQueue(queue)
  }

  /** The tables are the result of this run from empty tables, in which every insert comes after its queue's upsert. */
  ghost predicate Logged(c: Config, log: seq<Step>, s: Store) {
    Lifecycle.Reaches(c, EMPTY, log, s) && UpsertsFirst(log)
  }

  lemma LogStep(c: Config, log: seq<Step>, s: Store, st: Step)
    requires Logged(c, log, s) && Enabled(c, s, st) && (st.event.InsertJob? ==> Upserted(log, st.event.opts.queue))
    ensures Logged(c, log + [st], Apply(c, s, st))
  {
    Lifecycle.AppendStep(c, EMPTY, log, st);
    var longer := log + [st];
    forall i | 0 <= i < |longer| && longer[i].event.InsertJob?
      ensures exists k :: 0 <= k < i && longer[k].event == UpsertQueue(longer[i].event.opts.queue)
    {
      if i < |log| {
        var k :| 0 <= k < i && log[k].event == UpsertQueue(log[i].event.opts.queue);
        assert longer[k].event == UpsertQueue(longer[i].event.opts.queue);
      } else {
        var k :| 0 <= k < |log| && log[k].event == UpsertQueue(st.event.opts.queue);
        assert longer[k].event == UpsertQueue(longer[i].event.opts.queue);
      }
    }
  }

  /** So the tables of a driver obey the ledger, and know every job's queue. */
  lemma LoggedTablesAreSound(c: Config, log: seq<Step>, s: Store)
    requires Logged(c, log, s)
    ensures Lifecycle.Balanced(s) && QueuesKnown(s)
  {
    Lifecycle.LedgerAlways(c, EMPTY, log, |log|);
    QueuesAlwaysKnown(c, EMPTY, log, |log|);
  }
}
