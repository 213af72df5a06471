/** The job service on top of the driver: request options, the two-step FailJob, and paging. */
module Service {
  import opened Wrappers
  import opened Jobs
  import Backoff
  import Counts
  import Lifecycle
  import Listing
  import PGDriver
  import SQLiteDriver
  import opened TextOrder

  // ----- CreateJob -----

  datatype BackoffOptions = BackoffOptions(kind: string, delay: Millis, jitter: bool)

  /** The options of a request, already validated: nothing negative, priority at most 100. */
  datatype JobOptions = JobOptions(pending: bool, delay: Millis, attempts: nat, priority: nat,
                                   backoff: Option<BackoffOptions>)

  function ClampPriority(p: nat): nat {
    if p >= 75 then 1 else if p >= 50 then 2 else if p >= 25 then 3 else 4
  }

  /** time.Duration(delay) * time.Millisecond, in whole milliseconds: the nanoseconds wrap at 64 bits. */
  function DelayMs(delay: Millis): int {
    Wrap64(delay * 1_000_000) / 1_000_000
  }

  /** The largest delay that survives it. */
  const MAX_DELAY_MS: nat := 9_223_372_036_854

  /** A delay is kept exactly up to that bound; beyond it the job is scheduled earlier than asked for. */
  lemma DelayKeptExactly(delay: Millis)
    ensures DelayMs(delay) == delay <==> delay <= MAX_DELAY_MS
    ensures delay > MAX_DELAY_MS ==> DelayMs(delay) < delay
  {
  }

  /** One millisecond more, and the job is scheduled 292 years before its creation. */
  lemma DelayCanPointBack()
    ensures DelayMs(MAX_DELAY_MS + 1) == -9_223_372_036_855
  {
  }

  /** The priority a request asks for; 0 when it leaves it out. */
  function Requested(options: Option<JobOptions>): nat {
    if options.Some? then options.value.priority else 0
  }

  method MakeOptions(queue: string, kind: string, payload: Json, options: Option<JobOptions>, now: nat)
    returns (o: CreateOpts)
    ensures o.queue == queue && o.kind == kind && o.payload == payload
    ensures o.pending <==> options.Some? && options.value.pending
    ensures o.scheduledAt ==
      if options.Some? && options.value.delay > 0 then Some(now + DelayMs(options.value.delay)) else None
    ensures o.maxAttempts == if options.Some? then options.value.attempts else 0
    ensures AsksFor(o, Requested(options))
    ensures o.metadata == if options.Some? && options.value.backoff.Some?
      then Metadata(options.value.backoff.value.kind, Some(options.value.backoff.value.delay),
                    options.value.backoff.value.jitter)
      else Metadata("", None, false)
  {
    o := CreateOpts(queue, kind, payload, Metadata("", None, false), 0, 0, None, false);
    if options.Some? {
      var jo := options.value;
      o := o.(pending := jo.pending);
      if jo.delay > 0 {
        o := o.(scheduledAt := Some(now + DelayMs(jo.delay)));
      }
      if jo.attempts > 0 {
        o := o.(maxAttempts := jo.attempts);
      }
      if jo.priority > 0 {
        o := o.(priority := ClampPriority(jo.priority));
      }
      if jo.backoff.Some? {
        o := o.(metadata := Metadata(jo.backoff.value.kind, Some(jo.backoff.value.delay), jo.backoff.value.jitter));
      }
    }
  }

  /** The options MakeOptions makes of a request for this priority. */
  predicate AsksFor(o: CreateOpts, requested: nat) {
    o.priority == if requested > 0 then ClampPriority(requested) else 0
  }

  /** The priority column of such a job: 1 is claimed first. */
  function RowPriority(requested: nat): nat {
    if requested == 0 || requested >= 75 then 1 else if requested >= 50 then 2 else if requested >= 25 then 3 else 4
  }

  lemma NewJobPriority(d: Dialect, o: CreateOpts, readAt: nat, comparedAt: nat, at: nat, requested: nat)
    requires AsksFor(o, requested)
    ensures NewJob(d, o, readAt, comparedAt, at).priority == RowPriority(requested)
  {
  }

  /** A higher requested priority gets a row priority at least as good, except that leaving the priority out (0)
      outranks every request below 75. */
  lemma PriorityOrder(high: nat, low: nat)
    requires high >= low
    ensures RowPriority(high) <= RowPriority(low) <==> low > 0 || high == 0 || high >= 75
  {
  }

  /** Step i of the run creates job id with options that ask for this priority. */
  ghost predicate Creates(c: Config, s: Store, steps: seq<Step>, i: nat, id: JobId, requested: nat)
    requires i < |steps|
  {
    && steps[i].event.InsertJob? && steps[i].event.id == id && id !in At(c, s, steps, i).jobs
    && AsksFor(steps[i].event.opts, requested)
  }

  lemma {:induction false} CreatedPriority(c: Config, s: Store, steps: seq<Step>, i: nat, k: nat, id: JobId,
                                           requested: nat)
    requires i < k <= |steps| && Creates(c, s, steps, i, id, requested)
    ensures id in At(c, s, steps, k).jobs && At(c, s, steps, k).jobs[id].priority == RowPriority(requested)
  {
    var created := At(c, s, steps, i + 1);
    var e := steps[i].event;
    assert created == Apply(c, At(c, s, steps, i), steps[i]);
    NewJobPriority(c.dialect, e.opts, e.readAt, e.comparedAt, steps[i].at, requested);
    Lifecycle.RunExtends(c, s, steps, i + 1, k);
    assert Lifecycle.Evolves(created.jobs[id], At(c, s, steps, k).jobs[id]);
  }

  /** Of two jobs a run created, a claim that could take either never takes the one whose requested priority ranks
      behind, however much longer it has been due. */
  lemma OutrankedJobWaits(c: Config, s: Store, steps: seq<Step>, i: nat, first: JobId, better: nat,
                          k: nat, second: JobId, worse: nat, n: nat)
    requires i < n < |steps| && k < n && EnabledAt(c, s, steps, n) && steps[n].event.ClaimJob?
    requires Creates(c, s, steps, i, first, better) && Creates(c, s, steps, k, second, worse)
    requires RowPriority(better) < RowPriority(worse)
    requires Candidate(At(c, s, steps, n), steps[n].event.queue, Stamp(c.dialect, steps[n].at), steps[n].event.skip,
                       first)
    ensures steps[n].event.pick != Some(second)
  {
    CreatedPriority(c, s, steps, i, n, first, better);
    CreatedPriority(c, s, steps, k, n, second, worse);
  }

  // ----- FailJob -----

  datatype Reply = Ok | FailedPrecondition | Internal | Panicked

  /** mapErr, for the outcomes FailJob has. */
  function MapErr(r: Outcome): Reply {
    if r.Done? then Ok else if r.ErrWrongState? then FailedPrecondition else Internal
  }

  /** A delay the policy of the row can come up with. */
  ghost predicate Delay(j: Job, beyond: Int64, delay: Option<Int64>) {
    Backoff.IsDelay(j.metadata, j.attempt, beyond, delay)
  }

  /** The reply when the row is failed with this backoff: a database that refuses it is an internal error. */
  ghost predicate Replies(d: Dialect, j: Job, now: nat, backoffMs: Int64, reply: Reply) {
    && reply != Panicked
    && (reply == Ok <==>
          && j.status.Running? && Accepts(d, backoffMs)
          && (j.attempt < j.maxAttempts ==> Backoff.Takes(d, now, backoffMs)))
    && (reply == FailedPrecondition <==> !j.status.Running? && Accepts(d, backoffMs))
  }

  /** FailJob with nothing between its two statements.  A missing job is an internal error, found by the read; the
      random source can panic after it (see Backoff.PanicsExactly), before anything is written. */
  method FailJobPostgres(driver: PGDriver.Driver, id: JobId, message: string, draw: nat, beyond: Int64, now: nat)
    returns (reply: Reply, ghost backoffMs: Int64)
    requires driver.Valid()
    modifies driver
    ensures driver.Valid()
    ensures id !in old(driver.jobs) ==> reply == Internal && driver.Tables() == old(driver.Tables())
    ensures id in old(driver.jobs) ==>
      && (reply == Panicked <==> Delay(old(driver.jobs)[id], beyond, None))
      && (reply == Panicked ==> driver.Tables() == old(driver.Tables()))
      && (reply != Panicked ==>
            && Delay(old(driver.jobs)[id], beyond, Some(backoffMs))
            && driver.Ran(Step(now, Event.FailJob(id, message, backoffMs)))
            && Replies(Postgres, old(driver.jobs)[id], now, backoffMs, reply))
  {
    if id !in driver.jobs {
      return Internal, 0;
    }
    var delay := Backoff.ComputeBackoffMs(View(Postgres, id, driver.jobs[id]), draw, beyond);
    if delay.None? {
      return Panicked, 0;
    }
    backoffMs := delay.value;
    var r := driver.FailJob(id, message, delay.value, now);
    reply := MapErr(r);
  }

  method FailJobSQLite(driver: SQLiteDriver.Driver, id: JobId, message: string, draw: nat, beyond: Int64, now: nat)
    returns (reply: Reply, ghost backoffMs: Int64)
    requires driver.Valid()
    modifies driver
    ensures driver.Valid()
    ensures id !in old(driver.jobs) ==> reply == Internal && driver.Tables() == old(driver.Tables())
    ensures id in old(driver.jobs) ==>
      && (reply == Panicked <==> Delay(old(driver.jobs)[id], beyond, None))
      && (reply == Panicked ==> driver.Tables() == old(driver.Tables()))
      && (reply != Panicked ==>
            && Delay(old(driver.jobs)[id], beyond, Some(backoffMs))
            && driver.Ran(Step(now, Event.FailJob(id, message, backoffMs)))
            && Replies(SQLite, old(driver.jobs)[id], now, backoffMs, reply))
  {
    if id !in driver.jobs {
      return Internal, 0;
    }
    var delay := Backoff.ComputeBackoffMs(View(SQLite, id, driver.jobs[id]), draw, beyond);
    if delay.None? {
      return Panicked, 0;
    }
    backoffMs := delay.value;
    var r := driver.FailJob(id, message, delay.value, now);
    reply := MapErr(r);
  }

  // ----- ListJobs -----

  /** The API page: one row more than the limit is fetched and then cut off. */
  method ListJobs(d: Dialect, jobs: map<JobId, Job>, f: Listing.Filter, requested: nat, after: Option<JobId>)
    returns (rows: seq<JobRow>)
    ensures Listing.IsPage(jobs, f, after, if requested == 0 then 50 else requested, Listing.RowIds(rows))
    ensures Listing.AreViews(d, jobs, rows)
  {
    var limit := requested;
    if limit == 0 {
      limit := 50;
    }
    rows := Listing.ListJobs(d, jobs, f, limit + 1, after);
    Listing.CutPage(jobs, f, after, limit, Listing.RowIds(rows));
    if |rows| > limit {
      assert Listing.RowIds(rows)[..limit] == Listing.RowIds(rows[..limit]);
      rows := rows[..limit];
    }
  }

  // ----- ListQueues -----

  datatype Queue = Queue(name: string, paused: bool, stats: Counts.QueueStats)

  ghost predicate QueueOf(s: Store, q: Queue) {
    (q.paused <==> Paused(s, q.name)) && StatsOf(s, q.name, q.stats)
  }

  function ToQueue(q: Counts.QueueSummary): Queue {
    Queue(q.name, q.paused, Counts.CountsToStats(q.counts))
  }

  lemma QueueFromSummary(s: Store, q: Counts.QueueSummary)
    requires Counts.SummaryOf(s, q)
    ensures QueueOf(s, ToQueue(q))
  {
    QueueStatsOf(s, q.name, q.counts);
  }

  /** The queue list: one entry per queue in name order, whose statistics add up to the jobs of that queue. */
  method ListQueues(s: Store) returns (queues: seq<Queue>)
    ensures forall i, k :: 0 <= i < k < |queues| ==> LexLt(queues[i].name, queues[k].name)
    ensures forall n :: n in s.queues <==> exists i :: 0 <= i < |queues| && queues[i].name == n
    ensures forall i :: 0 <= i < |queues| ==> QueueOf(s, queues[i])
  {
    var summaries := Counts.ListQueues(s);
    queues := [];
    var i := 0;
    while i < |summaries|
      invariant 0 <= i <= |summaries| && |queues| == i
      invariant forall k :: 0 <= k < i ==> queues[k] == ToQueue(summaries[k])
    {
      queues := queues + [ToQueue(summaries[i])];
      i := i + 1;
    }
    forall n
      ensures n in s.queues <==> exists i :: 0 <= i < |queues| && queues[i].name == n
    {
      assert n in Counts.Names(summaries) <==> n in s.queues;
      assert forall i :: 0 <= i < |queues| ==> Counts.Names(summaries)[i] == queues[i].name;
    }
    assert forall i :: 0 <= i < |queues| ==> Counts.Names(summaries)[i] == queues[i].name;
    forall k | 0 <= k < |queues|
      ensures QueueOf(s, queues[k])
    {
      QueueFromSummary(s, summaries[k]);
    }
  }

  /** Each number is the number of the queue's jobs in that status, and together they are all of them. */
  ghost predicate StatsOf(s: Store, name: string, stats: Counts.QueueStats) {
    var ids := Counts.InQueue(s.jobs, Some(name));
    && stats.pending == Counts.Card(s.jobs, ids, Pending)
    && stats.scheduled == Counts.Card(s.jobs, ids, Scheduled)
    && stats.available == Counts.Card(s.jobs, ids, Available)
    && stats.running == Counts.Card(s.jobs, ids, Running)
    && stats.retryable == Counts.Card(s.jobs, ids, Retryable)
    && stats.cancelled == Counts.Card(s.jobs, ids, Cancelled)
    && stats.discarded == Counts.Card(s.jobs, ids, Discarded)
    && stats.completed == Counts.Card(s.jobs, ids, Completed)
    && stats.Total() == |ids|
  }

  lemma QueueStatsOf(s: Store, name: string, counts: map<Status, nat>)
    requires Counts.CountsOf(s.jobs, Counts.InQueue(s.jobs, Some(name)), counts)
    ensures StatsOf(s, name, Counts.CountsToStats(counts))
  {
    var ids := Counts.InQueue(s.jobs, Some(name));
    Counts.StatsAddUp(s.jobs, ids, counts);
    forall st
      ensures Counts.Count(counts, st) == Counts.Card(s.jobs, ids, st)
    {
      Counts.CountIsCard(s.jobs, ids, counts, st);
    }
  }
}
