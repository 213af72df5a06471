/** Which row ClaimJob takes: the selection itself, draining a queue, and pausing it. */
module Claims {
  import opened Wrappers
  import opened Jobs
  import Timing

  /** ORDER BY priority, scheduled_at, id LIMIT 1 over the candidates, unless the queue is paused. */
  method SelectJob(s: Store, queue: string, now: nat, skip: set<JobId>) returns (pick: Option<JobId>)
    ensures IsPick(s, queue, now, skip, pick)
  {
    pick := None;
    if Paused(s, queue) {
      return;
    }
    var rest := s.jobs.Keys;
    while rest != {}
      invariant rest <= s.jobs.Keys
      invariant pick.None? ==> forall id :: Candidate(s, queue, now, skip, id) ==> id in rest
      invariant pick.Some? ==> Candidate(s, queue, now, skip, pick.value)
      invariant pick.Some? ==>
        forall id :: Candidate(s, queue, now, skip, id) && id !in rest ==>
          KeyLe(s.jobs[pick.value], pick.value, s.jobs[id], id)
      decreases rest
    {
      var id :| id in rest;
      rest := rest - {id};
      if Candidate(s, queue, now, skip, id)
        && (pick.None? || !KeyLe(s.jobs[pick.value], pick.value, s.jobs[id], id)) {
        pick := Some(id);
      }
    }
  }

  /** The claim order is total, so the row taken is determined. */
  lemma PickUnique(s: Store, queue: string, now: nat, skip: set<JobId>, p: Option<JobId>, q: Option<JobId>)
    requires IsPick(s, queue, now, skip, p) && IsPick(s, queue, now, skip, q)
    ensures p == q
  {
    assert p.Some? ==> Candidate(s, queue, now, skip, p.value);
    assert q.Some? ==> Candidate(s, queue, now, skip, q.value);
  }

  /** Row id waits for this claim: an available job of its queue that is due and not skipped. */
  predicate Waiting(c: Config, s: Store, st: Step, id: JobId)
    requires st.event.ClaimJob?
  {
    && id in s.jobs && id !in st.event.skip
    && s.jobs[id].queue == st.event.queue && s.jobs[id].status == Available
    && s.jobs[id].scheduledAt <= if c.dialect.Postgres? then st.at else st.at / 1000
  }

  /** The row a claim takes waits for it, on a queue that is not paused, and comes first among all that wait: by
      priority, then by due time, then by id. */
  lemma ClaimTakesFirst(c: Config, s: Store, st: Step, p: JobId, id: JobId)
    requires st.event.ClaimJob? && Enabled(c, s, st) && st.event.pick == Some(p)
    ensures Waiting(c, s, st, p)
    ensures st.event.queue in s.queues ==> s.queues[st.event.queue].pausedAt == None
    ensures Waiting(c, s, st, id) ==>
      && s.jobs[p].priority <= s.jobs[id].priority
      && (s.jobs[p].priority == s.jobs[id].priority ==> s.jobs[p].scheduledAt <= s.jobs[id].scheduledAt)
      && (s.jobs[p].priority == s.jobs[id].priority && s.jobs[p].scheduledAt == s.jobs[id].scheduledAt ==> p <= id)
  {
    var now := Stamp(c.dialect, st.at);
    assert Candidate(s, st.event.queue, now, st.event.skip, p);
    assert Waiting(c, s, st, id) ==> Candidate(s, st.event.queue, now, st.event.skip, id);
  }

  /** A claim finds nothing exactly on a paused queue or when no row waits. */
  lemma ClaimFindsNothing(c: Config, s: Store, st: Step)
    requires st.event.ClaimJob? && Enabled(c, s, st)
    ensures Result(c, s, st) == NoRow <==>
      (st.event.queue in s.queues && s.queues[st.event.queue].pausedAt != None) || forall id :: !Waiting(c, s, st, id)
  {
    var now := Stamp(c.dialect, st.at);
    assert forall id :: Waiting(c, s, st, id) <==> Candidate(s, st.event.queue, now, st.event.skip, id);
  }

  // ----- draining -----

  function Backlog(s: Store, queue: string): set<JobId> {
    set id | id in s.jobs && s.jobs[id].queue == queue && s.jobs[id].status.Available?
  }

  ghost predicate IsClaimOf(st: Step, queue: string) {
    st.event.ClaimJob? && st.event.queue == queue && st.event.skip == {}
  }

  /** A claim moves its row out of `available` and touches no other. */
  lemma ClaimEffect(c: Config, s: Store, st: Step, id: JobId)
    requires st.event.ClaimJob? && Enabled(c, s, st) && id in s.jobs
    ensures id in Apply(c, s, st).jobs
    ensures Some(id) != st.event.pick ==> Apply(c, s, st).jobs[id] == s.jobs[id]
    ensures Some(id) == st.event.pick ==> Apply(c, s, st).jobs[id].status.Running?
    ensures Some(id) == st.event.pick ==> s.jobs[id].status.Available? && s.jobs[id].queue == st.event.queue
  {
  }

  lemma BacklogIsCandidates(c: Config, s: Store, queue: string, now: nat, at: nat)
    requires Timing.OnTime(c, s, now) && now <= at
    ensures forall id :: id in Backlog(s, queue) <==> Candidate(s, queue, Stamp(c.dialect, at), {}, id)
  {
    Timing.StampMonotone(c.dialect, now, at);
    forall id | id in Backlog(s, queue)
      ensures Candidate(s, queue, Stamp(c.dialect, at), {}, id)
    {
      assert Timing.RowOnTime(c.dialect, s.jobs[id], now);
    }
  }

  function Picked(st: Step): set<JobId>
    requires st.event.ClaimJob?
  {
    if st.event.pick.Some? then {st.event.pick.value} else {}
  }

  lemma ClaimTakesLeast(c: Config, s: Store, st: Step, queue: string, now: nat)
    requires IsClaimOf(st, queue) && Enabled(c, s, st) && !Paused(s, queue)
    requires Timing.OnTime(c, s, now) && now <= st.at
    ensures Backlog(s, queue) == {} <==> st.event.pick == None
    ensures Picked(st) <= Backlog(s, queue)
    ensures forall p, id :: p in Picked(st) && id in Backlog(s, queue) ==> KeyLe(s.jobs[p], p, s.jobs[id], id)
  {
    BacklogIsCandidates(c, s, queue, now, st.at);
  }

  lemma ClaimShrinksBacklog(c: Config, s: Store, st: Step, queue: string)
    requires IsClaimOf(st, queue) && Enabled(c, s, st) && !Paused(s, queue)
    ensures Backlog(Apply(c, s, st), queue) == Backlog(s, queue) - Picked(st)
    ensures forall id :: id in Backlog(Apply(c, s, st), queue) ==> Apply(c, s, st).jobs[id] == s.jobs[id]
    ensures !Paused(Apply(c, s, st), queue)
  {
    forall id | id in s.jobs {
      ClaimEffect(c, s, st, id);
    }
  }

  ghost predicate ClaimsOnly(c: Config, s: Store, steps: seq<Step>, from: nat, queue: string) {
    && Valid(c, s, steps) && Timing.ClockedFrom(steps, from)
    && Timing.OnTime(c, s, from) && !Paused(s, queue)
    && forall i :: 0 <= i < |steps| ==> IsClaimOf(steps[i], queue)
  }

  /** The available rows left after i claims, all as they were at the start. */
  ghost function Left(c: Config, s: Store, steps: seq<Step>, queue: string, i: nat): set<JobId>
    requires i <= |steps|
  {
    Backlog(At(c, s, steps, i), queue)
  }

  lemma {:induction false} DrainSoFar(c: Config, s: Store, steps: seq<Step>, from: nat, queue: string, n: nat)
    requires ClaimsOnly(c, s, steps, from, queue) && n <= |steps|
    ensures !Paused(At(c, s, steps, n), queue)
    ensures Left(c, s, steps, queue, n) <= Backlog(s, queue)
    ensures forall id :: id in Left(c, s, steps, queue, n) ==> At(c, s, steps, n).jobs[id] == s.jobs[id]
    ensures |Left(c, s, steps, queue, n)| == if n <= |Backlog(s, queue)| then |Backlog(s, queue)| - n else 0
  {
    if n > 0 {
      DrainSoFar(c, s, steps, from, queue, n - 1);
      DrainStep(c, s, steps, from, queue, n - 1);
    }
  }

  lemma DrainStep(c: Config, s: Store, steps: seq<Step>, from: nat, queue: string, n: nat)
    requires ClaimsOnly(c, s, steps, from, queue) && n < |steps|
    requires !Paused(At(c, s, steps, n), queue)
    ensures !Paused(At(c, s, steps, n + 1), queue)
    ensures Left(c, s, steps, queue, n) == {} <==> steps[n].event.pick == None
    ensures Picked(steps[n]) <= Left(c, s, steps, queue, n)
    ensures Left(c, s, steps, queue, n + 1) == Left(c, s, steps, queue, n) - Picked(steps[n])
    ensures forall id :: id in Left(c, s, steps, queue, n + 1) ==>
      At(c, s, steps, n + 1).jobs[id] == At(c, s, steps, n).jobs[id]
    ensures forall p, id :: p in Picked(steps[n]) && id in Left(c, s, steps, queue, n) ==>
      KeyLe(At(c, s, steps, n).jobs[p], p, At(c, s, steps, n).jobs[id], id)
  {
    Timing.OnTimeAlways(c, s, steps, from, n);
    assert EnabledAt(c, s, steps, n);
    ClaimTakesLeast(c, At(c, s, steps, n), steps[n], queue, Timing.Now(steps, from, n));
    ClaimShrinksBacklog(c, At(c, s, steps, n), steps[n], queue);
  }

  // Peeling the least element off a set until it is empty.

  ghost predicate Least(jobs: map<JobId, Job>, left: set<JobId>, p: JobId) {
    p in left && forall id :: id in left ==> id in jobs && p in jobs && KeyLe(jobs[p], p, jobs[id], id)
  }

  ghost predicate PeelStep(jobs: map<JobId, Job>, left: set<JobId>, pick: Option<JobId>, left': set<JobId>) {
    match pick
    case None => left == {} && left' == {}
    case Some(p) => Least(jobs, left, p) && left' == left - {p}
  }

  ghost predicate Peels(jobs: map<JobId, Job>, lefts: seq<set<JobId>>, picks: seq<Option<JobId>>) {
    |lefts| == |picks| + 1 && forall i :: 0 <= i < |picks| ==> PeelStep(jobs, lefts[i], picks[i], lefts[i + 1])
  }

  lemma {:induction false} PeelShrinks(jobs: map<JobId, Job>, lefts: seq<set<JobId>>, picks: seq<Option<JobId>>,
                                       i: nat, k: nat)
    requires Peels(jobs, lefts, picks) && i <= k < |lefts|
    ensures lefts[k] <= lefts[i]
    ensures |lefts[k]| == if k - i <= |lefts[i]| then |lefts[i]| - (k - i) else 0
    decreases k - i
  {
    if i < k {
      PeelShrinks(jobs, lefts, picks, i, k - 1);
      assert PeelStep(jobs, lefts[k - 1], picks[k - 1], lefts[k]);
    }
  }

  lemma {:induction false} PeelFinds(jobs: map<JobId, Job>, lefts: seq<set<JobId>>, picks: seq<Option<JobId>>,
                                     id: JobId, n: nat)
    returns (i: nat)
    requires Peels(jobs, lefts, picks) && n < |lefts| && id in lefts[0] && id !in lefts[n]
    ensures i < n && picks[i] == Some(id)
  {
    assert PeelStep(jobs, lefts[n - 1], picks[n - 1], lefts[n]);
    if id in lefts[n - 1] {
      i := n - 1;
    } else {
      i := PeelFinds(jobs, lefts, picks, id, n - 1);
    }
  }

  /** In claim order: the lower priority number first, then the earlier due time, then the older id. */
  predicate ComesBefore(a: Job, aid: JobId, b: Job, bid: JobId) {
    && a.priority <= b.priority
    && (a.priority == b.priority ==> a.scheduledAt <= b.scheduledAt)
    && (a.priority == b.priority && a.scheduledAt == b.scheduledAt ==> aid < bid)
  }

  /** What peeling returns: everything, once, in order, and then nothing. */
  ghost predicate Sorts(jobs: map<JobId, Job>, all: set<JobId>, picks: seq<Option<JobId>>) {
    && (forall i :: 0 <= i < |picks| ==> (picks[i].Some? <==> i < |all|))
    && (forall i :: 0 <= i < |picks| && picks[i].Some? ==> picks[i].value in all)
    && (forall i, k :: 0 <= i < k < |picks| && picks[i].Some? && picks[k].Some? ==>
         var a, b := picks[i].value, picks[k].value;
         a in jobs && b in jobs && ComesBefore(jobs[a], a, jobs[b], b))
    && (|all| <= |picks| ==> forall id :: id in all ==> Some(id) in picks)
  }

  lemma PeelSorts(jobs: map<JobId, Job>, lefts: seq<set<JobId>>, picks: seq<Option<JobId>>)
    requires Peels(jobs, lefts, picks)
    ensures Sorts(jobs, lefts[0], picks)
  {
    forall i | 0 <= i < |picks|
      ensures picks[i].Some? <==> i < |lefts[0]|
      ensures picks[i].Some? ==> picks[i].value in lefts[0]
    {
      assert PeelStep(jobs, lefts[i], picks[i], lefts[i + 1]);
      PeelShrinks(jobs, lefts, picks, 0, i);
    }
    forall i, k | 0 <= i < k < |picks| && picks[i].Some? && picks[k].Some?
      ensures var a, b := picks[i].value, picks[k].value;
        a in jobs && b in jobs && ComesBefore(jobs[a], a, jobs[b], b)
    {
      assert PeelStep(jobs, lefts[i], picks[i], lefts[i + 1]);
      assert PeelStep(jobs, lefts[k], picks[k], lefts[k + 1]);
      PeelShrinks(jobs, lefts, picks, i + 1, k);
    }
    if |lefts[0]| <= |picks| {
      PeelShrinks(jobs, lefts, picks, 0, |picks|);
      forall id | id in lefts[0]
        ensures Some(id) in picks
      {
        var i := PeelFinds(jobs, lefts, picks, id, |picks|);
      }
    }
  }

  lemma DrainPeels(c: Config, s: Store, steps: seq<Step>, from: nat, queue: string, n: nat)
    requires ClaimsOnly(c, s, steps, from, queue) && n < |steps|
    ensures PeelStep(s.jobs, Left(c, s, steps, queue, n), steps[n].event.pick, Left(c, s, steps, queue, n + 1))
  {
    DrainSoFar(c, s, steps, from, queue, n);
    DrainStep(c, s, steps, from, queue, n);
  }

  ghost function Picks(steps: seq<Step>): seq<Option<JobId>>
    requires forall i :: 0 <= i < |steps| ==> steps[i].event.ClaimJob?
  {
    seq(|steps|, i requires 0 <= i < |steps| => steps[i].event.pick)
  }

  /** n claims on an unpaused queue with n available jobs, and nothing else running, return exactly those jobs
      in claim order, each once; every claim after that returns none. */
  lemma DrainReturnsBacklogInOrder(c: Config, s: Store, steps: seq<Step>, from: nat, queue: string)
    requires ClaimsOnly(c, s, steps, from, queue)
    ensures Sorts(s.jobs, Backlog(s, queue), Picks(steps))
  {
    var lefts := seq(|steps| + 1, i requires 0 <= i <= |steps| => Left(c, s, steps, queue, i));
    var picks := Picks(steps);
    forall i | 0 <= i < |picks|
      ensures PeelStep(s.jobs, lefts[i], picks[i], lefts[i + 1])
    {
      DrainPeels(c, s, steps, from, queue, i);
    }
    PeelSorts(s.jobs, lefts, picks);
    assert lefts[0] == Backlog(s, queue);
  }

  // ----- pausing -----

  lemma PausedRowKeepsAttempt(c: Config, s: Store, st: Step, id: JobId)
    requires Enabled(c, s, st) && id in s.jobs && Paused(s, s.jobs[id].queue)
    ensures id in Apply(c, s, st).jobs && Apply(c, s, st).jobs[id].attempt == s.jobs[id].attempt
    ensures Apply(c, s, st).jobs[id].queue == s.jobs[id].queue
  {
    var ch := ChangeFor(c, st, id);
    assert Apply(c, s, st).jobs[id] == RowAfter(c, st, id, s.jobs[id]);
    assert !(ch.Some? && ch.value.Claim?);
  }

  lemma StaysPaused(c: Config, s: Store, st: Step, queue: string)
    requires Paused(s, queue) && st.event != ResumeQueue(queue)
    ensures Paused(Apply(c, s, st), queue)
  {
  }

  lemma {:induction false} PausedThroughout(c: Config, s: Store, steps: seq<Step>, queue: string, p: nat, k: nat)
    requires p < k <= |steps| && steps[p].event == PauseQueue(queue)
    requires forall i :: p < i < k ==> steps[i].event != ResumeQueue(queue)
    ensures Paused(At(c, s, steps, k), queue)
    decreases k
  {
    if p + 1 < k {
      PausedThroughout(c, s, steps, queue, p, k - 1);
      StaysPaused(c, At(c, s, steps, k - 1), steps[k - 1], queue);
    }
  }

  /** Among statements that run one at a time, no job of a queue gains an attempt between PauseQueue and the next
      ResumeQueue.  Concurrent.PausedQueueGainsExactly says what claims in flight add to that. */
  lemma {:induction false} PausedQueueGainsNoAttempt(c: Config, s: Store, steps: seq<Step>, queue: string, p: nat,
                                                     id: JobId, i: nat, k: nat)
    requires p < i <= k <= |steps| && Valid(c, s, steps) && steps[p].event == PauseQueue(queue)
    requires forall r :: p < r < k ==> steps[r].event != ResumeQueue(queue)
    requires id in At(c, s, steps, i).jobs && At(c, s, steps, i).jobs[id].queue == queue
    ensures id in At(c, s, steps, k).jobs && At(c, s, steps, k).jobs[id].queue == queue
    ensures At(c, s, steps, k).jobs[id].attempt == At(c, s, steps, i).jobs[id].attempt
    decreases k
  {
    if i < k {
      PausedQueueGainsNoAttempt(c, s, steps, queue, p, id, i, k - 1);
      PausedThroughout(c, s, steps, queue, p, k - 1);
      assert EnabledAt(c, s, steps, k - 1);
      PausedRowKeepsAttempt(c, At(c, s, steps, k - 1), steps[k - 1], id);
    }
  }
}
