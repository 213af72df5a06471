/**
 Any number of ClaimJob statements in flight on Postgres.

 A claim is two steps: `Lock` evaluates the statement at its NOW() and takes the row lock of the row it selects,
 skipping rows already locked; `Commit` writes the row and releases it, `Abort` only releases it.  Between the two
 any other statement may run, except that a statement whose WHERE clause matches a locked row waits, and the two batch
 statements skip locked rows.  A statement that names a locked row without matching it does not wait: it sees the row
 as it was before the claim, and changes nothing.
 */
module Concurrent {
  import opened Wrappers
  import opened Jobs
  import Claims
  import Lifecycle
  import Timing

  datatype Held = Held(queue: string, worker: string, at: nat)

  /** `locks` maps each locked row to the claim in flight that holds it. */
  datatype System = System(store: Store, locks: map<JobId, Held>)

  datatype SysStep =
    | Lock(queue: string, worker: string, at: nat, pick: Option<JobId>)
    | Commit(id: JobId)
    | Abort(id: JobId)
    | Other(step: Step)

  function ClaimOf(h: Held, id: JobId): Step {
    Step(h.at, ClaimJob(h.queue, h.worker, {}, Some(id)))
  }

  function Next(c: Config, y: System, x: SysStep): System {
    match x
    case Lock(queue, worker, at, pick) =>
      if pick.Some? then y.(locks := y.locks[pick.value := Held(queue, worker, at)]) else y
    case Commit(id) =>
      if id in y.locks then System(Apply(c, y.store, ClaimOf(y.locks[id], id)), y.locks - {id}) else y
    case Abort(id) => y.(locks := y.locks - {id})
    case Other(st) => y.(store := Apply(c, y.store, st))
  }

  /** The statement's WHERE clause matches row id as it is committed. */
  predicate Hits(c: Config, s: Store, st: Step, id: JobId) {
    id in s.jobs && ChangeFor(c, st, id).Some? && Where(s.jobs[id], ChangeFor(c, st, id).value)
  }

  /** Other statements wait for the lock of a row they match; the batches skip locked rows. */
  predicate Unblocked(c: Config, y: System, st: Step) {
    match st.event
    case ClaimJob(_, _, _, _) => false
    case FailExpiredJobs(_, skip, _) => skip == y.locks.Keys
    case PromoteScheduledJobs(_, skip, _) => skip == y.locks.Keys
    case _ => forall id :: id in y.locks ==> !Hits(c, y.store, st, id)
  }

  /** The statement is for one row, and a claim in flight holds it. */
  predicate NamesHeldRow(y: System, st: Step) {
    match st.event
    case CompleteJob(id, _) => id in y.locks
    case FailJob(id, _, _) => id in y.locks
    case HeartbeatJob(id, _) => id in y.locks
    case PromoteJob(id) => id in y.locks
    case CancelJob(id) => id in y.locks
    case _ => false
  }

  ghost predicate SysEnabled(c: Config, y: System, x: SysStep) {
    match x
    case Lock(queue, _, at, pick) => IsPick(y.store, queue, Stamp(c.dialect, at), y.locks.Keys, pick)
    case Commit(id) => id in y.locks
    case Abort(id) => id in y.locks
    case Other(st) => Enabled(c, y.store, st) && Unblocked(c, y, st)
  }

  function SysAt(c: Config, y: System, steps: seq<SysStep>, n: nat): System
    requires n <= |steps|
  {
    if n == 0 then y else Next(c, SysAt(c, y, steps, n - 1), steps[n - 1])
  }

  ghost predicate SysEnabledAt(c: Config, y: System, steps: seq<SysStep>, n: nat)
    requires n < |steps|
  {
    SysEnabled(c, SysAt(c, y, steps, n), steps[n])
  }

  ghost predicate SysValid(c: Config, y: System, steps: seq<SysStep>) {
    y.locks == map[] && forall n: nat :: n < |steps| ==> SysEnabledAt(c, y, steps, n)
  }

  // ----- a held row is left alone -----

  /** The row a claim in flight holds is still the eligible row it selected. */
  ghost predicate HeldRow(c: Config, y: System, id: JobId) {
    id in y.locks ==>
      id in y.store.jobs && Eligible(y.store.jobs[id], y.locks[id].queue, Stamp(c.dialect, y.locks[id].at))
  }

  ghost predicate HeldRows(c: Config, y: System) {
    forall id :: id in y.locks ==> HeldRow(c, y, id)
  }

  lemma OtherLeavesHeldRows(c: Config, y: System, st: Step, id: JobId)
    requires HeldRows(c, y) && SysEnabled(c, y, Other(st)) && id in y.locks
    ensures !NamesHeldRow(y, st) ==> ChangeFor(c, st, id).None?
    ensures id in y.store.jobs && id in Apply(c, y.store, st).jobs
    ensures Apply(c, y.store, st).jobs[id] == y.store.jobs[id]
  {
    assert HeldRow(c, y, id);
  }

  /** A statement that names a row a claim in flight holds runs at once, changes nothing and reports the wrong state
      (or, for a backoff beyond 32 bits, the database error it always reports); only CancelJob waits. */
  lemma NamingHeldRowChangesNothing(c: Config, y: System, st: Step)
    requires HeldRows(c, y) && NamesHeldRow(y, st)
    ensures Unblocked(c, y, st) <==> !st.event.CancelJob?
    ensures !st.event.CancelJob? ==> Apply(c, y.store, st) == y.store
    ensures !st.event.CancelJob? ==>
      Result(c, y.store, st) == if ChangeFor(c, st, st.event.id).None? then ErrDatabase else ErrWrongState
  {
    var row := st.event.id;
    assert HeldRow(c, y, row);
    assert st.event.CancelJob? ==> Hits(c, y.store, st, row);
    if !st.event.CancelJob? {
      assert Apply(c, y.store, st).jobs == y.store.jobs;
    }
  }

  lemma CommitLeavesOthers(c: Config, s: Store, h: Held, row: JobId, id: JobId)
    requires id in s.jobs && id != row
    ensures id in Apply(c, s, ClaimOf(h, row)).jobs
    ensures Apply(c, s, ClaimOf(h, row)).jobs[id] == s.jobs[id]
  {
  }

  lemma StepKeepsHeldRow(c: Config, y: System, x: SysStep, id: JobId)
    requires HeldRows(c, y) && SysEnabled(c, y, x)
    ensures HeldRow(c, Next(c, y, x), id)
    ensures id in y.locks && id in Next(c, y, x).locks ==>
      id in y.store.jobs && id in Next(c, y, x).store.jobs
      && Next(c, y, x).locks[id] == y.locks[id] && Next(c, y, x).store.jobs[id] == y.store.jobs[id]
  {
    assert id in y.locks ==> HeldRow(c, y, id);
    match x
    case Lock(queue, _, at, pick) =>
      assert pick.Some? ==> Candidate(y.store, queue, Stamp(c.dialect, at), y.locks.Keys, pick.value);
    case Commit(row) =>
      if id in y.locks && id != row {
        CommitLeavesOthers(c, y.store, y.locks[row], row, id);
      }
    case Abort(_) =>
    case Other(st) =>
      if id in y.locks {
        OtherLeavesHeldRows(c, y, st, id);
      }
  }

  lemma {:induction false} HeldRowsAlways(c: Config, y: System, steps: seq<SysStep>, n: nat)
    requires SysValid(c, y, steps) && n <= |steps|
    ensures HeldRows(c, SysAt(c, y, steps, n))
  {
    if n > 0 {
      HeldRowsAlways(c, y, steps, n - 1);
      assert SysEnabledAt(c, y, steps, n - 1);
      forall id
        ensures HeldRow(c, SysAt(c, y, steps, n), id)
      {
        StepKeepsHeldRow(c, SysAt(c, y, steps, n - 1), steps[n - 1], id);
      }
    }
  }

  // ----- serialising a run -----

  /** The next Commit or Abort of the lock on row id, from step k on, is a Commit. */
  predicate Commits(steps: seq<SysStep>, k: nat, id: JobId)
    requires k <= |steps|
    decreases |steps| - k
  {
    if k == |steps| then false
    else if steps[k] == Commit(id) then true
    else if steps[k] == Abort(id) then false
    else Commits(steps, k + 1, id)
  }

  /** Locked rows whose claim is not going to happen. */
  function Aborting(y: System, steps: seq<SysStep>, k: nat): set<JobId>
    requires k <= |steps|
  {
    set id | id in y.locks && !Commits(steps, k, id)
  }

  function FinalRow(c: Config, y: System, steps: seq<SysStep>, k: nat, id: JobId, j: Job): Job
    requires k <= |steps|
  {
    if id in y.locks && Commits(steps, k, id) then RowAfter(c, ClaimOf(y.locks[id], id), id, j) else j
  }

  /** The store in which every claim in flight that is going to commit has already happened. */
  function Overlay(c: Config, y: System, steps: seq<SysStep>, k: nat): Store
    requires k <= |steps|
  {
    Store(map id | id in y.store.jobs :: FinalRow(c, y, steps, k, id, y.store.jobs[id]), y.store.queues)
  }

  /** The atomic statement a step stands for: a claim takes effect when it locks its row, unless it will abort.  A
      statement that names a row in flight stands for none. */
  function Serial(c: Config, y: System, steps: seq<SysStep>, k: nat): Option<Step>
    requires k < |steps|
  {
    match steps[k]
    case Lock(queue, worker, at, pick) =>
      if pick.Some? && !Commits(steps, k + 1, pick.value) then None
      else Some(Step(at, ClaimJob(queue, worker, Aborting(y, steps, k), pick)))
    case Other(st) => if NamesHeldRow(y, st) then None else Some(st)
    case _ => None
  }

  /** Step k of the run either leaves the overlay alone or is one enabled atomic statement on it. */
  ghost predicate Simulated(c: Config, y: System, y': System, steps: seq<SysStep>, k: nat)
    requires k < |steps|
  {
    var before, after := Overlay(c, y, steps, k), Overlay(c, y', steps, k + 1);
    match Serial(c, y, steps, k)
    case None => after == before
    case Some(st) => Enabled(c, before, st) && after == Apply(c, before, st)
  }

  /** The aborting claims in flight are all the overlay needs to skip. */
  lemma OverlayCandidates(c: Config, y: System, steps: seq<SysStep>, k: nat, queue: string, now: nat,
                          skip: set<JobId>, id: JobId)
    requires k < |steps| && HeldRows(c, y)
    requires skip == Aborting(y, steps, k)
    ensures Candidate(Overlay(c, y, steps, k), queue, now, skip, id) <==>
      Candidate(y.store, queue, now, y.locks.Keys, id)
    ensures Candidate(y.store, queue, now, y.locks.Keys, id) ==> Overlay(c, y, steps, k).jobs[id] == y.store.jobs[id]
  {
    if id in y.locks {
      assert HeldRow(c, y, id);
    }
  }

  lemma OverlayPick(c: Config, y: System, steps: seq<SysStep>, k: nat, queue: string, now: nat, skip: set<JobId>,
                    pick: Option<JobId>)
    requires k < |steps| && HeldRows(c, y)
    requires skip == Aborting(y, steps, k)
    requires IsPick(y.store, queue, now, y.locks.Keys, pick)
    ensures IsPick(Overlay(c, y, steps, k), queue, now, skip, pick)
  {
    var o := Overlay(c, y, steps, k);
    forall id
      ensures Candidate(o, queue, now, skip, id) <==> Candidate(y.store, queue, now, y.locks.Keys, id)
      ensures Candidate(o, queue, now, skip, id) ==> o.jobs[id] == y.store.jobs[id]
    {
      OverlayCandidates(c, y, steps, k, queue, now, skip, id);
    }
  }

  lemma LockRow(c: Config, y: System, steps: seq<SysStep>, k: nat, id: JobId)
    requires k < |steps| && SysEnabled(c, y, steps[k]) && steps[k].Lock? && id in y.store.jobs
    ensures var before, after := Overlay(c, y, steps, k), Overlay(c, Next(c, y, steps[k]), steps, k + 1);
      after.jobs[id] == match Serial(c, y, steps, k) {
        case None => before.jobs[id]
        case Some(st) => RowAfter(c, st, id, before.jobs[id])
      }
  {
    if steps[k].pick == Some(id) {
      assert Candidate(y.store, steps[k].queue, Stamp(c.dialect, steps[k].at), y.locks.Keys, id);
    }
  }

  lemma LockSimulated(c: Config, y: System, steps: seq<SysStep>, k: nat)
    requires k < |steps| && HeldRows(c, y) && SysEnabled(c, y, steps[k]) && steps[k].Lock?
    ensures Simulated(c, y, Next(c, y, steps[k]), steps, k)
  {
    var Lock(queue, worker, at, pick) := steps[k];
    var skip := Aborting(y, steps, k);
    var before, after := Overlay(c, y, steps, k), Overlay(c, Next(c, y, steps[k]), steps, k + 1);
    OverlayPick(c, y, steps, k, queue, Stamp(c.dialect, at), skip, pick);
    var st := Serial(c, y, steps, k);
    forall id | id in y.store.jobs
      ensures after.jobs[id] ==
        match st { case None => before.jobs[id] case Some(st) => RowAfter(c, st, id, before.jobs[id]) }
    {
      LockRow(c, y, steps, k, id);
    }
    if st.Some? {
      assert after.jobs == JobsAfter(c, before.jobs, st.value);
    } else {
      assert after.jobs == before.jobs;
    }
  }

  lemma CommitSimulated(c: Config, y: System, steps: seq<SysStep>, k: nat)
    requires k < |steps| && HeldRows(c, y) && SysEnabled(c, y, steps[k]) && steps[k].Commit?
    ensures Simulated(c, y, Next(c, y, steps[k]), steps, k)
  {
    var row := steps[k].id;
    var y' := Next(c, y, steps[k]);
    var before, after := Overlay(c, y, steps, k), Overlay(c, y', steps, k + 1);
    forall id | id in y.store.jobs
      ensures id in y'.store.jobs && after.jobs[id] == before.jobs[id]
    {
      if id != row {
        CommitLeavesOthers(c, y.store, y.locks[row], row, id);
      }
    }
    assert after.jobs == before.jobs;
  }

  lemma AbortSimulated(c: Config, y: System, steps: seq<SysStep>, k: nat)
    requires k < |steps| && HeldRows(c, y) && SysEnabled(c, y, steps[k]) && steps[k].Abort?
    ensures Simulated(c, y, Next(c, y, steps[k]), steps, k)
  {
    var y' := Next(c, y, steps[k]);
    assert Overlay(c, y', steps, k + 1).jobs == Overlay(c, y, steps, k).jobs;
  }

  lemma OverlayBatches(c: Config, y: System, steps: seq<SysStep>, k: nat, now: nat)
    requires k < |steps|
    ensures LapsedRows(Overlay(c, y, steps, k).jobs, now) - y.locks.Keys == LapsedRows(y.store.jobs, now) - y.locks.Keys
    ensures DueRows(Overlay(c, y, steps, k).jobs, now) - y.locks.Keys == DueRows(y.store.jobs, now) - y.locks.Keys
  {
    var o := Overlay(c, y, steps, k);
    assert forall id :: id in y.store.jobs && id !in y.locks ==> o.jobs[id] == y.store.jobs[id];
  }

  lemma OtherEnabled(c: Config, y: System, steps: seq<SysStep>, k: nat, st: Step)
    requires k < |steps| && SysEnabled(c, y, Other(st))
    ensures Enabled(c, Overlay(c, y, steps, k), st)
  {
    if st.event.FailExpiredJobs? || st.event.PromoteScheduledJobs? {
      OverlayBatches(c, y, steps, k, Stamp(c.dialect, st.at));
    }
  }

  lemma OtherSimulated(c: Config, y: System, steps: seq<SysStep>, k: nat)
    requires k < |steps| && HeldRows(c, y) && SysEnabled(c, y, steps[k]) && steps[k].Other?
    ensures Simulated(c, y, Next(c, y, steps[k]), steps, k)
  {
    var st := steps[k].step;
    var y' := Next(c, y, steps[k]);
    var before, after := Overlay(c, y, steps, k), Overlay(c, y', steps, k + 1);
    if NamesHeldRow(y, st) {
      NamingHeldRowChangesNothing(c, y, st);
      return;
    }
    OtherEnabled(c, y, steps, k, st);
    forall id | id in after.jobs
      ensures id in Apply(c, before, st).jobs && after.jobs[id] == Apply(c, before, st).jobs[id]
    {
      if id in y.locks {
        OtherLeavesHeldRows(c, y, st, id);
      }
    }
    assert after.jobs == Apply(c, before, st).jobs;
  }

  lemma StepSimulated(c: Config, y: System, steps: seq<SysStep>, k: nat)
    requires SysValid(c, y, steps) && k < |steps|
    ensures Simulated(c, SysAt(c, y, steps, k), SysAt(c, y, steps, k + 1), steps, k)
  {
    HeldRowsAlways(c, y, steps, k);
    assert SysEnabledAt(c, y, steps, k);
    var now := SysAt(c, y, steps, k);
    match steps[k]
    case Lock(_, _, _, _) => LockSimulated(c, now, steps, k);
    case Commit(_) => CommitSimulated(c, now, steps, k);
    case Abort(_) => AbortSimulated(c, now, steps, k);
    case Other(_) => OtherSimulated(c, now, steps, k);
  }

  /** The atomic statements of the first k steps, in order. */
  ghost function History(c: Config, y: System, steps: seq<SysStep>, k: nat): seq<Step>
    requires k <= |steps|
  {
    if k == 0 then [] else
      var last := Serial(c, SysAt(c, y, steps, k - 1), steps, k - 1);
      if last.Some? then History(c, y, steps, k - 1) + [last.value] else History(c, y, steps, k - 1)
  }

  lemma HistoryStep(c: Config, y: System, y': System, s: Store, h: seq<Step>, steps: seq<SysStep>, k: nat)
    requires k < |steps| && Lifecycle.Reaches(c, s, h, Overlay(c, y, steps, k)) && Simulated(c, y, y', steps, k)
    ensures var last := Serial(c, y, steps, k);
      Lifecycle.Reaches(c, s, if last.Some? then h + [last.value] else h, Overlay(c, y', steps, k + 1))
  {
    var last := Serial(c, y, steps, k);
    if last.Some? {
      Lifecycle.AppendStep(c, s, h, last.value);
    }
  }

  lemma {:induction false} HistoryReachesOverlay(c: Config, y: System, steps: seq<SysStep>, k: nat)
    requires SysValid(c, y, steps) && k <= |steps|
    ensures Lifecycle.Reaches(c, y.store, History(c, y, steps, k), Overlay(c, SysAt(c, y, steps, k), steps, k))
  {
    if k == 0 {
      assert Overlay(c, y, steps, 0).jobs == y.store.jobs;
    } else {
      HistoryReachesOverlay(c, y, steps, k - 1);
      StepSimulated(c, y, steps, k - 1);
      var before, after := SysAt(c, y, steps, k - 1), SysAt(c, y, steps, k);
      HistoryStep(c, before, after, y.store, History(c, y, steps, k - 1), steps, k - 1);
    }
  }

  /** Every concurrent run ends in the store that its statements reach run one at a time, each claim in the order
      it locked its row; aborted claims are left out, and so are statements that named a row in flight. */
  lemma ConcurrentRunSerialises(c: Config, y: System, steps: seq<SysStep>)
    requires SysValid(c, y, steps)
    ensures Valid(c, y.store, History(c, y, steps, |steps|))
    ensures At(c, y.store, History(c, y, steps, |steps|), |History(c, y, steps, |steps|)|) ==
      SysAt(c, y, steps, |steps|).store
  {
    HistoryReachesOverlay(c, y, steps, |steps|);
    var last := SysAt(c, y, steps, |steps|);
    assert Overlay(c, last, steps, |steps|).jobs == last.store.jobs;
  }

  // ----- deliveries -----

  lemma {:induction false} HeldUntil(c: Config, y: System, steps: seq<SysStep>, id: JobId, i: nat, k: nat)
    requires SysValid(c, y, steps) && i <= k <= |steps|
    requires forall n :: i <= n <= k ==> id in SysAt(c, y, steps, n).locks
    ensures SysAt(c, y, steps, k).locks[id] == SysAt(c, y, steps, i).locks[id]
    ensures id in SysAt(c, y, steps, i).store.jobs && id in SysAt(c, y, steps, k).store.jobs
    ensures SysAt(c, y, steps, k).store.jobs[id] == SysAt(c, y, steps, i).store.jobs[id]
    decreases k
  {
    HeldRowsAlways(c, y, steps, i);
    assert HeldRow(c, SysAt(c, y, steps, i), id);
    if i < k {
      HeldUntil(c, y, steps, id, i, k - 1);
      HeldRowsAlways(c, y, steps, k - 1);
      assert SysEnabledAt(c, y, steps, k - 1);
      StepKeepsHeldRow(c, SysAt(c, y, steps, k - 1), steps[k - 1], id);
    }
  }

  lemma StepExtendsStore(c: Config, y: System, x: SysStep)
    ensures Lifecycle.Extends(y.store, Next(c, y, x).store)
  {
    match x
    case Commit(id) =>
      if id in y.locks {
        Lifecycle.StepExtends(c, y.store, ClaimOf(y.locks[id], id));
      }
    case Other(st) => Lifecycle.StepExtends(c, y.store, st);
    case _ =>
  }

  lemma {:induction false} SysRunExtends(c: Config, y: System, steps: seq<SysStep>, i: nat, k: nat)
    requires i <= k <= |steps|
    ensures Lifecycle.Extends(SysAt(c, y, steps, i).store, SysAt(c, y, steps, k).store)
    decreases k
  {
    if i < k {
      SysRunExtends(c, y, steps, i, k - 1);
      StepExtendsStore(c, SysAt(c, y, steps, k - 1), steps[k - 1]);
      var last := SysAt(c, y, steps, k - 1).store;
      Lifecycle.ExtendsTransitive(SysAt(c, y, steps, i).store, last, SysAt(c, y, steps, k).store);
    }
  }

  /** The row a committing claim returns. */
  ghost function Delivered(c: Config, y: System, steps: seq<SysStep>, k: nat): Job
    requires SysValid(c, y, steps) && k < |steps| && steps[k].Commit?
  {
    HeldRowsAlways(c, y, steps, k);
    assert SysEnabledAt(c, y, steps, k);
    assert HeldRow(c, SysAt(c, y, steps, k), steps[k].id);
    SysAt(c, y, steps, k + 1).store.jobs[steps[k].id]
  }

  /** A committed claim starts exactly one new attempt of an available row of its own queue. */
  lemma CommitStartsAttempt(c: Config, y: System, steps: seq<SysStep>, k: nat)
    requires SysValid(c, y, steps) && k < |steps| && steps[k].Commit?
    ensures var id, now := steps[k].id, SysAt(c, y, steps, k);
      && id in now.locks && id in now.store.jobs
      && now.store.jobs[id].status.Available? && now.store.jobs[id].queue == now.locks[id].queue
      && Delivered(c, y, steps, k).status.Running?
      && Delivered(c, y, steps, k).attempt == now.store.jobs[id].attempt + 1
      && Delivered(c, y, steps, k).attemptedBy == now.store.jobs[id].attemptedBy + [now.locks[id].worker]
  {
    HeldRowsAlways(c, y, steps, k);
    assert SysEnabledAt(c, y, steps, k);
    assert HeldRow(c, SysAt(c, y, steps, k), steps[k].id);
  }

  /** No attempt of a job is ever delivered to two claims. */
  lemma AttemptDeliveredOnce(c: Config, y: System, steps: seq<SysStep>, i: nat, k: nat)
    requires SysValid(c, y, steps) && i < k < |steps| && steps[i].Commit? && steps[k].Commit?
    requires steps[i].id == steps[k].id
    ensures Delivered(c, y, steps, i).attempt < Delivered(c, y, steps, k).attempt
  {
    CommitStartsAttempt(c, y, steps, i);
    CommitStartsAttempt(c, y, steps, k);
    SysRunExtends(c, y, steps, i + 1, k);
  }

  lemma {:induction false} HeldCommits(c: Config, y: System, steps: seq<SysStep>, id: JobId, i: nat, k: nat)
    requires i <= k < |steps| && steps[k] == Commit(id)
    requires forall n :: i <= n <= k ==> id in SysAt(c, y, steps, n).locks
    ensures Commits(steps, i, id)
    decreases k - i
  {
    if i < k {
      assert id in SysAt(c, y, steps, i + 1).locks;
      HeldCommits(c, y, steps, id, i + 1, k);
    }
  }

  /** The row a claim returns when it commits is the row its atomic statement returns in the serial history. */
  lemma DeliveredAsSerialised(c: Config, y: System, steps: seq<SysStep>, i: nat, k: nat)
    requires SysValid(c, y, steps) && i < k < |steps| && steps[k].Commit?
    requires steps[i].Lock? && steps[i].pick == Some(steps[k].id)
    requires forall n :: i < n <= k ==> steps[k].id in SysAt(c, y, steps, n).locks
    ensures var h := History(c, y, steps, i + 1);
      && |h| > 0 && h[|h| - 1].event.ClaimJob? && h[|h| - 1].event.pick == steps[i].pick
      && h[|h| - 1].event.queue == steps[i].queue && h[|h| - 1].at == steps[i].at
      && steps[k].id in At(c, y.store, h, |h|).jobs
      && At(c, y.store, h, |h|).jobs[steps[k].id] == Delivered(c, y, steps, k)
  {
    var id := steps[k].id;
    HeldCommits(c, y, steps, id, i + 1, k);
    HeldUntil(c, y, steps, id, i + 1, k);
    CommitStartsAttempt(c, y, steps, k);
    HistoryReachesOverlay(c, y, steps, i + 1);
  }

  lemma OverlayOutcome(c: Config, y: System, steps: seq<SysStep>, k: nat, st: Step, id: JobId)
    requires k < |steps| && id !in y.locks
    ensures RowOutcome(c, Overlay(c, y, steps, k), st, id) == RowOutcome(c, y.store, st, id)
  {
  }

  /** Every other statement returns what it returns in the serial history, unless it named a row in flight (see
      NamingHeldRowChangesNothing). */
  lemma ResultAsSerialised(c: Config, y: System, steps: seq<SysStep>, k: nat)
    requires SysValid(c, y, steps) && k < |steps| && steps[k].Other?
      && !NamesHeldRow(SysAt(c, y, steps, k), steps[k].step)
    ensures var h := History(c, y, steps, k + 1);
      && |h| > 0 && h[|h| - 1] == steps[k].step
      && Result(c, SysAt(c, y, steps, k).store, steps[k].step) == Result(c, At(c, y.store, h, |h| - 1), h[|h| - 1])
  {
    var st, before, now := steps[k].step, History(c, y, steps, k), SysAt(c, y, steps, k);
    HistoryReachesOverlay(c, y, steps, k);
    Lifecycle.AtPrefix(c, y.store, before, st, |before|);
    assert SysEnabledAt(c, y, steps, k);
    if st.event.CompleteJob? || st.event.FailJob? || st.event.HeartbeatJob? || st.event.PromoteJob?
      || st.event.CancelJob? {
      OverlayOutcome(c, now, steps, k, st, st.event.id);
    }
  }

  // ----- pausing -----

  predicate IsResume(x: SysStep, queue: string) {
    x.Other? && x.step.event == ResumeQueue(queue)
  }

  /** Step p pauses the queue and no step before k resumes it. */
  ghost predicate PausedFrom(steps: seq<SysStep>, queue: string, p: nat, k: nat) {
    && p < k <= |steps| && steps[p].Other? && steps[p].step.event == PauseQueue(queue)
    && forall r :: p < r < k ==> !IsResume(steps[r], queue)
  }

  lemma StepKeepsPause(c: Config, y: System, x: SysStep, queue: string)
    requires Paused(y.store, queue) && !IsResume(x, queue)
    ensures Paused(Next(c, y, x).store, queue)
  {
  }

  lemma {:induction false} StaysPaused(c: Config, y: System, steps: seq<SysStep>, queue: string, p: nat, k: nat)
    requires PausedFrom(steps, queue, p, k)
    ensures Paused(SysAt(c, y, steps, k).store, queue)
    decreases k
  {
    if p + 1 < k {
      StaysPaused(c, y, steps, queue, p, k - 1);
      StepKeepsPause(c, SysAt(c, y, steps, k - 1), steps[k - 1], queue);
    }
  }

  lemma OnlyClaimsStartAttempts(c: Config, st: Step, id: JobId, j: Job)
    requires !st.event.ClaimJob?
    ensures RowAfter(c, st, id, j).attempt == j.attempt && RowAfter(c, st, id, j).queue == j.queue
  {
  }

  /** On a paused queue a step gives a row a new attempt exactly when it commits the claim that holds it. */
  lemma PausedStep(c: Config, y: System, x: SysStep, queue: string, id: JobId)
    requires HeldRows(c, y) && SysEnabled(c, y, x) && Paused(y.store, queue)
    requires id in y.store.jobs && y.store.jobs[id].queue == queue
    ensures id in Next(c, y, x).store.jobs && Next(c, y, x).store.jobs[id].queue == queue
    ensures Next(c, y, x).store.jobs[id].attempt == y.store.jobs[id].attempt + if x == Commit(id) then 1 else 0
    ensures x == Commit(id) ==> id in y.locks
    ensures id in Next(c, y, x).locks ==> id in y.locks && x != Commit(id)
  {
    match x
    case Lock(other, _, at, pick) =>
      assert pick.Some? ==> Candidate(y.store, other, Stamp(c.dialect, at), y.locks.Keys, pick.value);
    case Commit(row) =>
      assert HeldRow(c, y, row);
      if id != row {
        CommitLeavesOthers(c, y.store, y.locks[row], row, id);
      }
    case Abort(_) =>
    case Other(st) =>
      OnlyClaimsStartAttempts(c, st, id, y.store.jobs[id]);
      assert Next(c, y, x).store.jobs[id] == RowAfter(c, st, id, y.store.jobs[id]);
  }

  predicate CommitsBetween(steps: seq<SysStep>, id: JobId, i: nat, k: nat)
    requires k <= |steps|
  {
    exists n :: i <= n < k && steps[n] == Commit(id)
  }

  /** Between a pause and the next resume a job of the queue gains an attempt exactly when a claim in flight on it
      commits, and then only one. */
  lemma {:induction false} PausedQueueGains(c: Config, y: System, steps: seq<SysStep>, queue: string, p: nat,
                                            id: JobId, i: nat, k: nat)
    requires SysValid(c, y, steps) && p < i <= k && PausedFrom(steps, queue, p, k)
    requires id in SysAt(c, y, steps, i).store.jobs && SysAt(c, y, steps, i).store.jobs[id].queue == queue
    ensures id in SysAt(c, y, steps, k).store.jobs && SysAt(c, y, steps, k).store.jobs[id].queue == queue
    ensures SysAt(c, y, steps, k).store.jobs[id].attempt
         == SysAt(c, y, steps, i).store.jobs[id].attempt + if CommitsBetween(steps, id, i, k) then 1 else 0
    ensures CommitsBetween(steps, id, i, k) ==> id in SysAt(c, y, steps, i).locks
    ensures id in SysAt(c, y, steps, k).locks ==> id in SysAt(c, y, steps, i).locks && !CommitsBetween(steps, id, i, k)
    decreases k
  {
    if i < k {
      PausedQueueGains(c, y, steps, queue, p, id, i, k - 1);
      StaysPaused(c, y, steps, queue, p, k - 1);
      HeldRowsAlways(c, y, steps, k - 1);
      assert SysEnabledAt(c, y, steps, k - 1);
      PausedStep(c, SysAt(c, y, steps, k - 1), steps[k - 1], queue, id);
      assert CommitsBetween(steps, id, i, k) <==> CommitsBetween(steps, id, i, k - 1) || steps[k - 1] == Commit(id);
    }
  }

  /** A claim in flight holds this row of the queue. */
  predicate Holds(y: System, queue: string, id: JobId) {
    id in y.locks && id in y.store.jobs && y.store.jobs[id].queue == queue
  }

  lemma LockPredatesStep(c: Config, y: System, x: SysStep, queue: string, id: JobId)
    requires HeldRows(c, y) && SysEnabled(c, y, x) && Paused(y.store, queue)
    requires Holds(Next(c, y, x), queue, id)
    ensures Holds(y, queue, id) && y.locks[id] == Next(c, y, x).locks[id]
  {
    assert id in y.locks ==> HeldRow(c, y, id);
    assert x.Lock? && x.pick.Some? ==> Candidate(y.store, x.queue, Stamp(c.dialect, x.at), y.locks.Keys, x.pick.value);
    StepExtendsStore(c, y, x);
    assert id in y.store.jobs ==> Lifecycle.Evolves(y.store.jobs[id], Next(c, y, x).store.jobs[id]);
  }

  lemma HeldBefore(c: Config, y: System, steps: seq<SysStep>, queue: string, p: nat, id: JobId, i: nat)
    requires SysValid(c, y, steps) && i < |steps| && PausedFrom(steps, queue, p, i)
    requires Holds(SysAt(c, y, steps, i + 1), queue, id)
    ensures Holds(SysAt(c, y, steps, i), queue, id)
    ensures SysAt(c, y, steps, i).locks[id] == SysAt(c, y, steps, i + 1).locks[id]
  {
    StaysPaused(c, y, steps, queue, p, i);
    HeldRowsAlways(c, y, steps, i);
    assert SysEnabledAt(c, y, steps, i);
    LockPredatesStep(c, SysAt(c, y, steps, i), steps[i], queue, id);
  }

  /** A claim in flight on a paused queue locked its row before the pause. */
  lemma {:induction false} LockedBeforePause(c: Config, y: System, steps: seq<SysStep>, queue: string, p: nat,
                                             id: JobId, i: nat)
    requires SysValid(c, y, steps) && PausedFrom(steps, queue, p, i)
    requires Holds(SysAt(c, y, steps, i), queue, id)
    ensures id in SysAt(c, y, steps, p).locks && SysAt(c, y, steps, p).locks[id] == SysAt(c, y, steps, i).locks[id]
    decreases i
  {
    if p + 1 < i {
      HeldBefore(c, y, steps, queue, p, id, i - 1);
      LockedBeforePause(c, y, steps, queue, p, id, i - 1);
    } else {
      assert SysAt(c, y, steps, i) == Next(c, SysAt(c, y, steps, p), steps[p]);
    }
  }

  /** However many claims run at once: between a pause and the next resume a job of the queue gains at most one
      attempt, and gains it exactly when a claim that locked the job before the pause commits after it. */
  lemma PausedQueueGainsExactly(c: Config, y: System, steps: seq<SysStep>, queue: string, p: nat, id: JobId, i: nat,
                                k: nat)
    requires SysValid(c, y, steps) && p < i <= k && PausedFrom(steps, queue, p, k)
    requires id in SysAt(c, y, steps, i).store.jobs && SysAt(c, y, steps, i).store.jobs[id].queue == queue
    ensures id in SysAt(c, y, steps, k).store.jobs
    ensures SysAt(c, y, steps, k).store.jobs[id].attempt - SysAt(c, y, steps, i).store.jobs[id].attempt
         == if id in SysAt(c, y, steps, p).locks && CommitsBetween(steps, id, i, k) then 1 else 0
  {
    PausedQueueGains(c, y, steps, queue, p, id, i, k);
    if CommitsBetween(steps, id, i, k) {
      LockedBeforePause(c, y, steps, queue, p, id, i);
    }
  }

  /** The queue is paused while a claim is in flight. */
  function PauseInFlight(queue: string, worker: string, at: nat, id: JobId, pausedAt: nat): seq<SysStep> {
    [Lock(queue, worker, at, Some(id)), Other(Step(pausedAt, PauseQueue(queue))), Commit(id)]
  }

  /** Whatever row a claim can lock, it still starts an attempt of it when the queue is paused before it commits. */
  lemma PauseMissesClaimInFlight(c: Config, s: Store, queue: string, worker: string, at: nat, id: JobId, pausedAt: nat)
    requires IsPick(s, queue, Stamp(c.dialect, at), {}, Some(id))
    ensures var y, steps := System(s, map[]), PauseInFlight(queue, worker, at, id, pausedAt);
      && SysValid(c, y, steps) && PausedFrom(steps, queue, 1, 3)
      && Paused(SysAt(c, y, steps, 2).store, queue) && Paused(SysAt(c, y, steps, 3).store, queue)
      && id in SysAt(c, y, steps, 3).store.jobs
      && SysAt(c, y, steps, 3).store.jobs[id].attempt == s.jobs[id].attempt + 1
  {
    var y, steps := System(s, map[]), PauseInFlight(queue, worker, at, id, pausedAt);
    var locked, paused := SysAt(c, y, steps, 1), SysAt(c, y, steps, 2);
    assert SysAt(c, y, steps, 0) == y;
    assert locked == Next(c, y, steps[0]);
    assert paused == Next(c, locked, steps[1]);
    assert SysAt(c, y, steps, 3) == Next(c, paused, steps[2]);
    PausedBeforeCommit(c, s, queue, worker, at, id, pausedAt);
    assert SysEnabledAt(c, y, steps, 0);
    assert SysEnabledAt(c, y, steps, 1);
    assert SysEnabledAt(c, y, steps, 2);
  }

  lemma PausedBeforeCommit(c: Config, s: Store, queue: string, worker: string, at: nat, id: JobId, pausedAt: nat)
    requires IsPick(s, queue, Stamp(c.dialect, at), {}, Some(id))
    ensures var y := System(s, map[]);
      var locked := Next(c, y, Lock(queue, worker, at, Some(id)));
      var paused := Next(c, locked, Other(Step(pausedAt, PauseQueue(queue))));
      var committed := Next(c, paused, Commit(id));
      && SysEnabled(c, y, Lock(queue, worker, at, Some(id)))
      && SysEnabled(c, locked, Other(Step(pausedAt, PauseQueue(queue)))) && Paused(paused.store, queue)
      && SysEnabled(c, paused, Commit(id)) && Paused(committed.store, queue)
      && id in s.jobs && id in committed.store.jobs && committed.store.jobs[id].attempt == s.jobs[id].attempt + 1
  {
    assert Candidate(s, queue, Stamp(c.dialect, at), {}, id);
  }

  // ----- which row a claim locks -----

  /** The row a claim locks is available, due, unlocked and in its queue, and comes first among all such rows: by
      priority, then by due time, then by id; and the queue is not paused. */
  lemma LockTakesFirst(c: Config, y: System, queue: string, worker: string, at: nat, p: JobId, id: JobId)
    requires SysEnabled(c, y, Lock(queue, worker, at, Some(p)))
    ensures var now, jobs := if c.dialect.Postgres? then at else at / 1000, y.store.jobs;
      && p in jobs && p !in y.locks && jobs[p].queue == queue && jobs[p].status == Available
        && jobs[p].scheduledAt <= now
      && (queue in y.store.queues ==> y.store.queues[queue].pausedAt == None)
      && (id in jobs && id !in y.locks && jobs[id].queue == queue && jobs[id].status == Available
          && jobs[id].scheduledAt <= now ==>
            && jobs[p].priority <= jobs[id].priority
            && (jobs[p].priority == jobs[id].priority ==> jobs[p].scheduledAt <= jobs[id].scheduledAt)
            && (jobs[p].priority == jobs[id].priority && jobs[p].scheduledAt == jobs[id].scheduledAt ==> p <= id))
  {
    Claims.ClaimTakesFirst(c, y.store, Step(at, ClaimJob(queue, worker, y.locks.Keys, Some(p))), p, id);
  }

  /** A claim that locks nothing finds its queue paused or every waiting row locked. */
  lemma LockFindsNothing(c: Config, y: System, queue: string, worker: string, at: nat, id: JobId)
    requires SysEnabled(c, y, Lock(queue, worker, at, None))
    requires queue in y.store.queues ==> y.store.queues[queue].pausedAt == None
    requires id in y.store.jobs && y.store.jobs[id].queue == queue && y.store.jobs[id].status == Available
    requires y.store.jobs[id].scheduledAt <= if c.dialect.Postgres? then at else at / 1000
    ensures id in y.locks
  {
    var st := Step(at, ClaimJob(queue, worker, y.locks.Keys, None));
    Claims.ClaimFindsNothing(c, y.store, st);
    assert id !in y.locks ==> Claims.Waiting(c, y.store, st, id);
  }

  // ----- what holds of runs one at a time also holds of concurrent ones -----

  lemma StepKeepsLedger(c: Config, y: System, x: SysStep)
    requires Lifecycle.Balanced(y.store)
    ensures Lifecycle.Balanced(Next(c, y, x).store)
  {
    if x.Other? {
      Lifecycle.StepKeepsLedger(c, y.store, x.step);
    } else if x.Commit? && x.id in y.locks {
      Lifecycle.StepKeepsLedger(c, y.store, ClaimOf(y.locks[x.id], x.id));
    }
  }

  /** The ledger, in every state. */
  lemma {:induction false} LedgerUnderConcurrency(c: Config, y: System, steps: seq<SysStep>, k: nat)
    requires k <= |steps| && Lifecycle.Balanced(y.store)
    ensures Lifecycle.Balanced(SysAt(c, y, steps, k).store)
  {
    if k > 0 {
      LedgerUnderConcurrency(c, y, steps, k - 1);
      StepKeepsLedger(c, SysAt(c, y, steps, k - 1), steps[k - 1]);
    }
  }

  lemma StepSpendsBudget(c: Config, y: System, x: SysStep, id: JobId)
    requires id in y.store.jobs && Lifecycle.Ledger(y.store.jobs[id])
    ensures id in Next(c, y, x).store.jobs && Lifecycle.Ledger(Next(c, y, x).store.jobs[id])
    ensures var before, after := y.store.jobs[id], Next(c, y, x).store.jobs[id];
      Lifecycle.Budget(after) + (if after.status != before.status then 1 else 0) <= Lifecycle.Budget(before)
  {
    if x.Other? {
      Lifecycle.StepSpendsBudget(c, y.store, x.step, Next(c, y, x).store, id);
    } else if x.Commit? && x.id in y.locks {
      Lifecycle.StepSpendsBudget(c, y.store, ClaimOf(y.locks[x.id], x.id), Next(c, y, x).store, id);
    }
  }

  /** How many of the steps i..k change the status of row id. */
  function StatusChanges(c: Config, y: System, steps: seq<SysStep>, id: JobId, i: nat, k: nat): nat
    requires i <= k <= |steps|
    requires id in SysAt(c, y, steps, i).store.jobs
    decreases k - i
  {
    if i == k then 0 else
      SysRunExtends(c, y, steps, i, k - 1);
      SysRunExtends(c, y, steps, i, k);
      var before, after := SysAt(c, y, steps, k - 1).store.jobs[id], SysAt(c, y, steps, k).store.jobs[id];
      StatusChanges(c, y, steps, id, i, k - 1) + if after.status != before.status then 1 else 0
  }

  lemma {:induction false} ChangesWithinBudget(c: Config, y: System, steps: seq<SysStep>, id: JobId, i: nat, k: nat)
    requires i <= k <= |steps| && id in SysAt(c, y, steps, i).store.jobs
    requires Lifecycle.Ledger(SysAt(c, y, steps, i).store.jobs[id])
    ensures id in SysAt(c, y, steps, k).store.jobs && Lifecycle.Ledger(SysAt(c, y, steps, k).store.jobs[id])
    ensures StatusChanges(c, y, steps, id, i, k) + Lifecycle.Budget(SysAt(c, y, steps, k).store.jobs[id])
         <= Lifecycle.Budget(SysAt(c, y, steps, i).store.jobs[id])
    decreases k - i
  {
    if i < k {
      ChangesWithinBudget(c, y, steps, id, i, k - 1);
      StepSpendsBudget(c, SysAt(c, y, steps, k - 1), steps[k - 1], id);
    }
  }

  /** However many claims run at once, the status of a job changes at most 3 * max_attempts + 1 times. */
  lemma StatusChangesBounded(c: Config, y: System, steps: seq<SysStep>, id: JobId, i: nat, k: nat)
    requires i <= k <= |steps| && Lifecycle.Balanced(y.store) && id in SysAt(c, y, steps, i).store.jobs
    ensures StatusChanges(c, y, steps, id, i, k) <= 3 * SysAt(c, y, steps, i).store.jobs[id].maxAttempts + 1
  {
    LedgerUnderConcurrency(c, y, steps, i);
    ChangesWithinBudget(c, y, steps, id, i, k);
  }

  /** The latest clock reading, `from` before any; a claim reads the clock when it locks its row. */
  function SysNow(steps: seq<SysStep>, from: nat, n: nat): nat
    requires n <= |steps|
  {
    if n == 0 then from
    else match steps[n - 1]
      case Lock(_, _, at, _) => at
      case Other(st) => st.at
      case _ => SysNow(steps, from, n - 1)
  }

  /** The clock starts at `from` and never runs backwards. */
  ghost predicate SysClocked(steps: seq<SysStep>, from: nat) {
    forall n: nat :: n < |steps| ==> Ticks(steps, from, n)
  }

  ghost predicate Ticks(steps: seq<SysStep>, from: nat, n: nat)
    requires n < |steps|
  {
    SysNow(steps, from, n) <= SysNow(steps, from, n + 1)
  }

  lemma StepKeepsOnTime(c: Config, y: System, x: SysStep, now: nat, later: nat)
    requires HeldRows(c, y) && SysEnabled(c, y, x) && Timing.OnTime(c, y.store, now) && now <= later
    requires x.Other? ==> x.step.at == later
    ensures Timing.OnTime(c, Next(c, y, x).store, later)
  {
    if x.Other? {
      Timing.StepKeepsOnTime(c, y.store, x.step, now);
    } else {
      forall id | id in Next(c, y, x).store.jobs
        ensures Timing.RowOnTime(c.dialect, Next(c, y, x).store.jobs[id], later)
      {
        assert Timing.RowOnTime(c.dialect, y.store.jobs[id], now);
        assert HeldRow(c, y, id);
        Timing.StampMonotone(c.dialect, now, later);
        if x.Commit? && x.id != id {
          CommitLeavesOthers(c, y.store, y.locks[x.id], x.id, id);
        }
      }
    }
  }

  /** However many claims run at once, available and running rows are always due. */
  lemma {:induction false} OnTimeUnderConcurrency(c: Config, y: System, steps: seq<SysStep>, from: nat, k: nat)
    requires k <= |steps| && SysValid(c, y, steps) && SysClocked(steps, from) && Timing.OnTime(c, y.store, from)
    ensures Timing.OnTime(c, SysAt(c, y, steps, k).store, SysNow(steps, from, k))
  {
    if k > 0 {
      OnTimeUnderConcurrency(c, y, steps, from, k - 1);
      HeldRowsAlways(c, y, steps, k - 1);
      assert SysEnabledAt(c, y, steps, k - 1) && Ticks(steps, from, k - 1);
      StepKeepsOnTime(c, SysAt(c, y, steps, k - 1), steps[k - 1], SysNow(steps, from, k - 1), SysNow(steps, from, k));
    }
  }

  lemma {:induction false} HistoryClocked(c: Config, y: System, steps: seq<SysStep>, from: nat, k: nat)
    requires k <= |steps| && SysClocked(steps, from)
    ensures var h := History(c, y, steps, k);
      Clocked(h) && forall i :: 0 <= i < |h| ==> h[i].at <= SysNow(steps, from, k)
  {
    if k > 0 {
      HistoryClocked(c, y, steps, from, k - 1);
      assert Ticks(steps, from, k - 1);
    }
  }

  lemma {:induction false} HistoryGrows(c: Config, y: System, steps: seq<SysStep>, i: nat, k: nat)
    requires i <= k <= |steps|
    ensures History(c, y, steps, i) <= History(c, y, steps, k)
    decreases k
  {
    if i < k {
      HistoryGrows(c, y, steps, i, k - 1);
    }
  }

  /** However many claims run at once, a job whose claims and heartbeats, in the serial history, are spaced at most the
      lease apart is never failed by expiry. */
  lemma BeatingJobNeverReaped(c: Config, y: System, steps: seq<SysStep>, from: nat, id: JobId, k: nat)
    requires k < |steps| && SysValid(c, y, steps) && SysClocked(steps, from) && Timing.NothingRuns(y.store)
    requires Timing.KeepsBeating(c, y.store, History(c, y, steps, |steps|), id)
    requires steps[k].Other? && steps[k].step.event.FailExpiredJobs?
    ensures id !in steps[k].step.event.batch
  {
    var h := History(c, y, steps, |steps|);
    HistoryReachesOverlay(c, y, steps, |steps|);
    HistoryClocked(c, y, steps, from, |steps|);
    HistoryGrows(c, y, steps, k + 1, |steps|);
    var n := |History(c, y, steps, k)|;
    assert History(c, y, steps, k + 1) == History(c, y, steps, k) + [steps[k].step];
    assert h[n] == steps[k].step;
    Timing.BeatingJobNeverReaped(c, y.store, h, id, n);
  }
}
