/** The scheduler loop: each tick promotes a bounded batch of due jobs, then fails a bounded batch of expired ones. */
module Scheduler {
  import opened Wrappers
  import opened Jobs
  import Listing
  import PGDriver
  import SQLiteDriver
  import Selection

  const BATCH: nat := 1000

  function Min(a: nat, b: nat): nat {
    if a < b then a else b
  }

  function Max(a: nat, b: nat): nat {
    if a < b then b else a
  }

  /** Batches of at most `limit` needed for x rows: x / limit, rounded up. */
  function CeilDiv(x: nat, limit: nat): (n: nat)
    requires limit > 0
    ensures n == (x + limit - 1) / limit
  {
    if x == 0 then
      assert (limit - 1) / limit == 0;
      0
    else if x <= limit then
      OneBatch(x, limit);
      1 + CeilDiv(0, limit)
    else
      OneBatchFewer(x, limit);
      1 + CeilDiv(x - limit, limit)
  }

  lemma OneBatch(x: nat, limit: nat)
    requires 0 < x <= limit
    ensures (x + limit - 1) / limit == 1
  {
    OneBatchFewer(x + limit, limit);
    assert (x - 1) / limit == 0;
  }

  lemma OneBatchFewer(x: nat, limit: nat)
    requires 0 < limit <= x
    ensures (x + limit - 1) / limit == 1 + (x - 1) / limit
  {
    var q, r := (x - 1) / limit, (x - 1) % limit;
    assert x - 1 == q * limit + r;
    assert (q + 1) * limit == q * limit + limit;
    QuotientUnique(x + limit - 1, q + 1, r, limit);
  }

  lemma QuotientUnique(x: nat, q: nat, r: nat, limit: nat)
    requires r < limit && x == q * limit + r
    ensures x / limit == q
  {
    var p := x / limit;
    assert x == p * limit + x % limit;
    TimesMonotone(p + 1, q, limit);
    TimesMonotone(q + 1, p, limit);
  }

  lemma TimesMonotone(a: nat, b: nat, limit: nat)
    ensures a <= b ==> a * limit <= b * limit
  {
  }

  lemma {:induction false} CeilDivMonotone(x: nat, y: nat, limit: nat)
    requires x <= y && limit > 0
    ensures CeilDiv(x, limit) <= CeilDiv(y, limit)
  {
    if x > 0 {
      CeilDivMonotone(x - Min(x, limit), y - Min(y, limit), limit);
    }
  }

  /** Ticks enough for `due` due and `expired` expired jobs: a reaped job may still have to be promoted. */
  function TicksNeeded(due: nat, expired: nat, limit: nat): (n: nat)
    requires limit > 0
    ensures n <= CeilDiv(expired, limit) + Max(CeilDiv(due, limit), 1)
    ensures n == 0 <==> due == 0 && expired == 0
  {
    if expired == 0 then CeilDiv(due, limit)
    else CeilDiv(expired, limit) + if due <= limit then 1 else CeilDiv(due, limit)
  }

  lemma OneTickFewer(due: nat, expired: nat, due': nat, limit: nat)
    requires limit > 0
    requires due' <= due - Min(due, limit) + Min(expired, limit)
    ensures var left := TicksNeeded(due', expired - Min(expired, limit), limit);
      left == 0 || left + 1 <= TicksNeeded(due, expired, limit)
    ensures TicksNeeded(due, expired, limit) == 0 <==> due == 0 && expired == 0
  {
    if expired == 0 {
      CeilDivMonotone(due', due - Min(due, limit), limit);
    } else if due <= limit {
      CeilDivMonotone(due', limit, limit);
      assert CeilDiv(limit, limit) == 1;
    } else {
      CeilDivMonotone(due', due, limit);
      assert CeilDiv(due, limit) >= 1;
    }
  }

  // ----- one tick -----

  function DueCount(c: Config, s: Store, now: nat): nat {
    |DueRows(s.jobs, Stamp(c.dialect, now))|
  }

  function LapsedCount(c: Config, s: Store, now: nat): nat {
    |LapsedRows(s.jobs, Stamp(c.dialect, now))|
  }

  lemma MapMinus(m: map<JobId, int>, m': map<JobId, int>, batch: set<JobId>)
    requires batch <= m.Keys && m'.Keys == m.Keys - batch
    ensures |m'| == |m| - |batch|
  {
    assert |m'| == |m'.Keys| && |m| == |m.Keys|;
  }

  lemma MapPlus(m: map<JobId, int>, m': map<JobId, int>, batch: set<JobId>)
    requires m'.Keys <= m.Keys + batch
    ensures |m'| <= |m| + |batch|
  {
    assert |m'| == |m'.Keys| && |m| == |m.Keys|;
    Listing.SubsetCard(m'.Keys, m.Keys + batch);
  }

  lemma PromotedRow(c: Config, s: Store, st: Step, id: JobId)
    requires st.event.PromoteScheduledJobs? && st.event.skip == {} && Enabled(c, s, st) && id in s.jobs
    ensures id in Apply(c, s, st).jobs
    ensures id in st.event.batch ==>
      Due(s.jobs[id], Stamp(c.dialect, st.at)) && Apply(c, s, st).jobs[id] == s.jobs[id].(status := Available)
    ensures id !in st.event.batch ==> Apply(c, s, st).jobs[id] == s.jobs[id]
  {
    assert id in st.event.batch ==> id in DueRows(s.jobs, Stamp(c.dialect, st.at));
  }

  lemma PromotedRows(before: map<JobId, Job>, after: map<JobId, Job>, batch: set<JobId>, now: nat)
    requires after.Keys == before.Keys
    requires forall id :: id in before && id in batch ==>
      Due(before[id], now) && after[id] == before[id].(status := Available)
    requires forall id :: id in before && id !in batch ==> after[id] == before[id]
    ensures DueRows(after, now).Keys == DueRows(before, now).Keys - batch
    ensures LapsedRows(after, now) == LapsedRows(before, now)
  {
  }

  /** PromoteScheduledJobs makes exactly its batch available and leaves expired leases alone. */
  lemma PromoteTick(c: Config, s: Store, st: Step)
    requires st.event.PromoteScheduledJobs? && st.event.skip == {} && Enabled(c, s, st)
    ensures DueCount(c, Apply(c, s, st), st.at) ==
      DueCount(c, s, st.at) - Min(DueCount(c, s, st.at), BatchLimit(st.event.limit))
    ensures LapsedRows(Apply(c, s, st).jobs, Stamp(c.dialect, st.at)) == LapsedRows(s.jobs, Stamp(c.dialect, st.at))
  {
    var now, s', batch := Stamp(c.dialect, st.at), Apply(c, s, st), st.event.batch;
    Selection.SkipNone(DueRows(s.jobs, now));
    forall id | id in s.jobs
      ensures id in batch ==> Due(s.jobs[id], now) && s'.jobs[id] == s.jobs[id].(status := Available)
      ensures id !in batch ==> s'.jobs[id] == s.jobs[id]
    {
      PromotedRow(c, s, st, id);
    }
    PromotedRows(s.jobs, s'.jobs, batch, now);
    MapMinus(DueRows(s.jobs, now), DueRows(s'.jobs, now), batch);
  }

  lemma ReapedRow(c: Config, s: Store, st: Step, id: JobId)
    requires st.event.FailExpiredJobs? && st.event.skip == {} && Enabled(c, s, st) && id in s.jobs
    ensures id in Apply(c, s, st).jobs
    ensures id in st.event.batch ==>
      Lapsed(s.jobs[id], Stamp(c.dialect, st.at)) && !Apply(c, s, st).jobs[id].status.Running?
    ensures id !in st.event.batch ==> Apply(c, s, st).jobs[id] == s.jobs[id]
  {
    assert id in st.event.batch ==> id in LapsedRows(s.jobs, Stamp(c.dialect, st.at));
  }

  lemma ReapedRows(before: map<JobId, Job>, after: map<JobId, Job>, batch: set<JobId>, now: nat)
    requires after.Keys == before.Keys
    requires forall id :: id in before && id in batch ==> Lapsed(before[id], now) && !after[id].status.Running?
    requires forall id :: id in before && id !in batch ==> after[id] == before[id]
    ensures LapsedRows(after, now).Keys == LapsedRows(before, now).Keys - batch
    ensures DueRows(after, now).Keys <= DueRows(before, now).Keys + batch
  {
  }

  /** FailExpiredJobs fails exactly its batch; the failed jobs may become due. */
  lemma ReapTick(c: Config, s: Store, st: Step)
    requires st.event.FailExpiredJobs? && st.event.skip == {} && Enabled(c, s, st)
    ensures var reaped := Min(LapsedCount(c, s, st.at), BatchLimit(st.event.limit));
      LapsedCount(c, Apply(c, s, st), st.at) == LapsedCount(c, s, st.at) - reaped
      && DueCount(c, Apply(c, s, st), st.at) <= DueCount(c, s, st.at) + reaped
  {
    var now, s', batch := Stamp(c.dialect, st.at), Apply(c, s, st), st.event.batch;
    Selection.SkipNone(LapsedRows(s.jobs, now));
    forall id | id in s.jobs
      ensures id in batch ==> Lapsed(s.jobs[id], now) && !s'.jobs[id].status.Running?
      ensures id !in batch ==> s'.jobs[id] == s.jobs[id]
    {
      ReapedRow(c, s, st, id);
    }
    ReapedRows(s.jobs, s'.jobs, batch, now);
    MapMinus(LapsedRows(s.jobs, now), LapsedRows(s'.jobs, now), batch);
    MapPlus(DueRows(s.jobs, now), DueRows(s'.jobs, now), batch);
  }

  function Backlog(c: Config, s: Store, now: nat): nat {
    TicksNeeded(DueCount(c, s, now), LapsedCount(c, s, now), BATCH)
  }

  lemma TickCounts(c: Config, s: Store, promoted: Store, promote: Step, reap: Step)
    requires promote.event.PromoteScheduledJobs? && promote.event.limit == BATCH && promote.event.skip == {}
    requires reap.event.FailExpiredJobs? && reap.event.limit == BATCH && reap.event.skip == {}
    requires promoted == Apply(c, s, promote)
    requires promote.at == reap.at && Enabled(c, s, promote) && Enabled(c, promoted, reap)
    ensures var due, lapsed := DueCount(c, s, reap.at), LapsedCount(c, s, reap.at);
      && DueCount(c, Apply(c, promoted, reap), reap.at) <= due - Min(due, BATCH) + Min(lapsed, BATCH)
      && LapsedCount(c, Apply(c, promoted, reap), reap.at) == lapsed - Min(lapsed, BATCH)
  {
    PromoteTick(c, s, promote);
    ReapTick(c, promoted, reap);
  }

  /** A tick at a fixed clock brings the scheduler one tick closer to having nothing to do. */
  lemma TickProgress(c: Config, s: Store, promote: Step, reap: Step)
    requires promote.event.PromoteScheduledJobs? && promote.event.limit == BATCH && promote.event.skip == {}
    requires reap.event.FailExpiredJobs? && reap.event.limit == BATCH && reap.event.skip == {}
    requires promote.at == reap.at && Enabled(c, s, promote) && Enabled(c, Apply(c, s, promote), reap)
    ensures var left := Backlog(c, Apply(c, Apply(c, s, promote), reap), reap.at);
      left == 0 || left + 1 <= Backlog(c, s, reap.at)
  {
    TickCounts(c, s, Apply(c, s, promote), promote, reap);
    OneTickFewer(DueCount(c, s, reap.at), LapsedCount(c, s, reap.at),
                 DueCount(c, Apply(c, Apply(c, s, promote), reap), reap.at), BATCH);
  }

  /** Nothing is due and nothing has expired. */
  ghost predicate Idle(c: Config, s: Store, now: nat) {
    DueRows(s.jobs, Stamp(c.dialect, now)) == map[] && LapsedRows(s.jobs, Stamp(c.dialect, now)) == map[]
  }

  lemma NoBacklogIsIdle(c: Config, s: Store, now: nat)
    ensures Backlog(c, s, now) == 0 <==> Idle(c, s, now)
  {
  }

  // ----- the loop -----

  /** Enough ticks, in the two numbers an operator can count: E / 1000 rounded up, plus D / 1000 rounded up but at
      least 1. */
  ghost predicate EnoughTicks(c: Config, s: Store, now: nat, n: nat) {
    (LapsedCount(c, s, now) + 999) / 1000 + Max((DueCount(c, s, now) + 999) / 1000, 1) <= n
  }

  lemma EnoughForBacklog(c: Config, s: Store, now: nat, n: nat)
    requires EnoughTicks(c, s, now, n)
    ensures Backlog(c, s, now) <= n
  {
    assert CeilDiv(DueCount(c, s, now), BATCH) == (DueCount(c, s, now) + 999) / 1000;
    assert CeilDiv(LapsedCount(c, s, now), BATCH) == (LapsedCount(c, s, now) + 999) / 1000;
  }

  /** The body of the loop in cmdScheduler, n times at a fixed clock. */
  method TickPostgres(driver: PGDriver.Driver, n: nat, now: nat)
    requires driver.Valid()
    modifies driver
    ensures driver.Valid()
    ensures Backlog(driver.Conf(), old(driver.Tables()), now) <= n ==> Idle(driver.Conf(), driver.Tables(), now)
    ensures EnoughTicks(driver.Conf(), old(driver.Tables()), now, n) ==> Idle(driver.Conf(), driver.Tables(), now)
  {
    for i := 0 to n
      invariant driver.Valid()
      invariant var left := Backlog(driver.Conf(), driver.Tables(), now);
        left == 0 || left + i <= Backlog(driver.Conf(), old(driver.Tables()), now)
    {
      ghost var s := driver.Tables();
      var promoted, due := driver.PromoteScheduledJobs(BATCH, {}, now);
      var failed, expired := driver.FailExpiredJobs(BATCH, {}, now);
      TickProgress(driver.Conf(), s, Step(now, PromoteScheduledJobs(BATCH, {}, due)),
                   Step(now, FailExpiredJobs(BATCH, {}, expired)));
    }
    NoBacklogIsIdle(driver.Conf(), driver.Tables(), now);
    if EnoughTicks(driver.Conf(), old(driver.Tables()), now, n) {
      EnoughForBacklog(driver.Conf(), old(driver.Tables()), now, n);
    }
  }

  method TickSQLite(driver: SQLiteDriver.Driver, n: nat, now: nat)
    requires driver.Valid()
    modifies driver
    ensures driver.Valid()
    ensures Backlog(driver.Conf(), old(driver.Tables()), now) <= n ==> Idle(driver.Conf(), driver.Tables(), now)
    ensures EnoughTicks(driver.Conf(), old(driver.Tables()), now, n) ==> Idle(driver.Conf(), driver.Tables(), now)
  {
    for i := 0 to n
      invariant driver.Valid()
      invariant var left := Backlog(driver.Conf(), driver.Tables(), now);
        left == 0 || left + i <= Backlog(driver.Conf(), old(driver.Tables()), now)
    {
      ghost var s := driver.Tables();
      var promoted, due := driver.PromoteScheduledJobs(BATCH, now);
      var failed, expired := driver.FailExpiredJobs(BATCH, now);
      TickProgress(driver.Conf(), s, Step(now, PromoteScheduledJobs(BATCH, {}, due)),
                   Step(now, FailExpiredJobs(BATCH, {}, expired)));
    }
    NoBacklogIsIdle(driver.Conf(), driver.Tables(), now);
    if EnoughTicks(driver.Conf(), old(driver.Tables()), now, n) {
      EnoughForBacklog(driver.Conf(), old(driver.Tables()), now, n);
    }
  }
}
