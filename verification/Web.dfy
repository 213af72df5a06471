/** The dashboard: the paged job list with its totals, and the scheduler pass over HTTP. */
module Web {
  import opened Wrappers
  import opened Jobs
  import opened Listing
  import Counts
  import PGDriver
  import SQLiteDriver
  import Scheduler

  const PAGE_SIZE: nat := 50

  datatype PageData = PageData(rows: seq<JobRow>, nextCursor: Option<JobId>, counts: map<Status, nat>, total: nat)

  /** Jobs whose status is one of `of`. */
  function HavingStatus(jobs: map<JobId, Job>, of: set<Status>): set<JobId> {
    set id | id in jobs && jobs[id].status in of
  }

  lemma OneMoreStatus(jobs: map<JobId, Job>, of: set<Status>, st: Status)
    requires st !in of
    ensures |HavingStatus(jobs, of + {st})| == |HavingStatus(jobs, of)| + |Counts.WithStatus(jobs, jobs.Keys, st)|
  {
    assert HavingStatus(jobs, of + {st}) == HavingStatus(jobs, of) + Counts.WithStatus(jobs, jobs.Keys, st);
    assert HavingStatus(jobs, of) !! Counts.WithStatus(jobs, jobs.Keys, st);
  }

  /** The status total is the number of jobs. */
  method StatusTotal(ghost jobs: map<JobId, Job>, counts: map<Status, nat>) returns (total: nat)
    requires Counts.CountsOf(jobs, jobs.Keys, counts)
    ensures total == |jobs|
  {
    total := 0;
    var rest := counts.Keys;
    assert HavingStatus(jobs, counts.Keys - rest) == {};
    while rest != {}
      invariant rest <= counts.Keys && total == |HavingStatus(jobs, counts.Keys - rest)|
      decreases rest
    {
      var st :| st in rest;
      assert Counts.CountOf(jobs, jobs.Keys, counts, st);
      OneMoreStatus(jobs, counts.Keys - rest, st);
      assert counts.Keys - (rest - {st}) == counts.Keys - rest + {st};
      total := total + counts[st];
      rest := rest - {st};
    }
    forall id | id in jobs
      ensures jobs[id].status in counts
    {
      assert Counts.CountOf(jobs, jobs.Keys, counts, jobs[id].status);
      assert id in Counts.WithStatus(jobs, jobs.Keys, jobs[id].status);
    }
    assert HavingStatus(jobs, counts.Keys - rest) == jobs.Keys;
  }

  /** The job list page: one extra row decides whether there is a next page, and the cursor to it is the last id
      shown. */
  method Index(d: Dialect, jobs: map<JobId, Job>, status: Option<Status>, after: Option<JobId>)
    returns (data: PageData)
    ensures IsPage(jobs, Filter("", status), after, 50, RowIds(data.rows)) && AreViews(d, jobs, data.rows)
    ensures data.nextCursor.Some? ==> data.rows != [] && data.nextCursor.value == data.rows[|data.rows| - 1].id
    ensures data.nextCursor.None? <==>
      forall id :: Listed(jobs, Filter("", status), after, id) ==> id in RowIds(data.rows)
    ensures Counts.CountsOf(jobs, jobs.Keys, data.counts) && data.total == |jobs|
  {
    var rows := ListJobs(d, jobs, Filter("", status), PAGE_SIZE + 1, after);
    var next := None;
    CutPage(jobs, Filter("", status), after, PAGE_SIZE, RowIds(rows));
    if |rows| > PAGE_SIZE {
      LastFetchedIsOld(jobs, Filter("", status), after, RowIds(rows));
      assert RowIds(rows)[..PAGE_SIZE] == RowIds(rows[..PAGE_SIZE]);
      rows := rows[..PAGE_SIZE];
      next := Some(rows[|rows| - 1].id);
    }
    var counts := Counts.CountByStatus(jobs, None);
    assert Counts.InQueue(jobs, None) == jobs.Keys;
    var total := StatusTotal(jobs, counts);
    data := PageData(rows, next, counts, total);
  }

  lemma LastFetchedIsOld(jobs: map<JobId, Job>, f: Filter, after: Option<JobId>, ids: seq<JobId>)
    requires IsPage(jobs, f, after, PAGE_SIZE + 1, ids) && |ids| == PAGE_SIZE + 1
    ensures Listed(jobs, f, after, ids[PAGE_SIZE]) && ids[PAGE_SIZE] !in ids[..PAGE_SIZE]
  {
    assert ids[PAGE_SIZE] in ids;
  }

  /** Reading on until NextCursor is empty is reading to the end. */
  lemma EmptyCursorEnds(tables: seq<map<JobId, Job>>, f: Filter, pages: seq<seq<JobId>>)
    requires Session(tables, f, 50, pages)
    requires var last := |pages| - 1;
      exists fetched :: IsPage(tables[last], f, Cursor(pages, last), 50 + 1, fetched)
        && |fetched| <= 50 && pages[last] == fetched
    ensures Ended(tables, f, 50, pages)
  {
    var last := |pages| - 1;
    CutPage(tables[last], f, Cursor(pages, last), PAGE_SIZE, pages[last]);
  }

  /** The HTTP scheduler pass promotes due jobs and never touches an expired lease. */
  ghost predicate Passed(c: Config, before: Store, after: Store, now: nat, promoted: nat) {
    && promoted == Scheduler.Min(Scheduler.DueCount(c, before, now), 1000)
    && Scheduler.DueCount(c, after, now) == Scheduler.DueCount(c, before, now) - promoted
    && LapsedRows(after.jobs, Stamp(c.dialect, now)) == LapsedRows(before.jobs, Stamp(c.dialect, now))
  }

  lemma PromotionPasses(c: Config, s: Store, st: Step)
    requires st.event.PromoteScheduledJobs? && st.event.limit == 1000 && st.event.skip == {} && Enabled(c, s, st)
    ensures Passed(c, s, Apply(c, s, st), st.at, |st.event.batch|)
  {
    var due := DueRows(s.jobs, Stamp(c.dialect, st.at));
    assert due - {} == due;
    Scheduler.PromoteTick(c, s, st);
  }

  method RunSchedulerPostgres(driver: PGDriver.Driver, now: nat) returns (promoted: nat)
    requires driver.Valid()
    modifies driver
    ensures driver.Valid()
    ensures Passed(driver.Conf(), old(driver.Tables()), driver.Tables(), now, promoted)
  {
    ghost var s := driver.Tables();
    var n, batch := driver.PromoteScheduledJobs(1000, {}, now);
    PromotionPasses(driver.Conf(), s, Step(now, PromoteScheduledJobs(1000, {}, batch)));
    promoted := n;
  }

  method RunSchedulerSQLite(driver: SQLiteDriver.Driver, now: nat) returns (promoted: nat)
    requires driver.Valid()
    modifies driver
    ensures driver.Valid()
    ensures Passed(driver.Conf(), old(driver.Tables()), driver.Tables(), now, promoted)
  {
    ghost var s := driver.Tables();
    var n, batch := driver.PromoteScheduledJobs(1000, now);
    PromotionPasses(driver.Conf(), s, Step(now, PromoteScheduledJobs(1000, {}, batch)));
    promoted := n;
  }
}
