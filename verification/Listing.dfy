/** Keyset pagination: newest ids first, each page strictly below the last id of the page before. */
module Listing {
  import opened Wrappers
  import opened Jobs
  import Lifecycle

  /** The filters of ListJobs; "" and None mean no filter. */
  datatype Filter = Filter(queue: string, status: Option<Status>)

  predicate Matches(f: Filter, j: Job) {
    (f.queue == "" || j.queue == f.queue) && (f.status.None? || j.status == f.status.value)
  }

  predicate Below(id: JobId, after: Option<JobId>) {
    after.Some? ==> id < after.value
  }

  predicate Listed(jobs: map<JobId, Job>, f: Filter, after: Option<JobId>, id: JobId) {
    id in jobs && Matches(f, jobs[id]) && Below(id, after)
  }

  ghost predicate Descending(ids: seq<JobId>) {
    forall i, k :: 0 <= i < k < |ids| ==> ids[i] > ids[k]
  }

  /** The answer to one query: the greatest matching ids below the cursor, as many as fit. */
  ghost predicate IsPage(jobs: map<JobId, Job>, f: Filter, after: Option<JobId>, limit: nat, page: seq<JobId>) {
    && Descending(page)
    && |page| <= limit
    && (forall id :: id in page ==> Listed(jobs, f, after, id))
    && (forall id :: Listed(jobs, f, after, id) ==>
         id in page || (|page| == limit && (limit > 0 ==> id < page[limit - 1])))
  }

  /** A job of the queue and status asked for ("" and None asking for any), below the cursor. */
  predicate Wanted(jobs: map<JobId, Job>, f: Filter, after: Option<JobId>, id: JobId) {
    && id in jobs && (f.queue == "" || jobs[id].queue == f.queue)
    && (f.status == None || f.status == Some(jobs[id].status))
    && (after == None || id < after.value)
  }

  /** What a page holds, column by column: only jobs of the queue and status asked for, below the cursor, newest first,
      at most `limit` of them; and a job it should hold but does not is older than all it holds, the page being full. */
  lemma PageColumns(jobs: map<JobId, Job>, f: Filter, after: Option<JobId>, limit: nat, page: seq<JobId>, id: JobId)
    requires IsPage(jobs, f, after, limit, page)
    ensures |page| <= limit && forall i, k :: 0 <= i < k < |page| ==> page[i] > page[k]
    ensures id in page ==> Wanted(jobs, f, after, id)
    ensures id !in page && Wanted(jobs, f, after, id) ==> |page| == limit && forall k :: 0 <= k < |page| ==>
      id < page[k]
  {
    assert Listed(jobs, f, after, id) <==> Wanted(jobs, f, after, id);
    if id !in page && Listed(jobs, f, after, id) && limit > 0 {
      assert id < page[limit - 1];
    }
  }

  lemma {:induction false} DescendingUnique(a: seq<JobId>, b: seq<JobId>)
    requires Descending(a) && Descending(b) && forall id :: id in a <==> id in b
    ensures a == b
  {
    assert a != [] ==> a[0] in b;
    assert b != [] ==> b[0] in a;
    if a != [] {
      assert a[0] == b[0];
      forall id
        ensures id in a[1..] <==> id in b[1..]
      {
        assert id in a <==> id in b;
      }
      DescendingUnique(a[1..], b[1..]);
    }
  }

  // ----- the query -----

  method Greatest(among: set<JobId>) returns (id: JobId)
    requires among != {}
    ensures id in among && forall b :: b in among ==> b <= id
  {
    id :| id in among;
    var rest := among - {id};
    while rest != {}
      invariant id in among && rest <= among
      invariant forall b :: b in among && b !in rest ==> b <= id
      decreases rest
    {
      var other :| other in rest;
      rest := rest - {other};
      if other > id {
        id := other;
      }
    }
  }

  /** SELECT ... ORDER BY id DESC LIMIT: the row ids, in order. */
  method SelectPage(jobs: map<JobId, Job>, f: Filter, after: Option<JobId>, limit: nat) returns (page: seq<JobId>)
    ensures IsPage(jobs, f, after, limit, page)
  {
    page := [];
    var rest := set id | id in jobs && Listed(jobs, f, after, id);
    while rest != {} && |page| < limit
      invariant |page| <= limit && Descending(page)
      invariant forall id :: id in page ==> Listed(jobs, f, after, id)
      invariant forall id :: Listed(jobs, f, after, id) <==> id in page || id in rest
      invariant forall i, b :: 0 <= i < |page| && b in rest ==> b < page[i]
      decreases rest
    {
      var id := Greatest(rest);
      page, rest := page + [id], rest - {id};
    }
  }

  function RowIds(rows: seq<JobRow>): (ids: seq<JobId>)
    ensures |ids| == |rows| && forall i :: 0 <= i < |rows| ==> ids[i] == rows[i].id
  {
    seq(|rows|, i requires 0 <= i < |rows| => rows[i].id)
  }

  /** Every row shows the job of its id. */
  ghost predicate AreViews(d: Dialect, jobs: map<JobId, Job>, rows: seq<JobRow>) {
    forall i :: 0 <= i < |rows| ==> rows[i].id in jobs && rows[i] == View(d, rows[i].id, jobs[rows[i].id])
  }

  /** The driver's ListJobs: a non-positive limit means 50. */
  method ListJobs(d: Dialect, jobs: map<JobId, Job>, f: Filter, limit: int, after: Option<JobId>)
    returns (rows: seq<JobRow>)
    ensures IsPage(jobs, f, after, if limit <= 0 then 50 else limit, RowIds(rows)) && AreViews(d, jobs, rows)
  {
    var n := limit;
    if n <= 0 {
      n := 50;
    }
    var ids := SelectPage(jobs, f, after, n);
    rows := [];
    var i := 0;
    while i < |ids|
      invariant 0 <= i <= |ids| && |rows| == i
      invariant forall k :: 0 <= k < i ==> ids[k] in jobs && rows[k] == View(d, ids[k], jobs[ids[k]])
    {
      assert ids[i] in ids;
      rows := rows + [View(d, ids[i], jobs[ids[i]])];
      i := i + 1;
    }
    assert RowIds(rows) == ids;
  }

  // ----- a client reading page after page -----

  /** Where page i starts: below the last id of the page before. */
  ghost function Cursor(pages: seq<seq<JobId>>, i: nat): Option<JobId>
    requires i <= |pages|
  {
    if i == 0 || pages[i - 1] == [] then None else Some(pages[i - 1][|pages[i - 1]| - 1])
  }

  ghost predicate PageAt(tables: seq<map<JobId, Job>>, f: Filter, limit: nat, pages: seq<seq<JobId>>, i: nat)
    requires i < |pages| == |tables|
  {
    IsPage(tables[i], f, Cursor(pages, i), limit, pages[i])
  }

  /** Pages read one after another, page i from table i, each from the last id of the page before; every page but the
      last is full. */
  ghost predicate Session(tables: seq<map<JobId, Job>>, f: Filter, limit: nat, pages: seq<seq<JobId>>) {
    && |tables| == |pages| > 0 && limit > 0
    && (forall k :: 0 <= k < |pages| - 1 ==> |pages[k]| == limit)
    && forall i: nat :: i < |pages| ==> PageAt(tables, f, limit, pages, i)
  }

  /** Page i leaves no matching job below it. */
  ghost predicate NothingBelow(tables: seq<map<JobId, Job>>, f: Filter, pages: seq<seq<JobId>>, i: nat)
    requires i < |pages| == |tables|
  {
    forall id :: Listed(tables[i], f, Cursor(pages, i), id) ==> id in pages[i]
  }

  /** No matching job is left below the last page. */
  ghost predicate Ended(tables: seq<map<JobId, Job>>, f: Filter, limit: nat, pages: seq<seq<JobId>>)
    requires Session(tables, f, limit, pages)
  {
    NothingBelow(tables, f, pages, |pages| - 1)
  }

  /** The documented rule: fewer than `limit` jobs came back. */
  lemma ShortPageEnds(tables: seq<map<JobId, Job>>, f: Filter, limit: nat, pages: seq<seq<JobId>>)
    requires Session(tables, f, limit, pages) && |pages[|pages| - 1]| < limit
    ensures Ended(tables, f, limit, pages)
  {
    assert PageAt(tables, f, limit, pages, |pages| - 1);
  }

  /** Cutting a page fetched with one extra row back to the limit gives the page for the limit. */
  lemma CutPage(jobs: map<JobId, Job>, f: Filter, after: Option<JobId>, limit: nat, fetched: seq<JobId>)
    requires IsPage(jobs, f, after, limit + 1, fetched) && limit > 0
    ensures IsPage(jobs, f, after, limit, if |fetched| > limit then fetched[..limit] else fetched)
    ensures |fetched| <= limit ==> forall id :: Listed(jobs, f, after, id) ==> id in fetched
  {
    if |fetched| > limit {
      forall id | Listed(jobs, f, after, id)
        ensures id in fetched[..limit] || id < fetched[limit - 1]
      {
        if id in fetched {
          var i :| 0 <= i < |fetched| && fetched[i] == id;
          assert i < limit ==> fetched[..limit][i] == id;
        }
      }
      assert fetched[..limit][limit - 1] == fetched[limit - 1];
    }
  }

  /** Position (i, a) comes before (k, b) in the listing. */
  ghost predicate Before(i: nat, a: nat, k: nat, b: nat) {
    i < k || (i == k && a < b)
  }

  /** Ids strictly decrease along the whole listing, so none appears twice. */
  ghost predicate InOrder(pages: seq<seq<JobId>>) {
    forall i: nat, a: nat, k: nat, b: nat ::
      i < |pages| && k < |pages| && a < |pages[i]| && b < |pages[k]| && Before(i, a, k, b)
      ==> pages[i][a] > pages[k][b]
  }

  /** The id page k starts below. */
  lemma LastOfPage(tables: seq<map<JobId, Job>>, f: Filter, limit: nat, pages: seq<seq<JobId>>, k: nat)
    returns (last: JobId)
    requires Session(tables, f, limit, pages) && k + 1 < |pages|
    ensures Cursor(pages, k + 1) == Some(last) && Below(last, Cursor(pages, k))
    ensures forall a :: 0 <= a < |pages[k]| ==> pages[k][a] >= last
  {
    assert PageAt(tables, f, limit, pages, k);
    last := pages[k][|pages[k]| - 1];
    assert last in pages[k];
  }

  lemma {:induction false} BelowEarlierPages(tables: seq<map<JobId, Job>>, f: Filter, limit: nat,
                                             pages: seq<seq<JobId>>, i: nat, k: nat, id: JobId)
    requires Session(tables, f, limit, pages) && i < k < |pages|
    requires Below(id, Cursor(pages, k))
    ensures forall a :: 0 <= a < |pages[i]| ==> pages[i][a] > id
    decreases k
  {
    var last := LastOfPage(tables, f, limit, pages, k - 1);
    if i < k - 1 {
      BelowEarlierPages(tables, f, limit, pages, i, k - 1, last);
    }
  }

  lemma SessionInOrder(tables: seq<map<JobId, Job>>, f: Filter, limit: nat, pages: seq<seq<JobId>>)
    requires Session(tables, f, limit, pages)
    ensures InOrder(pages)
  {
    forall i: nat, a: nat, k: nat, b: nat | i < |pages| && k < |pages| && a < |pages[i]| && b < |pages[k]|
      && Before(i, a, k, b)
      ensures pages[i][a] > pages[k][b]
    {
      assert PageAt(tables, f, limit, pages, k);
      if i < k {
        assert pages[k][b] in pages[k];
        BelowEarlierPages(tables, f, limit, pages, i, k, pages[k][b]);
      }
    }
  }

  lemma SeenOrStillBelow(tables: seq<map<JobId, Job>>, f: Filter, limit: nat, pages: seq<seq<JobId>>, id: JobId, i: nat)
    requires Session(tables, f, limit, pages) && i + 1 < |pages| && Listed(tables[i], f, Cursor(pages, i), id)
    ensures id in pages[i] || Below(id, Cursor(pages, i + 1))
  {
    assert PageAt(tables, f, limit, pages, i);
  }

  /** A job that matches the filter whenever a page is read is returned, if not yet then further down. */
  lemma {:induction false} SeenOrBelow(tables: seq<map<JobId, Job>>, f: Filter, limit: nat, pages: seq<seq<JobId>>,
                                       id: JobId, i: nat)
    requires Session(tables, f, limit, pages) && i < |pages|
    requires forall k :: 0 <= k < |pages| ==> id in tables[k] && Matches(f, tables[k][id])
    ensures (exists k :: 0 <= k < i && id in pages[k]) || Below(id, Cursor(pages, i))
  {
    if i > 0 {
      SeenOrBelow(tables, f, limit, pages, id, i - 1);
      if Below(id, Cursor(pages, i - 1)) {
        SeenOrStillBelow(tables, f, limit, pages, id, i - 1);
      }
    }
  }

  /** Under any filter and whatever runs between the pages, a job that matches each time a page is read is
      returned exactly once, in descending id order. */
  lemma SteadyJobListedOnce(tables: seq<map<JobId, Job>>, f: Filter, limit: nat, pages: seq<seq<JobId>>, id: JobId)
    requires Session(tables, f, limit, pages) && Ended(tables, f, limit, pages)
    requires forall k :: 0 <= k < |pages| ==> id in tables[k] && Matches(f, tables[k][id])
    ensures InOrder(pages)
    ensures exists k :: 0 <= k < |pages| && id in pages[k]
  {
    SessionInOrder(tables, f, limit, pages);
    var last := |pages| - 1;
    SeenOrBelow(tables, f, limit, pages, id, last);
    if Below(id, Cursor(pages, last)) {
      assert NothingBelow(tables, f, pages, last);
      assert Listed(tables[last], f, Cursor(pages, last), id);
    }
  }

  /** The pages are read while a run of driver statements goes on, page i after times[i] of its steps. */
  ghost predicate DuringRun(c: Config, s: Store, steps: seq<Step>, times: seq<nat>, tables: seq<map<JobId, Job>>) {
    && |times| == |tables|
    && (forall i :: 0 <= i < |times| ==> times[i] <= |steps| && tables[i] == At(c, s, steps, times[i]).jobs)
    && forall i, k :: 0 <= i <= k < |times| ==> times[i] <= times[k]
  }

  /** Jobs never stop matching the filter: it has no status, or one that jobs do not leave. */
  predicate Lasting(f: Filter) {
    f.status.None? || Terminal(f.status.value)
  }

  /** With such a filter, paging over tables that driver statements keep changing returns every job that matched when
      the first page was read, exactly once and in descending id order. */
  lemma PagingMissesNothing(c: Config, s: Store, steps: seq<Step>, times: seq<nat>, tables: seq<map<JobId, Job>>,
                            f: Filter, limit: nat, pages: seq<seq<JobId>>)
    requires DuringRun(c, s, steps, times, tables) && Lasting(f)
    requires Session(tables, f, limit, pages) && Ended(tables, f, limit, pages)
    ensures InOrder(pages)
    ensures forall id :: Listed(tables[0], f, None, id) ==> exists k :: 0 <= k < |pages| && id in pages[k]
  {
    SessionInOrder(tables, f, limit, pages);
    forall id | Listed(tables[0], f, None, id)
      ensures exists k :: 0 <= k < |pages| && id in pages[k]
    {
      forall k | 0 <= k < |pages|
        ensures id in tables[k] && Matches(f, tables[k][id])
      {
        Lifecycle.RunExtends(c, s, steps, times[0], times[k]);
        assert id in At(c, s, steps, times[0]).jobs;
        assert Lifecycle.Evolves(At(c, s, steps, times[0]).jobs[id], At(c, s, steps, times[k]).jobs[id]);
      }
      SteadyJobListedOnce(tables, f, limit, pages, id);
    }
  }

  /** Page k is the one whose stretch of ids covers id. */
  ghost predicate Covers(tables: seq<map<JobId, Job>>, f: Filter, limit: nat, pages: seq<seq<JobId>>, k: nat, id: JobId)
    requires Session(tables, f, limit, pages) && k < |pages|
  {
    Below(id, Cursor(pages, k)) && (k < |pages| - 1 ==> pages[k][|pages[k]| - 1] <= id)
  }

  lemma OnPageExactly(tables: seq<map<JobId, Job>>, f: Filter, limit: nat, pages: seq<seq<JobId>>, k: nat, id: JobId)
    requires Session(tables, f, limit, pages) && Ended(tables, f, limit, pages)
    requires k < |pages| && id in tables[k]
    ensures id in pages[k] <==> Covers(tables, f, limit, pages, k, id) && Matches(f, tables[k][id])
  {
    assert PageAt(tables, f, limit, pages, k);
    if id in pages[k] {
      assert Listed(tables[k], f, Cursor(pages, k), id);
      var i :| 0 <= i < |pages[k]| && pages[k][i] == id;
      if i < |pages[k]| - 1 {
        assert pages[k][i] > pages[k][|pages[k]| - 1];
      }
    }
    if Covers(tables, f, limit, pages, k, id) && Matches(f, tables[k][id]) {
      assert Listed(tables[k], f, Cursor(pages, k), id);
      if k < |pages| - 1 {
        assert |pages[k]| == limit;
        assert pages[k][limit - 1] <= id;
        assert id in pages[k];
      } else {
        assert NothingBelow(tables, f, pages, k);
      }
    }
  }

  /** Exactly which jobs paging returns under any filter: those that match when the page covering their id is read. */
  lemma ReturnedExactly(tables: seq<map<JobId, Job>>, f: Filter, limit: nat, pages: seq<seq<JobId>>, id: JobId)
    requires Session(tables, f, limit, pages) && Ended(tables, f, limit, pages)
    requires forall k :: 0 <= k < |pages| ==> id in tables[k]
    ensures (exists k :: 0 <= k < |pages| && id in pages[k])
      <==> exists k: nat :: k < |pages| && Covers(tables, f, limit, pages, k, id) && Matches(f, tables[k][id])
  {
    forall k: nat | k < |pages|
      ensures id in pages[k] <==> Covers(tables, f, limit, pages, k, id) && Matches(f, tables[k][id])
    {
      OnPageExactly(tables, f, limit, pages, k, id);
    }
  }

  // ----- termination -----

  /** Jobs created while paging get ids above the cursor. */
  ghost predicate NewIdsAbove(tables: seq<map<JobId, Job>>, f: Filter, limit: nat, pages: seq<seq<JobId>>)
    requires Session(tables, f, limit, pages)
  {
    forall i: nat, id :: 0 < i < |tables| && id in tables[i] && Below(id, Cursor(pages, i)) ==> id in tables[i - 1]
  }

  lemma {:induction false} OldBelowCursor(tables: seq<map<JobId, Job>>, f: Filter, limit: nat,
                                          pages: seq<seq<JobId>>, i: nat, id: JobId)
    requires Session(tables, f, limit, pages) && NewIdsAbove(tables, f, limit, pages) && i < |pages|
    requires id in tables[i] && Below(id, Cursor(pages, i))
    ensures id in tables[0]
  {
    if i > 0 {
      var last := LastOfPage(tables, f, limit, pages, i - 1);
      OldBelowCursor(tables, f, limit, pages, i - 1, id);
    }
  }

  /** The ids of the first n pages. */
  function Seen(pages: seq<seq<JobId>>, n: nat): set<JobId>
    requires n <= |pages|
  {
    if n == 0 then {} else Seen(pages, n - 1) + Ids(pages[n - 1])
  }

  function Ids(page: seq<JobId>): set<JobId> {
    set id | id in page
  }

  lemma {:induction false} SeenOnPage(pages: seq<seq<JobId>>, n: nat, id: JobId) returns (i: nat)
    requires n <= |pages| && id in Seen(pages, n)
    ensures i < n && id in pages[i]
  {
    if id in pages[n - 1] {
      i := n - 1;
    } else {
      i := SeenOnPage(pages, n - 1, id);
    }
  }

  lemma {:induction false} DescendingCard(ids: seq<JobId>)
    requires Descending(ids)
    ensures |Ids(ids)| == |ids|
  {
    if ids != [] {
      DescendingCard(ids[1..]);
      assert ids[0] !in ids[1..];
      assert Ids(ids) == {ids[0]} + Ids(ids[1..]);
    }
  }

  lemma {:induction false} SubsetCard(a: set<JobId>, b: set<JobId>)
    requires a <= b
    ensures |a| <= |b|
    decreases a
  {
    if a != {} {
      var x :| x in a;
      SubsetCard(a - {x}, b - {x});
    }
  }

  lemma NewOnPage(tables: seq<map<JobId, Job>>, f: Filter, limit: nat, pages: seq<seq<JobId>>, n: nat, id: JobId)
    requires Session(tables, f, limit, pages) && NewIdsAbove(tables, f, limit, pages) && n < |pages|
    requires id in pages[n]
    ensures id in tables[0] && id !in Seen(pages, n)
  {
    assert PageAt(tables, f, limit, pages, n);
    assert Listed(tables[n], f, Cursor(pages, n), id);
    OldBelowCursor(tables, f, limit, pages, n, id);
    if id in Seen(pages, n) {
      var i := SeenOnPage(pages, n, id);
      BelowEarlierPages(tables, f, limit, pages, i, n, id);
    }
  }

  lemma FullPageCount(tables: seq<map<JobId, Job>>, f: Filter, limit: nat, pages: seq<seq<JobId>>, n: nat)
    requires Session(tables, f, limit, pages) && NewIdsAbove(tables, f, limit, pages) && n + 1 < |pages|
    requires Seen(pages, n) <= tables[0].Keys
    ensures Seen(pages, n + 1) <= tables[0].Keys && |Seen(pages, n + 1)| == |Seen(pages, n)| + limit
  {
    forall id | id in pages[n]
      ensures id in tables[0] && id !in Seen(pages, n)
    {
      NewOnPage(tables, f, limit, pages, n, id);
    }
    assert PageAt(tables, f, limit, pages, n);
    DescendingCard(pages[n]);
    assert Seen(pages, n) !! Ids(pages[n]);
  }

  lemma Times(n: nat, limit: nat)
    requires n > 0
    ensures n * limit == (n - 1) * limit + limit
  {
  }

  lemma {:induction false} FullPagesCount(tables: seq<map<JobId, Job>>, f: Filter, limit: nat,
                                          pages: seq<seq<JobId>>, n: nat)
    requires Session(tables, f, limit, pages) && NewIdsAbove(tables, f, limit, pages) && n < |pages|
    ensures Seen(pages, n) <= tables[0].Keys && |Seen(pages, n)| == n * limit
  {
    if n > 0 {
      FullPagesCount(tables, f, limit, pages, n - 1);
      FullPageCount(tables, f, limit, pages, n - 1);
      Times(n, limit);
    }
  }

  /** When new ids land above the cursor, paging reads at most one page more than the jobs present at the start fill. */
  lemma PagingTerminates(tables: seq<map<JobId, Job>>, f: Filter, limit: nat, pages: seq<seq<JobId>>)
    requires Session(tables, f, limit, pages) && NewIdsAbove(tables, f, limit, pages)
    ensures (|pages| - 1) * limit <= |tables[0]|
  {
    FullPagesCount(tables, f, limit, pages, |pages| - 1);
    SubsetCard(Seen(pages, |pages| - 1), tables[0].Keys);
    assert |tables[0].Keys| == |tables[0]|;
  }

  // ----- a quiet table -----

  function Flatten(pages: seq<seq<JobId>>): seq<JobId> {
    if pages == [] then [] else pages[0] + Flatten(pages[1..])
  }

  lemma {:induction false} FlattenMembers(pages: seq<seq<JobId>>, id: JobId)
    ensures id in Flatten(pages) <==> exists k :: 0 <= k < |pages| && id in pages[k]
  {
    if pages != [] {
      FlattenMembers(pages[1..], id);
      if id in Flatten(pages[1..]) {
        var k :| 0 <= k < |pages[1..]| && id in pages[1..][k];
        assert id in pages[k + 1];
      }
      if k :| 0 < k < |pages| && id in pages[k] {
        assert id in pages[1..][k - 1];
      }
    }
  }

  lemma DescendingConcat(a: seq<JobId>, b: seq<JobId>)
    requires Descending(a) && Descending(b)
    requires forall i, id :: 0 <= i < |a| && id in b ==> a[i] > id
    ensures Descending(a + b)
  {
    forall i, k | 0 <= i < k < |a + b|
      ensures (a + b)[i] > (a + b)[k]
    {
      assert k >= |a| ==> (a + b)[k] == b[k - |a|] && b[k - |a|] in b;
    }
  }

  lemma {:induction false} FlattenDescends(pages: seq<seq<JobId>>)
    requires InOrder(pages)
    ensures Descending(Flatten(pages))
  {
    if pages != [] {
      assert InOrder(pages[1..]) by {
        forall i: nat, a: nat, k: nat, b: nat | i < |pages[1..]| && k < |pages[1..]| && a < |pages[1..][i]|
          && b < |pages[1..][k]| && Before(i, a, k, b)
          ensures pages[1..][i][a] > pages[1..][k][b]
        {
          assert Before(i + 1, a, k + 1, b);
          assert pages[i + 1][a] > pages[k + 1][b];
        }
      }
      FlattenDescends(pages[1..]);
      forall a, id | 0 <= a < |pages[0]| && id in Flatten(pages[1..])
        ensures pages[0][a] > id
      {
        FlattenMembers(pages[1..], id);
        var k :| 0 <= k < |pages[1..]| && id in pages[1..][k];
        var b :| 0 <= b < |pages[k + 1]| && pages[k + 1][b] == id;
        assert Before(0, a, k + 1, b);
      }
      forall a, b | 0 <= a < b < |pages[0]|
        ensures pages[0][a] > pages[0][b]
      {
        assert Before(0, a, 0, b);
      }
      DescendingConcat(pages[0], Flatten(pages[1..]));
    }
  }

  /** On a table nobody changes, every way of reading to the end, whatever its page size and stop rule, gives the
      same list: all matching jobs by descending id. */
  lemma QuietListingIsUnique(jobs: map<JobId, Job>, f: Filter, tables: seq<map<JobId, Job>>, limit: nat,
                             pages: seq<seq<JobId>>,
                             tables': seq<map<JobId, Job>>, limit': nat, pages': seq<seq<JobId>>)
    requires Session(tables, f, limit, pages) && Ended(tables, f, limit, pages)
    requires Session(tables', f, limit', pages') && Ended(tables', f, limit', pages')
    requires forall i :: 0 <= i < |tables| ==> tables[i] == jobs
    requires forall i :: 0 <= i < |tables'| ==> tables'[i] == jobs
    ensures Flatten(pages) == Flatten(pages') && Descending(Flatten(pages))
    ensures forall id :: id in Flatten(pages) <==> Listed(jobs, f, None, id)
  {
    QuietListing(jobs, f, tables, limit, pages);
    QuietListing(jobs, f, tables', limit', pages');
    DescendingUnique(Flatten(pages), Flatten(pages'));
  }

  lemma QuietListing(jobs: map<JobId, Job>, f: Filter, tables: seq<map<JobId, Job>>, limit: nat, pages: seq<seq<JobId>>)
    requires Session(tables, f, limit, pages) && Ended(tables, f, limit, pages)
    requires forall i :: 0 <= i < |tables| ==> tables[i] == jobs
    ensures Descending(Flatten(pages))
    ensures forall id :: id in Flatten(pages) <==> Listed(jobs, f, None, id)
  {
    SessionInOrder(tables, f, limit, pages);
    FlattenDescends(pages);
    forall id
      ensures id in Flatten(pages) <==> Listed(jobs, f, None, id)
    {
      FlattenMembers(pages, id);
      if Listed(jobs, f, None, id) {
        SteadyJobListedOnce(tables, f, limit, pages, id);
      } else {
        forall k | 0 <= k < |pages|
          ensures id !in pages[k]
        {
          assert PageAt(tables, f, limit, pages, k);
        }
      }
    }
  }
}
