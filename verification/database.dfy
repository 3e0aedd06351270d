/** `InMemoryDatabase`: the task store as an immutable list. Every operation
    that changes the list returns the new store beside its own result. */
module Database {
  import opened Common
  import opened Text
  import opened TaskModel
  import opened Ordering
  import opened Paging

  datatype Store = Store(tasks: seq<Task>)

  const Empty := Store([])

  /** `TaskQueryParams`: every field optional. */
  datatype TaskQuery = TaskQuery(
    page: Option<int>,
    limit: Option<int>,
    status: Option<Status>,
    search: Option<string>)

  /** `PaginatedResponse<Task>`. */
  datatype PaginatedResponse = PaginatedResponse(
    data: seq<Task>,
    total: nat,
    page: int,
    limit: int,
    totalPages: int)

  const DefaultPage := 1
  const DefaultLimit := 10

  /** `count()`: the number of stored tasks. */
  function Count(s: Store): nat { |s.tasks| }

  /** `create(task)`: appends the task at the end of the list, keeps every
      earlier task in place, and hands back the task it was given. */
  function Create(s: Store, t: Task): (r: (Store, Task))
    ensures r.1 == t
    ensures Count(r.0) == Count(s) + 1
    ensures r.0.tasks[..Count(s)] == s.tasks && r.0.tasks[Count(s)] == t
  {
    (Store(s.tasks + [t]), t)
  }

  /** `clear()`: afterwards the store holds nothing. */
  function Clear(s: Store): (r: Store)
    ensures Count(r) == 0
  {
    Empty
  }

  /** `i` is the first position of `ts` whose task has this id. */
  predicate IsFirstWithId(ts: seq<Task>, id: string, i: int)
  {
    && 0 <= i < |ts|
    && ts[i].id == id
    && forall j :: 0 <= j < i ==> ts[j].id != id
  }

  predicate HasId(ts: seq<Task>, id: string)
  {
    exists i :: 0 <= i < |ts| && ts[i].id == id
  }

  /** `findIndex(task => task.id === id)`, with `None` for `-1`. */
  function FirstIndex(ts: seq<Task>, id: string): (r: Option<nat>)
    ensures r.Some? ==> IsFirstWithId(ts, id, r.value)
    ensures r.None? <==> !HasId(ts, id)
  {
    if ts == [] then None
    else if ts[0].id == id then Some(0)
    else
      match FirstIndex(ts[1..], id)
      case None => None
      case Some(i) =>
        assert ts[i + 1] == ts[1..][i];
        Some(i + 1)
  }

  /** The first matching position is unique. */
  lemma FirstWithIdUnique(ts: seq<Task>, id: string, i: int, j: int)
    requires IsFirstWithId(ts, id, i) && IsFirstWithId(ts, id, j)
    ensures i == j
  {
  }

  /** `findById(id)`: the first task carrying `id`, or nothing when no task
      carries it. */
  function FindById(s: Store, id: string): (r: Option<Task>)
    ensures r.None? <==> !HasId(s.tasks, id)
    ensures r.Some? ==> exists i :: IsFirstWithId(s.tasks, id, i) && s.tasks[i] == r.value
  {
    match FirstIndex(s.tasks, id)
    case None => None
    case Some(i) => Some(s.tasks[i])
  }

  /** `updateById(id, updates)` at time `now`. An absent id yields nothing and
      leaves the store as it was. Otherwise only the first task with the id
      changes: it becomes the merge of the patch over it, stamped `now`, and
      it is returned; the list keeps its length and every other position. */
  function UpdateById(s: Store, id: string, patch: TaskPatch, now: int): (r: (Store, Option<Task>))
    ensures !HasId(s.tasks, id) ==> r == (s, None)
    ensures forall i {:trigger IsFirstWithId(s.tasks, id, i)} :: IsFirstWithId(s.tasks, id, i) ==>
              && Count(r.0) == Count(s)
              && r.0.tasks[i] == Merge(s.tasks[i], patch, now)
              && r.1 == Some(r.0.tasks[i])
              && forall j :: 0 <= j < |s.tasks| && j != i ==> r.0.tasks[j] == s.tasks[j]
  {
    match FirstIndex(s.tasks, id)
    case None => (s, None)
    case Some(i) =>
      var updated := Merge(s.tasks[i], patch, now);
      (Store(s.tasks[i := updated]), Some(updated))
  }

  /** `deleteById(id)`. An absent id yields `false` and changes nothing.
      Otherwise exactly the first task with the id is removed, the rest keep
      their order, the store shrinks by one and the answer is `true`. */
  function DeleteById(s: Store, id: string): (r: (Store, bool))
    ensures !HasId(s.tasks, id) ==> r == (s, false)
    ensures forall i {:trigger IsFirstWithId(s.tasks, id, i)} :: IsFirstWithId(s.tasks, id, i) ==>
              r.1 && r.0.tasks == s.tasks[..i] + s.tasks[i + 1..]
    ensures r.1 <==> HasId(s.tasks, id)
    ensures r.1 ==> Count(r.0) == Count(s) - 1
  {
    match FirstIndex(s.tasks, id)
    case None => (s, false)
    case Some(i) => (Store(s.tasks[..i] + s.tasks[i + 1..]), true)
  }

  // ----- findAll -----

  /** Keeps the tasks `keep` accepts, in order (`Array.prototype.filter`):
      each accepted task keeps its multiplicity, each rejected one is gone. */
  function Filter(ts: seq<Task>, keep: Task -> bool): (r: seq<Task>)
    ensures |r| <= |ts|
    ensures forall t :: multiset(r)[t] == if keep(t) then multiset(ts)[t] else 0
  {
    if ts == [] then []
    else
      assert ts == [ts[0]] + ts[1..];
      (if keep(ts[0]) then [ts[0]] else []) + Filter(ts[1..], keep)
  }

  /** The search test: the lower-cased term occurs in the lower-cased title
      or in the lower-cased description. */
  predicate SearchMatches(t: Task, term: string)
  {
    Includes(Lower(t.title), Lower(term)) || Includes(Lower(t.description), Lower(term))
  }

  /** Whether a task belongs to the result of a query. A missing status or a
      missing or empty search term (both falsy in JavaScript) filters nothing. */
  predicate Matches(t: Task, q: TaskQuery)
  {
    && (q.status.Some? ==> t.status == q.status.value)
    && (q.search.Some? && q.search.value != "" ==> SearchMatches(t, q.search.value))
  }

  /** The tasks a query selects, newest first, before paging: the status
      filter, then the search filter, then the sort. */
  function Selected(s: Store, status: Option<Status>, search: Option<string>): seq<Task>
  {
    var byStatus :=
      if status.Some? then Filter(s.tasks, (t: Task) => t.status == status.value)
      else s.tasks;
    var bySearch :=
      if search.Some? && search.value != "" then Filter(byStatus, (t: Task) => SearchMatches(t, search.value))
      else byStatus;
    SortNewestFirst(bySearch)
  }

  /** The listing of a query: only its status and search take part. */
  function Listing(s: Store, q: TaskQuery): seq<Task>
  {
    Selected(s, q.status, q.search)
  }

  /** `params.page || 1` and `params.limit || 10`: absent and 0 both mean
      the default. */
  function OrDefault(v: Option<int>, default: int): int
  {
    if v.None? || v.value == 0 then default else v.value
  }

  /** `findAll(params)`. It reads the store and returns a page; it never
      returns a new store. */
  function FindAll(s: Store, q: TaskQuery): (r: PaginatedResponse)
    ensures r.page != 0 && r.limit != 0
    ensures |r.data| <= r.total
  {
    var listing := Listing(s, q);
    var page := OrDefault(q.page, DefaultPage);
    var limit := OrDefault(q.limit, DefaultLimit);
    PaginatedResponse(
      Page(listing, page, limit),
      |listing|,
      page,
      limit,
      CeilDiv(|listing|, limit))
  }

  // ----- properties of findAll -----

  /** How many tasks of `ts` a query selects, counted one position at a time. */
  function MatchCount(ts: seq<Task>, q: TaskQuery): nat
  {
    if ts == [] then 0
    else (if Matches(ts[0], q) then 1 else 0) + MatchCount(ts[1..], q)
  }

  lemma {:induction false} FilterMatchCount(ts: seq<Task>, q: TaskQuery)
    ensures |Filter(ts, (t: Task) => Matches(t, q))| == MatchCount(ts, q)
  {
    if ts != [] {
      FilterMatchCount(ts[1..], q);
    }
  }

  /** The status filter and then the search filter keep exactly the tasks
      that pass both, each as often as it is stored. */
  lemma SelectedContents(s: Store, status: Option<Status>, search: Option<string>)
    ensures forall t :: multiset(Selected(s, status, search))[t] ==
              if Matches(t, TaskQuery(None, None, status, search)) then multiset(s.tasks)[t] else 0
  {
    var ts := s.tasks;
    var byStatus :=
      if status.Some? then Filter(ts, (t: Task) => t.status == status.value)
      else ts;
    if search.Some? && search.value != "" {
      var bySearch := Filter(byStatus, (t: Task) => SearchMatches(t, search.value));
      assert Selected(s, status, search) == SortNewestFirst(bySearch);
    } else {
      assert Selected(s, status, search) == SortNewestFirst(byStatus);
    }
  }

  /** The listing holds exactly the tasks the query selects, each as often
      as it is stored, and nothing else. */
  lemma ListingContents(s: Store, q: TaskQuery)
    ensures forall t :: multiset(Listing(s, q))[t] == if Matches(t, q) then multiset(s.tasks)[t] else 0
    ensures multiset(Listing(s, q)) == multiset(Filter(s.tasks, (t: Task) => Matches(t, q)))
  {
    var listing := Listing(s, q);
    assert listing == Selected(s, q.status, q.search);
    SelectedContents(s, q.status, q.search);
    forall t ensures multiset(listing)[t] == if Matches(t, q) then multiset(s.tasks)[t] else 0 {
      assert Matches(t, TaskQuery(None, None, q.status, q.search)) == Matches(t, q);
    }
    var kept := Filter(s.tasks, (t: Task) => Matches(t, q));
    assert forall t :: multiset(kept)[t] == if Matches(t, q) then multiset(s.tasks)[t] else 0;
    assert multiset(listing) == multiset(kept);
  }

  /** Filtering keeps list order, so it commutes with picking out the tasks
      created at one instant. */
  lemma {:induction false} FilterCreatedAt(ts: seq<Task>, keep: Task -> bool, when: int)
    ensures CreatedAt(Filter(ts, keep), when) == Filter(CreatedAt(ts, when), keep)
  {
    if ts != [] {
      var h, tail := ts[0], ts[1..];
      FilterCreatedAt(tail, keep, when);
      if keep(h) {
        assert Filter(ts, keep) == [h] + Filter(tail, keep);
        CreatedAtCons(h, Filter(tail, keep), when);
      } else {
        assert Filter(ts, keep) == Filter(tail, keep);
      }
      if h.createdAt == when {
        assert CreatedAt(ts, when) == [h] + CreatedAt(tail, when);
        FilterCons(h, CreatedAt(tail, when), keep);
      } else {
        assert CreatedAt(ts, when) == CreatedAt(tail, when);
      }
    }
  }

  lemma FilterCons(h: Task, ts: seq<Task>, keep: Task -> bool)
    ensures Filter([h] + ts, keep) == (if keep(h) then [h] else []) + Filter(ts, keep)
  {
    assert ([h] + ts)[0] == h && ([h] + ts)[1..] == ts;
  }

  /** Two tests that agree on every task filter alike. */
  lemma {:induction false} FilterSame(ts: seq<Task>, k1: Task -> bool, k2: Task -> bool)
    requires forall t :: k1(t) == k2(t)
    ensures Filter(ts, k1) == Filter(ts, k2)
  {
    if ts != [] {
      FilterSame(ts[1..], k1, k2);
    }
  }

  /** Filtering twice is filtering once by both tests. */
  lemma {:induction false} FilterFilter(ts: seq<Task>, k1: Task -> bool, k2: Task -> bool, both: Task -> bool)
    requires forall t :: both(t) == (k1(t) && k2(t))
    ensures Filter(Filter(ts, k1), k2) == Filter(ts, both)
  {
    if ts != [] {
      var h, tail := ts[0], ts[1..];
      FilterFilter(tail, k1, k2, both);
      if k1(h) {
        assert Filter(ts, k1) == [h] + Filter(tail, k1);
        FilterCons(h, Filter(tail, k1), k2);
      } else {
        assert Filter(ts, k1) == Filter(tail, k1);
      }
    }
  }

  /** A test every task passes keeps the whole list. */
  lemma {:induction false} FilterAll(ts: seq<Task>, keep: Task -> bool)
    requires forall t :: keep(t)
    ensures Filter(ts, keep) == ts
  {
    if ts != [] {
      FilterAll(ts[1..], keep);
    }
  }

  /** The two filters in a row are one filter by the whole query, followed
      by the sort. */
  lemma ListingIsSortedFilter(s: Store, q: TaskQuery)
    ensures Listing(s, q) == SortNewestFirst(Filter(s.tasks, (t: Task) => Matches(t, q)))
  {
    var ts := s.tasks;
    var matches := (t: Task) => Matches(t, q);
    var bySearch: seq<Task>;
    if q.status.Some? {
      var st := (t: Task) => t.status == q.status.value;
      if q.search.Some? && q.search.value != "" {
        var se := (t: Task) => SearchMatches(t, q.search.value);
        FilterFilter(ts, st, se, matches);
        bySearch := Filter(Filter(ts, st), se);
      } else {
        FilterSame(ts, st, matches);
        bySearch := Filter(ts, st);
      }
    } else {
      if q.search.Some? && q.search.value != "" {
        var se := (t: Task) => SearchMatches(t, q.search.value);
        FilterSame(ts, se, matches);
        bySearch := Filter(ts, se);
      } else {
        FilterAll(ts, matches);
        bySearch := ts;
      }
    }
    assert bySearch == Filter(ts, matches);
    assert Listing(s, q) == SortNewestFirst(bySearch);
  }

  /** Tasks created at the same instant appear in the listing in the order
      they are stored: the filters keep order and the sort is stable, so a
      tie that straddles two pages is split the same way on every call. */
  lemma ListingTieOrder(s: Store, q: TaskQuery, when: int)
    ensures CreatedAt(Listing(s, q), when) == Filter(CreatedAt(s.tasks, when), (t: Task) => Matches(t, q))
  {
    var kept := Filter(s.tasks, (t: Task) => Matches(t, q));
    ListingIsSortedFilter(s, q);
    assert CreatedAt(Listing(s, q), when) == CreatedAt(kept, when);
    FilterCreatedAt(s.tasks, (t: Task) => Matches(t, q), when);
  }

  /** `count()` agrees with `findAll`: a query with no filter reports every
      stored task in its `total`. */
  lemma CountIsUnfilteredTotal(s: Store)
    ensures Count(s) == FindAll(s, TaskQuery(None, None, None, None)).total
  {
    var listing := Listing(s, TaskQuery(None, None, None, None));
    assert listing == SortNewestFirst(s.tasks);
    assert |multiset(listing)| == |multiset(s.tasks)|;
  }

  /** `total` counts every task the status and search filters select, and
      does not depend on `page` or `limit`. */
  lemma FindAllTotal(s: Store, q: TaskQuery)
    ensures FindAll(s, q).total == MatchCount(s.tasks, q)
    ensures forall page, limit :: FindAll(s, q.(page := page, limit := limit)).total == MatchCount(s.tasks, q)
  {
    forall q': TaskQuery | q'.status == q.status && q'.search == q.search
      ensures FindAll(s, q').total == MatchCount(s.tasks, q)
    {
      ListingContents(s, q');
      FilterMatchCount(s.tasks, q');
      assert |Listing(s, q')| == |multiset(Listing(s, q'))|;
      assert forall t :: Matches(t, q') == Matches(t, q);
      MatchCountSameFilters(s.tasks, q, q');
    }
  }

  lemma {:induction false} MatchCountSameFilters(ts: seq<Task>, q: TaskQuery, q': TaskQuery)
    requires q'.status == q.status && q'.search == q.search
    ensures MatchCount(ts, q) == MatchCount(ts, q')
  {
    if ts != [] {
      MatchCountSameFilters(ts[1..], q, q');
    }
  }

  /** Every task the listing holds is stored and selected by the query. */
  lemma ListingMembers(s: Store, q: TaskQuery)
    ensures forall t :: t in Listing(s, q) ==> t in s.tasks && Matches(t, q)
  {
    ListingContents(s, q);
    forall t | t in Listing(s, q) ensures t in s.tasks && Matches(t, q) {
      assert t in multiset(Listing(s, q));
    }
  }

  /** Every task on a page is stored and selected by the query, and the page
      is ordered newest first. */
  lemma FindAllData(s: Store, q: TaskQuery)
    ensures forall t :: t in FindAll(s, q).data ==> t in s.tasks && Matches(t, q)
    ensures NewestFirst(FindAll(s, q).data)
  {
    var listing := Listing(s, q);
    var r := FindAll(s, q);
    var a := SliceIndex(PageStart(r.page, r.limit), |listing|);
    assert r.data == Page(listing, r.page, r.limit);
    ListingMembers(s, q);
    PageFrom(listing, r.page, r.limit);
    NewestFirstWindow(listing, r.data, a);
  }

  /** `page` and `limit` take the given value unless it is absent or 0, in
      which case they are 1 and 10. */
  lemma FindAllDefaults(s: Store, q: TaskQuery)
    ensures q.page.None? || q.page == Some(0) ==> FindAll(s, q).page == 1
    ensures q.page.Some? && q.page != Some(0) ==> FindAll(s, q).page == q.page.value
    ensures q.limit.None? || q.limit == Some(0) ==> FindAll(s, q).limit == 10
    ensures q.limit.Some? && q.limit != Some(0) ==> FindAll(s, q).limit == q.limit.value
  {
  }

  /** With a positive page and limit, `data` is the window
      `[(page - 1) * limit, (page - 1) * limit + limit)` of the listing cut
      off at its end: at most `limit` tasks, none once the window starts at
      or past `total`. `totalPages` is `total / limit` rounded up. */
  lemma FindAllWindow(s: Store, q: TaskQuery)
    requires OrDefault(q.page, DefaultPage) >= 1 && OrDefault(q.limit, DefaultLimit) >= 1
    ensures |FindAll(s, q).data| <= FindAll(s, q).limit
    ensures var r := FindAll(s, q); var start := (r.page - 1) * r.limit;
      && 0 <= start
      && (start >= r.total ==> r.data == [])
      && (start < r.total ==> r.data == Listing(s, q)[start..Min(start + r.limit, r.total)])
    ensures var r := FindAll(s, q);
      (r.totalPages - 1) * r.limit < r.total <= r.totalPages * r.limit
  {
    var r := FindAll(s, q);
    PageWindow(Listing(s, q), r.page, r.limit);
    CeilDivBounds(r.total, r.limit);
  }

  /** Pages 1 through `k` of a query, fetched one `findAll` call at a time. */
  function Walk(s: Store, q: TaskQuery, k: nat): seq<Task>
  {
    if k == 0 then [] else Walk(s, q, k - 1) + FindAll(s, q.(page := Some(k))).data
  }

  /** Fetching pages 1 through `totalPages` with the same filters and a
      positive limit returns every selected task exactly once, newest first. */
  lemma FindAllPagesCover(s: Store, q: TaskQuery)
    requires OrDefault(q.limit, DefaultLimit) >= 1
    ensures FindAll(s, q).totalPages >= 0
    ensures Walk(s, q, FindAll(s, q).totalPages) == Listing(s, q)
  {
    var r := FindAll(s, q);
    PagesCover(Listing(s, q), r.limit);
    WalkIsPages(s, q, r.totalPages);
  }

  /** With a positive limit, every page after `totalPages` is empty. */
  lemma FindAllPastLastPage(s: Store, q: TaskQuery, p: int)
    requires OrDefault(q.limit, DefaultLimit) >= 1
    ensures p > FindAll(s, q).totalPages ==> FindAll(s, q.(page := Some(p))).data == []
  {
    var r := FindAll(s, q);
    if p > r.totalPages {
      PagesCover(Listing(s, q), r.limit);
      assert Listing(s, q.(page := Some(p))) == Listing(s, q);
    }
  }

  /** Asking for page `p` (not 0) with otherwise the same query returns page
      `p` of the same listing, cut with the same limit. */
  lemma FindAllPage(s: Store, q: TaskQuery, p: int)
    requires p != 0
    ensures FindAll(s, q.(page := Some(p))).data == Page(Listing(s, q), p, FindAll(s, q).limit)
  {
    var q' := q.(page := Some(p));
    assert Listing(s, q') == Listing(s, q);
  }

  /** If the first `k - 1` fetches walk the first `k - 1` pages, the next
      fetch extends the walk by page `k`. */
  lemma WalkStep(s: Store, q: TaskQuery, k: nat)
    requires k > 0
    requires Walk(s, q, k - 1) == Pages(Listing(s, q), k - 1, FindAll(s, q).limit)
    ensures Walk(s, q, k) == Pages(Listing(s, q), k, FindAll(s, q).limit)
  {
    FindAllPage(s, q, k);
  }

  lemma {:induction false} WalkIsPages(s: Store, q: TaskQuery, k: nat)
    ensures Walk(s, q, k) == Pages(Listing(s, q), k, FindAll(s, q).limit)
  {
    var listing, limit := Listing(s, q), FindAll(s, q).limit;
    var i := 0;
    while i < k
      invariant 0 <= i <= k
      invariant Walk(s, q, i) == Pages(listing, i, limit)
    {
      i := i + 1;
      WalkStep(s, q, i);
    }
  }

  /** Search ignores case on both sides: "Buy milk" is found by "MILK". */
  lemma SearchExample()
    ensures var t := Task("1", "Buy milk", "groceries", Pending, 0, 0);
      Matches(t, TaskQuery(None, None, None, Some("MILK")))
  {
    var t := Task("1", "Buy milk", "groceries", Pending, 0, 0);
    assert Lower("MILK") == "milk";
    assert Lower(t.title) == "buy milk";
    assert OccursAt(Lower(t.title), Lower("MILK"), 4);
  }

  // ----- properties of the record operations -----

  /** No two stored tasks share an id. */
  predicate UniqueIds(ts: seq<Task>)
  {
    forall i, j :: 0 <= i < j < |ts| ==> ts[i].id != ts[j].id
  }

  /** After `create`, looking the id up finds the new task, unless an earlier
      task already carries that id, in which case that one is still found. */
  lemma CreateThenFind(s: Store, t: Task)
    ensures FindById(Create(s, t).0, t.id) ==
              if HasId(s.tasks, t.id) then FindById(s, t.id) else Some(t)
    ensures !HasId(s.tasks, t.id) ==> FindById(Create(s, t).0, t.id) == Some(t)
  {
    var s' := Create(s, t).0;
    if HasId(s.tasks, t.id) {
      var i := FirstIndex(s.tasks, t.id).value;
      assert s'.tasks[i] == s.tasks[i];
      assert forall j :: 0 <= j < i ==> s'.tasks[j] == s.tasks[j];
      assert IsFirstWithId(s'.tasks, t.id, i);
      var i' := FirstIndex(s'.tasks, t.id).value;
      FirstWithIdUnique(s'.tasks, t.id, i, i');
    } else {
      assert s'.tasks[|s.tasks|] == t;
      assert forall j :: 0 <= j < |s.tasks| ==> s'.tasks[j] == s.tasks[j];
      assert IsFirstWithId(s'.tasks, t.id, |s.tasks|);
      var i' := FirstIndex(s'.tasks, t.id).value;
      FirstWithIdUnique(s'.tasks, t.id, |s.tasks|, i');
    }
  }

  /** `create` with an id not yet stored keeps the ids unique. */
  lemma CreateKeepsUniqueIds(s: Store, t: Task)
    requires UniqueIds(s.tasks) && !HasId(s.tasks, t.id)
    ensures UniqueIds(Create(s, t).0.tasks)
  {
    var ts := Create(s, t).0.tasks;
    forall i, j | 0 <= i < j < |ts| ensures ts[i].id != ts[j].id {
      if j == |s.tasks| {
        assert ts[i] == s.tasks[i];
      } else {
        assert ts[i] == s.tasks[i] && ts[j] == s.tasks[j];
      }
    }
  }

  /** With unique ids, after `deleteById` the id is no longer found. */
  lemma DeleteThenFind(s: Store, id: string)
    requires UniqueIds(s.tasks)
    ensures FindById(DeleteById(s, id).0, id).None?
    ensures UniqueIds(DeleteById(s, id).0.tasks)
  {
    if HasId(s.tasks, id) {
      var i := FirstIndex(s.tasks, id).value;
      var ts := DeleteById(s, id).0.tasks;
      assert ts == s.tasks[..i] + s.tasks[i + 1..];
      forall k | 0 <= k < |ts| ensures ts[k].id != id {
        if k < i {
          assert ts[k] == s.tasks[k];
        } else {
          assert ts[k] == s.tasks[k + 1];
        }
      }
      forall a, b | 0 <= a < b < |ts| ensures ts[a].id != ts[b].id {
        var a' := if a < i then a else a + 1;
        var b' := if b < i then b else b + 1;
        assert ts[a] == s.tasks[a'] && ts[b] == s.tasks[b'];
      }
    }
  }

  /** `updateById` rewrites at most one task, into its merge with the patch:
      every task afterwards is a stored task or the merge of one. */
  lemma UpdateTasksFrom(s: Store, id: string, patch: TaskPatch, now: int)
    ensures |UpdateById(s, id, patch, now).0.tasks| == |s.tasks|
    ensures forall k :: 0 <= k < |s.tasks| ==>
              UpdateById(s, id, patch, now).0.tasks[k] == s.tasks[k] ||
              UpdateById(s, id, patch, now).0.tasks[k] == Merge(s.tasks[k], patch, now)
  {
    if HasId(s.tasks, id) {
      var i := FirstIndex(s.tasks, id).value;
      assert IsFirstWithId(s.tasks, id, i);
    }
  }

  /** A created task is listed by a query that filters on its own status. */
  lemma CreateThenListed(s: Store, t: Task)
    ensures t in Listing(Create(s, t).0, TaskQuery(None, None, Some(t.status), None))
  {
    var s1 := Create(s, t).0;
    var q := TaskQuery(None, None, Some(t.status), None);
    ListingContents(s1, q);
    assert s1.tasks[|s.tasks|] == t;
    assert multiset(s1.tasks)[t] > 0;
    assert Matches(t, q);
    assert multiset(Listing(s1, q))[t] > 0;
  }

  /** `updateById` answers with the task `findById` would have found, merged
      with the patch, and with nothing when there is none. */
  lemma UpdateReturnsMerged(s: Store, id: string, patch: TaskPatch, now: int)
    ensures UpdateById(s, id, patch, now).1 ==
              if FindById(s, id).Some? then Some(Merge(FindById(s, id).value, patch, now)) else None
  {
    if HasId(s.tasks, id) {
      var i := FirstIndex(s.tasks, id).value;
      assert IsFirstWithId(s.tasks, id, i);
    }
  }

  /** A patch that does not carry an id leaves every id where it was, so the
      updated task is found under its id and the ids stay unique. */
  lemma UpdateThenFind(s: Store, id: string, patch: TaskPatch, now: int)
    requires patch.id.None?
    ensures var r := UpdateById(s, id, patch, now);
      forall i :: 0 <= i < |s.tasks| ==> r.0.tasks[i].id == s.tasks[i].id
    ensures var r := UpdateById(s, id, patch, now);
      FindById(r.0, id) == r.1
    ensures UniqueIds(s.tasks) ==> UniqueIds(UpdateById(s, id, patch, now).0.tasks)
  {
    var r := UpdateById(s, id, patch, now);
    if HasId(s.tasks, id) {
      var i := FirstIndex(s.tasks, id).value;
      assert IsFirstWithId(r.0.tasks, id, i);
      var i' := FirstIndex(r.0.tasks, id).value;
      FirstWithIdUnique(r.0.tasks, id, i, i');
    }
  }

  /** A query whose `page` and `limit` are absent or not negative is paged
      with a page and a limit of at least 1, so `data` holds at most `limit`
      tasks (and `FindAllWindow` and `FindAllPagesCover` apply). */
  lemma NonNegativeQueryPaging(s: Store, q: TaskQuery)
    requires q.page.Some? ==> q.page.value >= 0
    requires q.limit.Some? ==> q.limit.value >= 0
    ensures FindAll(s, q).page >= 1 && FindAll(s, q).limit >= 1
    ensures |FindAll(s, q).data| <= FindAll(s, q).limit
  {
    FindAllWindow(s, q);
  }
}
