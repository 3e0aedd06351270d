/** How the validators feed the store: a validated list query drives
    `findAll`, a validated update body drives `updateById`, and a record goes
    through create, list, update and delete. */
module Pipeline {
  import opened Common
  import opened TaskModel
  import opened Database
  import opened Validation

  /** The patch a validated update body hands to `updateById`: only title,
      description and status can be present. */
  function PatchOf(u: UpdateTaskBody): (r: TaskPatch)
    ensures r.id.None? && r.createdAt.None? && r.updatedAt.None?
    ensures r.title == u.title && r.description == u.description && r.status == u.status
  {
    TaskPatch(None, u.title, u.description, u.status, None, None)
  }

  /** A validated query never carries a negative `page` or `limit`. */
  lemma ValidatedQueryNonNegative(p: Payload, q: TaskQuery)
    requires ValidateQuery(p) == Pass(q)
    ensures q.page.Some? ==> q.page.value >= 0
    ensures q.limit.Some? ==> q.limit.value >= 0
  {
  }

  /** A validated query is paged with a page and a limit of at least 1, so
      `data` holds at most `limit` tasks. */
  lemma ValidatedQueryPaging(p: Payload, q: TaskQuery, s: Store)
    requires ValidateQuery(p) == Pass(q)
    ensures FindAll(s, q).page >= 1 && FindAll(s, q).limit >= 1
    ensures |FindAll(s, q).data| <= FindAll(s, q).limit
  {
    ValidatedQueryNonNegative(p, q);
    NonNegativeQueryPaging(s, q);
  }

  /** `page=0` passes the query validator as the number 0, and `findAll` then
      serves page 1. */
  lemma ZeroPageIsFirstPage(s: Store)
    ensures ValidateQuery(Object(map["page" := Str("0")])) == Pass(TaskQuery(Some(0), None, None, None))
    ensures FindAll(s, TaskQuery(Some(0), None, None, None)).page == 1
  {
    var fields := map["page" := Str("0")];
    assert Field(fields, "page") == Str("0");
    assert Field(fields, "limit") == Undefined;
    assert Field(fields, "status") == Undefined;
    assert Field(fields, "search") == Undefined;
    assert AllDigits("0");
    assert DigitsValue("0") == 0;
  }

  /** Signs and decimal points fail the digit pattern: `page=-1` and
      `limit=1.5` are rejected. */
  lemma SignedAndFractionalRejected()
    ensures ValidateQuery(Object(map["page" := Str("-1")])).Fail?
    ensures ValidateQuery(Object(map["limit" := Str("1.5")])).Fail?
  {
    assert !IsDigit("-1"[0]);
    assert !IsDigit("1.5"[1]);
    assert Field(map["page" := Str("-1")], "page") == Str("-1");
    assert Field(map["limit" := Str("1.5")], "limit") == Str("1.5");
  }

  /** Applying a validated update body to a stored task replaces exactly the
      fields the body supplied, keeps the others, never touches the id or the
      creation time, and stamps `now`. */
  lemma ValidatedUpdateMerge(p: Payload, t: Task, now: int)
    requires ValidateUpdate(p).Pass?
    ensures var m := Merge(t, PatchOf(ValidateUpdate(p).value), now);
      && m.id == t.id && m.createdAt == t.createdAt && m.updatedAt == now
      && m.title == (if Field(p.fields, "title").Undefined? then t.title else Field(p.fields, "title").text)
      && m.description == (if Field(p.fields, "description").Undefined? then t.description
                           else Field(p.fields, "description").text)
      && (Field(p.fields, "status").Undefined? ==> m.status == t.status)
      && (!Field(p.fields, "status").Undefined? ==> StatusName(m.status) == Field(p.fields, "status").text)
  {
  }

  /** Merging a validated update body into a well-formed task that is not
      newer than `now` gives a well-formed task. */
  lemma ValidatedMergeWellFormed(p: Payload, t: Task, now: int)
    requires ValidateUpdate(p).Pass?
    requires WellFormed(t) && t.createdAt <= now
    ensures WellFormed(Merge(t, PatchOf(ValidateUpdate(p).value), now))
  {
  }

  /** Updating with a validated body keeps every task well formed (when the
      clock is not behind any creation time), never moves an id or a
      creation time, and keeps ids unique. */
  lemma ValidatedUpdateKeepsInvariants(p: Payload, s: Store, id: string, now: int)
    requires ValidateUpdate(p).Pass?
    requires forall t :: t in s.tasks ==> WellFormed(t) && t.createdAt <= now
    ensures var s' := UpdateById(s, id, PatchOf(ValidateUpdate(p).value), now).0;
      && |s'.tasks| == |s.tasks|
      && (forall t :: t in s'.tasks ==> WellFormed(t))
      && (forall i :: 0 <= i < |s.tasks| ==> s'.tasks[i].id == s.tasks[i].id && s'.tasks[i].createdAt == s.tasks[i].createdAt)
    ensures UniqueIds(s.tasks) ==> UniqueIds(UpdateById(s, id, PatchOf(ValidateUpdate(p).value), now).0.tasks)
  {
    var patch := PatchOf(ValidateUpdate(p).value);
    var s' := UpdateById(s, id, patch, now).0;
    UpdateThenFind(s, id, patch, now);
    UpdateTasksFrom(s, id, patch, now);
    forall k | 0 <= k < |s.tasks|
      ensures WellFormed(s'.tasks[k]) && s'.tasks[k].createdAt == s.tasks[k].createdAt
    {
      assert s.tasks[k] in s.tasks;
      ValidatedMergeWellFormed(p, s.tasks[k], now);
    }
    forall t | t in s'.tasks ensures WellFormed(t) {
      var k :| 0 <= k < |s'.tasks| && s'.tasks[k] == t;
    }
  }

  /** The life of one task: created with a fresh id it is listed under its
      status, an update of its status is seen by `findById`, and after
      `deleteById` it is gone. */
  lemma TaskLifecycle(s: Store, t: Task, now: int)
    requires UniqueIds(s.tasks) && !HasId(s.tasks, t.id) && t.status == Pending
    ensures var s1 := Create(s, t).0;
      t in Listing(s1, TaskQuery(None, None, Some(Pending), None))
    ensures var s1 := Create(s, t).0;
      var s2 := UpdateById(s1, t.id, PatchOf(UpdateTaskBody(None, None, Some(Completed))), now).0;
      FindById(s2, t.id) == Some(t.(status := Completed, updatedAt := now))
    ensures var s1 := Create(s, t).0;
      var s2 := UpdateById(s1, t.id, PatchOf(UpdateTaskBody(None, None, Some(Completed))), now).0;
      FindById(DeleteById(s2, t.id).0, t.id).None?
  {
    var s1 := Create(s, t).0;
    CreateThenListed(s, t);
    CreateThenFind(s, t);
    CreateKeepsUniqueIds(s, t);
    var patch := PatchOf(UpdateTaskBody(None, None, Some(Completed)));
    var r := UpdateById(s1, t.id, patch, now);
    UpdateReturnsMerged(s1, t.id, patch, now);
    UpdateThenFind(s1, t.id, patch, now);
    assert Merge(t, patch, now) == t.(status := Completed, updatedAt := now);
    DeleteThenFind(r.0, t.id);
  }
}
