/** The task record, its status enum and the partial record an update
    carries. Timestamps are integers (milliseconds, as `Date.getTime()`
    returns them). */
module TaskModel {
  import opened Common

  /** `TaskStatus`, with its three string values. */
  datatype Status = Pending | Completed | InProgress

  /** The enum's values in declaration order. */
  const StatusNames: seq<string> := ["PENDING", "COMPLETED", "IN_PROGRESS"]

  function StatusName(s: Status): string
  {
    match s
    case Pending => "PENDING"
    case Completed => "COMPLETED"
    case InProgress => "IN_PROGRESS"
  }

  /** Reads an enum value back from its string: succeeds exactly on the three
      names, and yields the status of that name. */
  function ParseStatus(name: string): (r: Option<Status>)
    ensures r.Some? ==> StatusName(r.value) == name
    ensures r.None? <==> name !in StatusNames
    ensures r.None? ==> forall s: Status :: StatusName(s) != name
  {
    if name == "PENDING" then Some(Pending)
    else if name == "COMPLETED" then Some(Completed)
    else if name == "IN_PROGRESS" then Some(InProgress)
    else None
  }

  datatype Task = Task(
    id: string,
    title: string,
    description: string,
    status: Status,
    createdAt: int,
    updatedAt: int)

  /** `Partial<Task>`: any field may be absent (`None`). */
  datatype TaskPatch = TaskPatch(
    id: Option<string>,
    title: Option<string>,
    description: Option<string>,
    status: Option<Status>,
    createdAt: Option<int>,
    updatedAt: Option<int>)

  const EmptyPatch := TaskPatch(None, None, None, None, None, None)

  /** The record bounds the data model promises: title of 1 to 100
      characters, description of 1 to 500, and `updatedAt` never before
      `createdAt`. */
  predicate WellFormed(t: Task)
  {
    && 1 <= |t.title| <= 100
    && 1 <= |t.description| <= 500
    && t.createdAt <= t.updatedAt
  }

  /** `{ ...task, ...updates, updatedAt: now }`: each supplied field replaces
      the stored one, each absent field keeps its stored value, and
      `updatedAt` is `now` whatever the patch says. */
  function Merge(t: Task, p: TaskPatch, now: int): (r: Task)
    ensures r.updatedAt == now
    ensures r.id == (if p.id.Some? then p.id.value else t.id)
    ensures r.title == (if p.title.Some? then p.title.value else t.title)
    ensures r.description == (if p.description.Some? then p.description.value else t.description)
    ensures r.status == (if p.status.Some? then p.status.value else t.status)
    ensures r.createdAt == (if p.createdAt.Some? then p.createdAt.value else t.createdAt)
  {
    Task(
      p.id.GetOr(t.id),
      p.title.GetOr(t.title),
      p.description.GetOr(t.description),
      p.status.GetOr(t.status),
      p.createdAt.GetOr(t.createdAt),
      now)
  }

  /** Applying the same patch twice is applying it once (at the later time). */
  lemma MergeIdempotent(t: Task, p: TaskPatch, now1: int, now2: int)
    ensures Merge(Merge(t, p, now1), p, now2) == Merge(t, p, now2)
  {
  }

  /** The empty patch only refreshes the timestamp. */
  lemma MergeEmpty(t: Task, now: int)
    ensures Merge(t, EmptyPatch, now) == t.(updatedAt := now)
  {
  }
}
