/** The newest-first ordering of the task list. The store sorts with the
    comparator `b.createdAt - a.createdAt`; JavaScript's `Array.prototype.sort`
    is stable, so tasks created at the same instant keep their list order.
    The model is a stable insertion sort. */
module Ordering {
  import opened TaskModel

  /** `createdAt` never increases along the list. */
  predicate NewestFirst(ts: seq<Task>)
  {
    forall i, j :: 0 <= i < j < |ts| ==> ts[i].createdAt >= ts[j].createdAt
  }

  /** The tasks of `ts` created at exactly `when`, in list order. */
  function CreatedAt(ts: seq<Task>, when: int): seq<Task>
  {
    if ts == [] then []
    else (if ts[0].createdAt == when then [ts[0]] else []) + CreatedAt(ts[1..], when)
  }

  /** Puts `t` in front of the first task created no later than it, so that
      among equal timestamps `t` comes first. */
  function Insert(t: Task, sorted: seq<Task>): seq<Task>
  {
    if sorted == [] || t.createdAt >= sorted[0].createdAt then [t] + sorted
    else [sorted[0]] + Insert(t, sorted[1..])
  }

  lemma {:induction false} InsertMultiset(t: Task, sorted: seq<Task>)
    ensures multiset(Insert(t, sorted)) == multiset(sorted) + multiset{t}
  {
    if sorted != [] && t.createdAt < sorted[0].createdAt {
      InsertMultiset(t, sorted[1..]);
      assert sorted == [sorted[0]] + sorted[1..];
    }
  }

  /** Prepending a task no older than anything in a newest-first list keeps
      it newest first. */
  lemma ConsNewestFirst(h: Task, ts: seq<Task>)
    requires NewestFirst(ts)
    requires forall k :: 0 <= k < |ts| ==> ts[k].createdAt <= h.createdAt
    ensures NewestFirst([h] + ts)
  {
    var r := [h] + ts;
    forall i, j | 0 <= i < j < |r| ensures r[i].createdAt >= r[j].createdAt {
      assert r[j] == ts[j - 1];
      if i > 0 {
        assert r[i] == ts[i - 1];
      }
    }
  }

  /** A run of consecutive elements of a newest-first list is newest first. */
  lemma NewestFirstWindow(ts: seq<Task>, r: seq<Task>, a: nat)
    requires NewestFirst(ts)
    requires forall k :: 0 <= k < |r| ==> a + k < |ts| && r[k] == ts[a + k]
    ensures NewestFirst(r)
  {
    forall i, j | 0 <= i < j < |r| ensures r[i].createdAt >= r[j].createdAt {
      var x, y := r[i], r[j];
      assert x == ts[a + i];
      assert y == ts[a + j];
    }
  }

  /** Inserting never brings in a task newer than both `t` and `sorted`. */
  lemma {:induction false} InsertBounded(t: Task, sorted: seq<Task>, bound: int)
    requires t.createdAt <= bound
    requires forall k :: 0 <= k < |sorted| ==> sorted[k].createdAt <= bound
    ensures forall k :: 0 <= k < |Insert(t, sorted)| ==> Insert(t, sorted)[k].createdAt <= bound
  {
    if sorted != [] && t.createdAt < sorted[0].createdAt {
      InsertBounded(t, sorted[1..], bound);
      var rest := Insert(t, sorted[1..]);
      assert forall k :: 1 <= k < |rest| + 1 ==> ([sorted[0]] + rest)[k] == rest[k - 1];
    }
  }

  lemma {:induction false} InsertNewestFirst(t: Task, sorted: seq<Task>)
    requires NewestFirst(sorted)
    ensures NewestFirst(Insert(t, sorted))
  {
    if sorted == [] || t.createdAt >= sorted[0].createdAt {
      ConsNewestFirst(t, sorted);
    } else {
      var tail := sorted[1..];
      assert NewestFirst(tail);
      InsertNewestFirst(t, tail);
      InsertBounded(t, tail, sorted[0].createdAt);
      ConsNewestFirst(sorted[0], Insert(t, tail));
    }
  }

  /** `CreatedAt` of a list with a known first element. */
  lemma CreatedAtCons(h: Task, ts: seq<Task>, when: int)
    ensures CreatedAt([h] + ts, when) == (if h.createdAt == when then [h] else []) + CreatedAt(ts, when)
  {
    assert ([h] + ts)[1..] == ts;
  }

  lemma {:induction false} InsertStable(t: Task, sorted: seq<Task>, when: int)
    ensures CreatedAt(Insert(t, sorted), when) == (if t.createdAt == when then [t] else []) + CreatedAt(sorted, when)
  {
    if sorted == [] || t.createdAt >= sorted[0].createdAt {
      CreatedAtCons(t, sorted, when);
    } else {
      var h, tail := sorted[0], sorted[1..];
      var rest := Insert(t, tail);
      assert Insert(t, sorted) == [h] + rest;
      assert [h] + tail == sorted;
      InsertStable(t, tail, when);
      CreatedAtCons(h, rest, when);
      CreatedAtCons(h, tail, when);
      var fromH := if h.createdAt == when then [h] else [];
      var fromT := if t.createdAt == when then [t] else [];
      // `t` is strictly older than `h`, so at most one of them is at `when`.
      assert fromH == [] || fromT == [];
      calc {
        CreatedAt(Insert(t, sorted), when);
        fromH + CreatedAt(rest, when);
        fromH + (fromT + CreatedAt(tail, when));
        { assert fromH + fromT == fromT + fromH; }
        fromT + (fromH + CreatedAt(tail, when));
        fromT + CreatedAt(sorted, when);
      }
    }
  }

  /** The stable newest-first sort: the result is ordered newest first, is a
      permutation of the input, and for every timestamp lists the tasks
      created at that instant in their input order. */
  function SortNewestFirst(ts: seq<Task>): (r: seq<Task>)
    ensures NewestFirst(r)
    ensures multiset(r) == multiset(ts)
    ensures forall when :: CreatedAt(r, when) == CreatedAt(ts, when)
  {
    if ts == [] then []
    else
      var rest := SortNewestFirst(ts[1..]);
      InsertMultiset(ts[0], rest);
      InsertNewestFirst(ts[0], rest);
      assert ts == [ts[0]] + ts[1..];
      assert forall when :: CreatedAt(Insert(ts[0], rest), when) == CreatedAt(ts, when) by {
        forall when ensures CreatedAt(Insert(ts[0], rest), when) == CreatedAt(ts, when) {
          InsertStable(ts[0], rest, when);
        }
      }
      Insert(ts[0], rest)
  }
}
