/**
 * The task list of the productivity dashboard as values: the Task record, the
 * three list edits the TaskList component performs (toggle completion, delete,
 * reorder by drag and drop) and the overdue flag each task row shows.
 */
module Tasks {
  import opened Wrappers

  datatype TaskStatus = Todo | InProgress | Completed

  datatype Priority = Low | Medium | High

  /**
   * A task. `dueDate` is the instant the task's due-date string denotes, in
   * milliseconds since the epoch (the value `new Date(dueDate)` compares by).
   */
  datatype Task = Task(
    id: string,
    title: string,
    description: string,
    status: TaskStatus,
    priority: Priority,
    dueDate: int,
    pomodoroSessions: nat,
    completedSessions: nat)

  /** No two tasks of the list share an id. */
  predicate UniqueIds(ts: seq<Task>) {
    forall i, j :: 0 <= i < |ts| && 0 <= j < |ts| && ts[i].id == ts[j].id ==> i == j
  }

  /** The list the component starts with; due dates are midnight UTC of the given days. */
  function MockTasks(): (ts: seq<Task>)
    ensures |ts| == 4 && UniqueIds(ts)
  {
    [ Task("1", "Design new landing page",
           "Create wireframes and mockups for the new product landing page",
           InProgress, High, 1726790400000 /* 2024-09-20 */, 4, 2),
      Task("2", "Write blog post about productivity",
           "Research and write a comprehensive blog post about productivity techniques",
           Todo, Medium, 1726963200000 /* 2024-09-22 */, 3, 0),
      Task("3", "Review pull requests",
           "Review and provide feedback on pending pull requests",
           Completed, High, 1726617600000 /* 2024-09-18 */, 2, 2),
      Task("4", "Team standup meeting",
           "Daily standup meeting with the development team",
           Todo, Low, 1726704000000 /* 2024-09-19 */, 1, 0) ]
  }

  // ---------------------------------------------------------------------------
  // The overdue flag
  // ---------------------------------------------------------------------------

  /** A task is overdue when its due instant lies before `now` and it is not completed. */
  predicate IsOverdue(t: Task, now: int) {
    t.dueDate < now && t.status != Completed
  }

  lemma CompletedNeverOverdue(t: Task, now: int)
    ensures t.status == Completed ==> !IsOverdue(t, now)
  {
  }

  // ---------------------------------------------------------------------------
  // handleToggleComplete
  // ---------------------------------------------------------------------------

  /**
   * A completed task goes back to todo with no sessions done; any other task is
   * completed with all its planned sessions done. Nothing else changes.
   */
  function ToggleTask(t: Task): (r: Task)
    ensures t.status == Completed ==> r.status == Todo && r.completedSessions == 0
    ensures t.status != Completed ==> r.status == Completed && r.completedSessions == t.pomodoroSessions
    ensures r.(status := t.status, completedSessions := t.completedSessions) == t
  {
    t.(status := if t.status == Completed then Todo else Completed,
       completedSessions := if t.status == Completed then 0 else t.pomodoroSessions)
  }

  /** Toggle, at its place in the list, every task whose id is `id`. */
  function Toggle(ts: seq<Task>, id: string): (r: seq<Task>)
    ensures |r| == |ts|
    ensures forall i :: 0 <= i < |ts| ==> r[i].id == ts[i].id
    ensures forall i :: 0 <= i < |ts| && ts[i].id != id ==> r[i] == ts[i]
  {
    seq(|ts|, i requires 0 <= i < |ts| => if ts[i].id == id then ToggleTask(ts[i]) else ts[i])
  }

  lemma ToggleFrame(ts: seq<Task>, id: string)
    ensures var r := Toggle(ts, id);
      && |r| == |ts|
      && (forall i :: 0 <= i < |ts| ==> r[i].id == ts[i].id)
      && (forall i :: 0 <= i < |ts| && ts[i].id != id ==> r[i] == ts[i])
      && (forall i :: 0 <= i < |ts| && ts[i].id == id ==> r[i] == ToggleTask(ts[i]))
  {
  }

  lemma ToggleUnknownId(ts: seq<Task>, id: string)
    requires forall i :: 0 <= i < |ts| ==> ts[i].id != id
    ensures Toggle(ts, id) == ts
  {
  }

  /**
   * Toggling twice gives back a completed task whose sessions were all done;
   * any other task ends as todo with no sessions, so an in-progress task is not
   * restored.
   */
  lemma ToggleTwice(t: Task)
    ensures t.status == Completed && t.completedSessions == t.pomodoroSessions ==> ToggleTask(ToggleTask(t)) == t
    ensures t.status != Completed ==> ToggleTask(ToggleTask(t)) == t.(status := Todo, completedSessions := 0)
    ensures t.status == InProgress ==> ToggleTask(ToggleTask(t)) != t
  {
  }

  lemma ToggleKeepsUniqueIds(ts: seq<Task>, id: string)
    requires UniqueIds(ts)
    ensures UniqueIds(Toggle(ts, id))
  {
  }

  /** Toggling clears the overdue flag of a task, and raises it only on a completed task past its due instant. */
  lemma ToggleClearsOverdue(t: Task, now: int)
    ensures IsOverdue(t, now) ==> !IsOverdue(ToggleTask(t), now)
    ensures IsOverdue(ToggleTask(t), now) <==> t.status == Completed && t.dueDate < now
  {
  }

  // ---------------------------------------------------------------------------
  // handleDelete
  // ---------------------------------------------------------------------------

  /** The tasks whose id is not `id`, in their original order (`tasks.filter`). */
  function Delete(ts: seq<Task>, id: string): (r: seq<Task>)
    ensures |r| <= |ts|
    ensures forall t :: t in r ==> t in ts && t.id != id
    ensures forall t :: t in ts && t.id != id ==> t in r
    decreases |ts|
  {
    if ts == [] then []
    else if ts[0].id == id then Delete(ts[1..], id)
    else [ts[0]] + Delete(ts[1..], id)
  }

  /** `a` keeps some of the elements of `b`, in the order `b` has them. */
  predicate IsSubsequence<T(==)>(a: seq<T>, b: seq<T>)
    decreases |b|
  {
    a == [] || (b != [] && ((a[0] == b[0] && IsSubsequence(a[1..], b[1..])) || IsSubsequence(a, b[1..])))
  }

  /**
   * Delete removes every task with the id and nothing else: each other task
   * keeps its multiplicity, and the survivors stay in their relative order.
   */
  lemma {:induction false} DeleteExact(ts: seq<Task>, id: string)
    ensures var r := Delete(ts, id);
      && (forall t :: multiset(r)[t] == if t.id == id then 0 else multiset(ts)[t])
      && IsSubsequence(r, ts)
    decreases |ts|
  {
    if ts != [] {
      DeleteExact(ts[1..], id);
      assert ts == [ts[0]] + ts[1..];
      var r := Delete(ts, id);
      if ts[0].id != id {
        assert r[0] == ts[0] && r[1..] == Delete(ts[1..], id);
      }
    }
  }

  lemma {:induction false} DeleteIdempotent(ts: seq<Task>, id: string)
    ensures Delete(Delete(ts, id), id) == Delete(ts, id)
    decreases |ts|
  {
    if ts != [] {
      DeleteIdempotent(ts[1..], id);
      if ts[0].id != id {
        var rest := Delete(ts[1..], id);
        assert ([ts[0]] + rest)[1..] == rest;
      }
    }
  }

  lemma {:induction false} DeleteKeepsUniqueIds(ts: seq<Task>, id: string)
    requires UniqueIds(ts)
    ensures UniqueIds(Delete(ts, id))
    decreases |ts|
  {
    if ts != [] {
      assert UniqueIds(ts[1..]) by {
        forall i, j | 0 <= i < |ts[1..]| && 0 <= j < |ts[1..]| && ts[1..][i].id == ts[1..][j].id
          ensures i == j
        {
          assert ts[i + 1].id == ts[j + 1].id;
        }
      }
      DeleteKeepsUniqueIds(ts[1..], id);
    }
  }

  // ---------------------------------------------------------------------------
  // handleDragEnd
  // ---------------------------------------------------------------------------

  /**
   * `Array.prototype.findIndex` with the test `item.id === id`: the first
   * position holding that id, or -1.
   */
  function FindIndex(ts: seq<Task>, id: string): (i: int)
    ensures -1 <= i < |ts|
    ensures 0 <= i ==> ts[i].id == id && forall j :: 0 <= j < i ==> ts[j].id != id
    ensures i == -1 <==> forall j :: 0 <= j < |ts| ==> ts[j].id != id
    decreases |ts|
  {
    if ts == [] then -1
    else if ts[0].id == id then 0
    else
      var k := FindIndex(ts[1..], id);
      if k < 0 then -1 else k + 1
  }

  function RemoveAt<T>(s: seq<T>, i: nat): seq<T>
    requires i < |s|
  {
    s[..i] + s[i + 1..]
  }

  /** Take the element at `from` out and put it back so that it sits at `to`. */
  function Move<T>(s: seq<T>, from: nat, to: nat): (r: seq<T>)
    requires from < |s| && to < |s|
    ensures |r| == |s| && r[to] == s[from]
  {
    var rest := RemoveAt(s, from);
    rest[..to] + [s[from]] + rest[to..]
  }

  /**
   * arrayMove of @dnd-kit/sortable, whose source is not part of this model: by
   * assumption it is Move, with a negative `to` counted from the end of the list
   * as `Array.prototype.splice` does.
   */
  function ArrayMove<T>(s: seq<T>, from: nat, to: int): (r: seq<T>)
    requires from < |s| && -|s| <= to < |s|
    ensures |r| == |s| && multiset(r) == multiset(s)
    ensures r[if to < 0 then |s| + to else to] == s[from]
  {
    MoveShape(s, from, if to < 0 then |s| + to else to);
    Move(s, from, if to < 0 then |s| + to else to)
  }

  /**
   * The position of the old list that ends up at position `k` of
   * `Move(s, from, to)`.
   */
  function MoveSource(from: nat, to: nat, k: nat): nat {
    if k == to then from
    else
      var j := if k < to then k else k - 1;
      if j < from then j else j + 1
  }

  lemma MoveAt<T>(s: seq<T>, from: nat, to: nat, k: nat)
    requires from < |s| && to < |s| && k < |s|
    ensures |Move(s, from, to)| == |s|
    ensures MoveSource(from, to, k) < |s| && Move(s, from, to)[k] == s[MoveSource(from, to, k)]
  {
  }

  lemma MoveSourceInjective(from: nat, to: nat, k1: nat, k2: nat)
    requires MoveSource(from, to, k1) == MoveSource(from, to, k2)
    ensures k1 == k2
  {
  }

  /**
   * Move keeps every element: the moved one lands at `to`, and with it taken
   * out again the others read exactly as the old list without it.
   */
  lemma MoveShape<T>(s: seq<T>, from: nat, to: nat)
    requires from < |s| && to < |s|
    ensures var r := Move(s, from, to);
      && |r| == |s|
      && r[to] == s[from]
      && RemoveAt(r, to) == RemoveAt(s, from)
      && multiset(r) == multiset(s)
  {
    var rest := RemoveAt(s, from);
    var r := Move(s, from, to);
    assert r[..to] == rest[..to];
    assert r[to + 1..] == rest[to..];
    assert RemoveAt(r, to) == rest[..to] + rest[to..];
    assert rest[..to] + rest[to..] == rest;
    assert s == s[..from] + [s[from]] + s[from + 1..];
    calc {
      multiset(r);
      multiset(rest[..to]) + multiset([s[from]]) + multiset(rest[to..]);
      multiset(rest) + multiset([s[from]]);
      multiset(s[..from]) + multiset(s[from + 1..]) + multiset([s[from]]);
      multiset(s);
    }
  }

  /**
   * handleDragEnd: when the dragged task `activeId` is dropped over a different
   * target (or over nothing), move it from its position to the target's
   * position. The drag and drop library reports only drags of tasks in the list.
   */
  function DragEnd(ts: seq<Task>, activeId: string, over: Option<string>): (r: seq<Task>)
    requires exists i :: 0 <= i < |ts| && ts[i].id == activeId
    ensures |r| == |ts| && multiset(r) == multiset(ts)
  {
    if over == Some(activeId) then ts
    else
      var oldIndex := FindIndex(ts, activeId);
      var newIndex := if over.Some? then FindIndex(ts, over.value) else -1;
      ArrayMove(ts, oldIndex, newIndex)
  }

  lemma DragOntoItself(ts: seq<Task>, activeId: string)
    requires exists i :: 0 <= i < |ts| && ts[i].id == activeId
    ensures DragEnd(ts, activeId, Some(activeId)) == ts
  {
  }

  /**
   * Dropped over another task of the list, the dragged task lands at the
   * target's old position, the result is a permutation of the list, and all
   * other tasks keep their relative order.
   */
  lemma DragOntoOther(ts: seq<Task>, activeId: string, overId: string)
    requires overId != activeId
    requires exists i :: 0 <= i < |ts| && ts[i].id == activeId
    requires exists j :: 0 <= j < |ts| && ts[j].id == overId
    ensures var r, oldIndex, newIndex := DragEnd(ts, activeId, Some(overId)), FindIndex(ts, activeId), FindIndex(ts, overId);
      && 0 <= oldIndex && 0 <= newIndex
      && |r| == |ts| && multiset(r) == multiset(ts)
      && r[newIndex] == ts[oldIndex] && r[newIndex].id == activeId
      && RemoveAt(r, newIndex) == RemoveAt(ts, oldIndex)
  {
    MoveShape(ts, FindIndex(ts, activeId), FindIndex(ts, overId));
  }

  /**
   * Dropped over nothing (or over an id not in the list) the target index is
   * -1, so under the assumed arrayMove the dragged task goes to the end.
   */
  lemma DragOntoNothing(ts: seq<Task>, activeId: string, over: Option<string>)
    requires exists i :: 0 <= i < |ts| && ts[i].id == activeId
    requires over.Some? ==> forall j :: 0 <= j < |ts| ==> ts[j].id != over.value
    ensures var r, oldIndex := DragEnd(ts, activeId, over), FindIndex(ts, activeId);
      && 0 <= oldIndex
      && |r| == |ts| && multiset(r) == multiset(ts)
      && r[|ts| - 1] == ts[oldIndex]
      && RemoveAt(r, |ts| - 1) == RemoveAt(ts, oldIndex)
  {
    MoveShape(ts, FindIndex(ts, activeId), |ts| - 1);
  }

  lemma MoveKeepsUniqueIds(ts: seq<Task>, from: nat, to: nat)
    requires UniqueIds(ts) && from < |ts| && to < |ts|
    ensures UniqueIds(Move(ts, from, to))
  {
    var r := Move(ts, from, to);
    forall i, j | 0 <= i < |r| && 0 <= j < |r| && r[i].id == r[j].id
      ensures i == j
    {
      MoveAt(ts, from, to, i);
      MoveAt(ts, from, to, j);
      MoveSourceInjective(from, to, i, j);
    }
  }

  lemma DragKeepsUniqueIds(ts: seq<Task>, activeId: string, over: Option<string>)
    requires UniqueIds(ts)
    requires exists i :: 0 <= i < |ts| && ts[i].id == activeId
    ensures UniqueIds(DragEnd(ts, activeId, over))
  {
    if over != Some(activeId) {
      var from := FindIndex(ts, activeId);
      var newIndex := if over.Some? then FindIndex(ts, over.value) else -1;
      MoveKeepsUniqueIds(ts, from, if newIndex < 0 then |ts| + newIndex else newIndex);
    }
  }
}
