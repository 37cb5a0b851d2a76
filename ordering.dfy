/** The board's ordering rules (components/kanban/kanban-board.tsx):
    a column is the task list filtered by status, and a task added or moved
    to a column is placed one past the largest position already there. */
module Ordering {
  import opened Types

  /** Rows in ascending position order, as the tasks query asks the store for them. */
  predicate SortedByPosition(s: seq<Task>) {
    forall i, j :: 0 <= i < j < |s| ==> s[i].position <= s[j].position
  }

  /** The tasks of one column, in the order of the list (getTasksByStatus). */
  function TasksByStatus(tasks: seq<Task>, s: Status): (column: seq<Task>)
    ensures forall t :: t in column <==> t in tasks && t.status == s
    ensures |column| <= |tasks|
  {
    if tasks == [] then []
    else if tasks[0].status == s then [tasks[0]] + TasksByStatus(tasks[1..], s)
      else TasksByStatus(tasks[1..], s)
  }

  /** A column holds each task of its status as often as the list does, and
      no other task. */
  lemma {:induction false} TasksByStatusCount(tasks: seq<Task>, s: Status, t: Task)
    ensures multiset(TasksByStatus(tasks, s))[t] == if t.status == s then multiset(tasks)[t] else 0
  {
    if tasks != [] {
      assert tasks == [tasks[0]] + tasks[1..];
      TasksByStatusCount(tasks[1..], s, t);
    }
  }

  /** Filtering keeps the relative order of the list: the column of a
      concatenation is the concatenation of the columns. */
  lemma {:induction false} TasksByStatusConcat(a: seq<Task>, b: seq<Task>, s: Status)
    ensures TasksByStatus(a + b, s) == TasksByStatus(a, s) + TasksByStatus(b, s)
  {
    if a == [] {
      assert a + b == b;
    } else {
      assert (a + b)[1..] == a[1..] + b;
      TasksByStatusConcat(a[1..], b, s);
    }
  }

  /** Since the list arrives in ascending position order, so does every column. */
  lemma {:induction false} ColumnSorted(tasks: seq<Task>, s: Status)
    requires SortedByPosition(tasks)
    ensures SortedByPosition(TasksByStatus(tasks, s))
  {
    if tasks != [] {
      ColumnSorted(tasks[1..], s);
      var rest := TasksByStatus(tasks[1..], s);
      forall t | t in rest
        ensures tasks[0].position <= t.position
      {
        var k :| 0 <= k < |tasks[1..]| && tasks[1..][k] == t;
        assert tasks[k + 1] == t;
      }
    }
  }

  /** Every task is in exactly one of the three columns. */
  lemma ColumnsPartition(tasks: seq<Task>)
    ensures multiset(tasks) ==
      multiset(TasksByStatus(tasks, Todo))
      + multiset(TasksByStatus(tasks, InProgress))
      + multiset(TasksByStatus(tasks, Done))
  {
    var todo, doing, done :=
      TasksByStatus(tasks, Todo), TasksByStatus(tasks, InProgress), TasksByStatus(tasks, Done);
    forall t
      ensures multiset(tasks)[t] == multiset(todo)[t] + multiset(doing)[t] + multiset(done)[t]
    {
      TasksByStatusCount(tasks, Todo, t);
      TasksByStatusCount(tasks, InProgress, t);
      TasksByStatusCount(tasks, Done, t);
    }
  }

  /** The largest position in a non-empty column (`Math.max` over the positions). */
  function MaxPosition(column: seq<Task>): (m: int)
    requires column != []
    ensures forall t :: t in column ==> t.position <= m
    ensures exists t :: t in column && t.position == m
  {
    if |column| == 1 then column[0].position
    else
      var rest := MaxPosition(column[1..]);
      assert forall t :: t in column[1..] ==> t in column;
      if column[0].position > rest then column[0].position else rest
  }

  /** The position given to a task added or moved to column `s`: one past the
      largest position there, or 0 (that is, -1 + 1) when the column is empty. */
  function NextPosition(tasks: seq<Task>, s: Status): (p: int)
    ensures (forall t :: t in tasks ==> t.status != s) ==> p == 0
    ensures forall t :: t in tasks && t.status == s ==> t.position < p
    ensures (exists t :: t in tasks && t.status == s) ==>
              exists t :: t in tasks && t.status == s && t.position == p - 1
  {
    var statusTasks := TasksByStatus(tasks, s);
    var maxPosition := if |statusTasks| > 0 then MaxPosition(statusTasks) else -1;
    maxPosition + 1
  }

  /** Appending a row whose position is at least every position already
      there keeps a list sorted. */
  lemma AppendLastSorted(s: seq<Task>, t: Task)
    requires SortedByPosition(s)
    requires forall x :: x in s ==> x.position <= t.position
    ensures SortedByPosition(s + [t])
  {
    forall i, j | 0 <= i < j < |s + [t]|
      ensures (s + [t])[i].position <= (s + [t])[j].position
    {
      assert (s + [t])[i] == s[i];
      if j < |s| {
        assert (s + [t])[j] == s[j];
      }
    }
  }

  /** A task placed at NextPosition sorts last in its column. */
  lemma NextPositionSortsLast(tasks: seq<Task>, t: Task)
    requires SortedByPosition(TasksByStatus(tasks, t.status))
    requires t.position == NextPosition(tasks, t.status)
    ensures TasksByStatus(tasks + [t], t.status) == TasksByStatus(tasks, t.status) + [t]
    ensures SortedByPosition(TasksByStatus(tasks + [t], t.status))
  {
    var column := TasksByStatus(tasks, t.status);
    TasksByStatusConcat(tasks, [t], t.status);
    assert TasksByStatus([t], t.status) == [t];
    AppendLastSorted(column, t);
  }
}
