/** What the columns show once a successful mutation has been followed by the
    refetch of the task list (components/kanban/kanban-board.tsx: every
    mutation's onSuccess invalidates the "tasks" query). */
module Refetch {
  import opened Types
  import opened Ordering
  import opened Store

  /** Removing the rows holding an id and taking a column commute. */
  lemma {:induction false} ColumnWithoutId(rows: seq<Task>, s: Status, id: string)
    ensures TasksByStatus(WithoutId(rows, id), s) == WithoutId(TasksByStatus(rows, s), id)
  {
    if rows != [] {
      ColumnWithoutId(rows[1..], s, id);
    }
  }

  /** The column of a table split around one row of that column. */
  lemma ColumnAroundIn(a: seq<Task>, m: Task, b: seq<Task>)
    ensures TasksByStatus(a + [m] + b, m.status)
      == TasksByStatus(a, m.status) + [m] + TasksByStatus(b, m.status)
  {
    TasksByStatusConcat(a + [m], b, m.status);
    TasksByStatusConcat(a, [m], m.status);
    assert TasksByStatus([m], m.status) == [m];
  }

  /** The column of a table split around one row of another column. */
  lemma ColumnAroundOut(a: seq<Task>, m: Task, b: seq<Task>, s: Status)
    requires m.status != s
    ensures TasksByStatus(a + [m] + b, s) == TasksByStatus(a + b, s)
  {
    TasksByStatusConcat(a + [m], b, s);
    TasksByStatusConcat(a, [m], s);
    TasksByStatusConcat(a, b, s);
    assert TasksByStatus([m], s) == [];
    assert TasksByStatus(a, s) + [] == TasksByStatus(a, s);
  }

  /** A table whose rows come from a table without position clashes, plus one
      row above every row of its column there, has no position clash either. */
  lemma DistinctWithTop(before: seq<Task>, after: seq<Task>, m: Task)
    requires PositionsDistinct(before)
    requires forall x :: x in before && x.status == m.status ==> x.position < m.position
    requires forall x :: x in after ==> x in before || x == m
    ensures PositionsDistinct(after)
  {
  }

  /** Adding a task at NextPosition: after the refetch it is the last task of
      its column, every other column is unchanged, and no two tasks of a column
      share a position if none did before. */
  lemma CreateAppendsToColumn(rows: seq<Task>, t: Task)
    requires SortedByPosition(rows)
    requires t.position == NextPosition(rows, t.status)
    ensures TasksByStatus(SortByPosition(rows + [t]), t.status) == TasksByStatus(rows, t.status) + [t]
    ensures forall s :: s != t.status ==>
      TasksByStatus(SortByPosition(rows + [t]), s) == TasksByStatus(rows, s)
    ensures PositionsDistinct(rows) ==> PositionsDistinct(SortByPosition(rows + [t]))
  {
    if PositionsDistinct(rows) {
      SortSameMembers(rows + [t]);
      DistinctWithTop(rows, SortByPosition(rows + [t]), t);
    }
    ColumnSorted(rows, t.status);
    ColumnOfSort(rows + [t], t.status);
    NextPositionSortsLast(rows, t);
    SortSorted(TasksByStatus(rows, t.status) + [t]);
    forall s | s != t.status
      ensures TasksByStatus(SortByPosition(rows + [t]), s) == TasksByStatus(rows, s)
    {
      ColumnOfSort(rows + [t], s);
      TasksByStatusConcat(rows, [t], s);
      assert TasksByStatus([t], s) == [];
      assert TasksByStatus(rows + [t], s) == TasksByStatus(rows, s);
      ColumnSorted(rows, s);
      SortSorted(TasksByStatus(rows, s));
    }
  }

  /** The table after patching the row at `k`, which alone holds `id`. */
  lemma PatchAt(rows: seq<Task>, id: string, changes: Changes, now: string, k: nat)
    requires UniqueIds(rows)
    requires k < |rows| && rows[k].id == id
    ensures PatchRows(rows, id, changes, now)
      == rows[..k] + [Patched(rows[k], changes, now)] + rows[k + 1..]
  {
    var patched := PatchRows(rows, id, changes, now);
    var split := rows[..k] + [Patched(rows[k], changes, now)] + rows[k + 1..];
    assert |patched| == |split|;
    forall i | 0 <= i < |rows| ensures patched[i] == split[i] {
      if i != k {
        assert rows[i].id != id;
      }
    }
  }

  /** Removing the row at `k`, which alone holds `id`. */
  lemma WithoutAt(rows: seq<Task>, id: string, k: nat)
    requires k < |rows| && rows[k].id == id
    requires id !in Ids(rows[..k]) && id !in Ids(rows[k + 1..])
    ensures WithoutId(rows, id) == rows[..k] + rows[k + 1..]
  {
    assert rows == rows[..k] + [rows[k]] + rows[k + 1..];
    WithoutIdConcat(rows[..k] + [rows[k]], rows[k + 1..], id);
    WithoutIdConcat(rows[..k], [rows[k]], id);
    WithoutAbsentId(rows[..k], id);
    WithoutAbsentId(rows[k + 1..], id);
    assert WithoutId([rows[k]], id) == [];
  }

  /** A sorted list with one row added above all of its rows comes back
      with that row last. */
  lemma SortWithTop(before: seq<Task>, m: Task, after: seq<Task>)
    requires SortedByPosition(before + after)
    requires forall t :: t in before + after ==> t.position < m.position
    ensures SortByPosition(before + [m] + after) == before + after + [m]
  {
    SortMaxLast(before, m, after);
    SortSorted(before + after);
  }

  /** The pieces of one column around the row at `k`, which alone holds `id`. */
  lemma ColumnPieces(rows: seq<Task>, id: string, k: nat, moved: Task, s: Status)
    requires SortedByPosition(rows)
    requires k < |rows| && rows[k].id == id
    requires WithoutId(rows, id) == rows[..k] + rows[k + 1..]
    ensures var A, B := TasksByStatus(rows[..k], s), TasksByStatus(rows[k + 1..], s);
      && (s == moved.status ==>
           TasksByStatus(SortByPosition(rows[..k] + [moved] + rows[k + 1..]), s)
           == SortByPosition(A + [moved] + B))
      && (s != moved.status ==>
           TasksByStatus(SortByPosition(rows[..k] + [moved] + rows[k + 1..]), s)
           == SortByPosition(A + B))
      && A + B == WithoutId(TasksByStatus(rows, s), id)
      && SortedByPosition(A + B)
      && forall t :: t in A + B ==> t in rows && t.status == s
  {
    var a, b := rows[..k], rows[k + 1..];
    ColumnOfSort(a + [moved] + b, s);
    TasksByStatusConcat(a, b, s);
    if s == moved.status {
      ColumnAroundIn(a, moved, b);
    } else {
      ColumnAroundOut(a, moved, b, s);
    }
    ColumnWithoutId(rows, s, id);
    RemoveAtKeeps(rows, k);
    ColumnSorted(a + b, s);
  }

  /** One column after the row at `k` (alone holding `id`) is replaced by
      `moved`, a row above every row of the moved-to column. */
  lemma MovedColumn(rows: seq<Task>, id: string, k: nat, moved: Task, s: Status)
    requires SortedByPosition(rows)
    requires k < |rows| && rows[k].id == id
    requires WithoutId(rows, id) == rows[..k] + rows[k + 1..]
    requires forall t :: t in rows && t.status == moved.status ==> t.position < moved.position
    ensures TasksByStatus(SortByPosition(rows[..k] + [moved] + rows[k + 1..]), s)
      == WithoutId(TasksByStatus(rows, s), id) + (if s == moved.status then [moved] else [])
  {
    var A: seq<Task>, B: seq<Task> := TasksByStatus(rows[..k], s), TasksByStatus(rows[k + 1..], s);
    ColumnPieces(rows, id, k, moved, s);
    if s == moved.status {
      SortWithTop(A, moved, B);
    } else {
      SortSorted(A + B);
      assert WithoutId(TasksByStatus(rows, s), id) + [] == A + B;
    }
  }

  /** Moving the task `id` to column `dst` at NextPosition: after the refetch
      it is the last task of `dst`, it has left every other column, the other
      tasks of every column keep their order, and no two tasks of a column
      share a position if none did before. */
  lemma MoveAppendsToColumn(rows: seq<Task>, id: string, dst: Status, now: string)
    requires SortedByPosition(rows)
    requires UniqueIds(rows)
    requires id in Ids(rows)
    ensures
      var moved := Patched(RowWithId(rows, id), Move(dst, NextPosition(rows, dst)), now);
      var after := SortByPosition(PatchRows(rows, id, Move(dst, NextPosition(rows, dst)), now));
      && TasksByStatus(after, dst) == WithoutId(TasksByStatus(rows, dst), id) + [moved]
      && (forall s :: s != dst ==> TasksByStatus(after, s) == WithoutId(TasksByStatus(rows, s), id))
      && (PositionsDistinct(rows) ==> PositionsDistinct(after))
  {
    var p := NextPosition(rows, dst);
    var k := SplitAtId(rows, id);
    var a, r, b := rows[..k], rows[k], rows[k + 1..];
    var moved := Patched(r, Move(dst, p), now);
    var patched := PatchRows(rows, id, Move(dst, p), now);
    PatchAt(rows, id, Move(dst, p), now, k);
    WithoutAt(rows, id, k);
    forall s
      ensures TasksByStatus(SortByPosition(patched), s)
        == WithoutId(TasksByStatus(rows, s), id) + (if s == dst then [moved] else [])
    {
      MovedColumn(rows, id, k, moved, s);
    }
    if PositionsDistinct(rows) {
      SortSameMembers(patched);
      forall x | x in SortByPosition(patched) ensures x in rows || x == moved {
        assert x in patched;
      }
      DistinctWithTop(rows, SortByPosition(patched), moved);
    }
  }

  /** Editing the title and description: the refetch returns the rows in the
      same order, and no two tasks of a column come to share a position. */
  lemma EditKeepsOrder(rows: seq<Task>, id: string, title: string, description: string, now: string)
    requires SortedByPosition(rows)
    ensures
      var after := PatchRows(rows, id, Edit(title, description), now);
      && SortByPosition(after) == after
      && (PositionsDistinct(rows) ==> PositionsDistinct(after))
  {
    var after := PatchRows(rows, id, Edit(title, description), now);
    assert forall i :: 0 <= i < |rows| ==> after[i].position == rows[i].position;
    SortSorted(after);
    if PositionsDistinct(rows) {
      EditKeepsDistinct(rows, after);
    }
  }

  /** Rows that keep their ids, columns and positions index by index keep
      every column free of position clashes. */
  lemma EditKeepsDistinct(rows: seq<Task>, after: seq<Task>)
    requires PositionsDistinct(rows)
    requires |after| == |rows|
    requires forall i :: 0 <= i < |rows| ==>
      after[i].id == rows[i].id && after[i].status == rows[i].status && after[i].position == rows[i].position
    ensures PositionsDistinct(after)
  {
    forall x, y | x in after && y in after && x.id != y.id && x.status == y.status
      ensures x.position != y.position
    {
      var i :| 0 <= i < |after| && after[i] == x;
      var j :| 0 <= j < |after| && after[j] == y;
      assert rows[i] in rows && rows[j] in rows;
    }
  }

  /** Deleting by id: the refetch returns the remaining rows in the same
      order, the id is gone, and when it was present exactly one row was
      removed; otherwise nothing was. */
  lemma DeleteRemovesOne(rows: seq<Task>, id: string)
    requires SortedByPosition(rows)
    requires UniqueIds(rows)
    ensures
      var after := WithoutId(rows, id);
      && SortByPosition(after) == after
      && UniqueIds(after)
      && Ids(after) == Ids(rows) - {id}
      && (id in Ids(rows) ==> |after| == |rows| - 1)
      && (id !in Ids(rows) ==> after == rows)
  {
    var after := WithoutId(rows, id);
    if id in Ids(rows) {
      var k := SplitAtId(rows, id);
      WithoutAt(rows, id, k);
      RemoveAtKeeps(rows, k);
      IdsConcat(rows[..k] + [rows[k]], rows[k + 1..]);
      IdsConcat(rows[..k], [rows[k]]);
      IdsConcat(rows[..k], rows[k + 1..]);
      IdsSingleton(rows[k]);
    } else {
      WithoutAbsentId(rows, id);
    }
    SortSorted(after);
  }

  /** Deleting by id: every column loses exactly the task with that id and
      keeps the order of the others, and no position clash appears. */
  lemma DeleteKeepsColumns(rows: seq<Task>, id: string)
    ensures forall s :: TasksByStatus(WithoutId(rows, id), s) == WithoutId(TasksByStatus(rows, s), id)
    ensures PositionsDistinct(rows) ==> PositionsDistinct(WithoutId(rows, id))
  {
    forall s ensures TasksByStatus(WithoutId(rows, id), s) == WithoutId(TasksByStatus(rows, s), id) {
      ColumnWithoutId(rows, s, id);
    }
  }

  // ---------------------------------------------------------------------------
  // The store may return rows of equal position in any order.
  // ---------------------------------------------------------------------------

  /** Rows whose positions strictly increase. */
  predicate StrictlyByPosition(s: seq<Task>) {
    forall i, j :: 0 <= i < j < |s| ==> s[i].position < s[j].position
  }

  /** Two lists in strictly increasing position order that hold the same
      rows start with the same row. */
  lemma SameFirst(x: seq<Task>, y: seq<Task>)
    requires StrictlyByPosition(x) && StrictlyByPosition(y)
    requires x != [] && y != []
    requires forall t :: t in x <==> t in y
    ensures x[0] == y[0]
  {
    assert x[0] in x && y[0] in y;
    var k :| 0 <= k < |y| && y[k] == x[0];
    var l :| 0 <= l < |x| && x[l] == y[0];
    assert x[0].position <= x[l].position;
    assert k == 0;
  }

  /** The rows after the first are the rows less the first. */
  lemma TailMultiset(x: seq<Task>)
    requires x != []
    ensures multiset(x[1..]) == multiset(x) - multiset{x[0]}
  {
    assert x == [x[0]] + x[1..];
  }

  /** Lists holding the same rows as multisets have the same length and
      the same members. */
  lemma SameMembers(x: seq<Task>, y: seq<Task>)
    requires multiset(x) == multiset(y)
    ensures |x| == |y|
    ensures forall t :: t in x <==> t in y
  {
    assert |x| == |multiset(x)|;
    forall t ensures t in x <==> t in y {
      assert t in x <==> t in multiset(x);
      assert t in y <==> t in multiset(y);
    }
  }

  /** Two lists in strictly increasing position order that hold the same
      rows are the same list. */
  lemma {:induction false} StrictOrderUnique(x: seq<Task>, y: seq<Task>)
    requires StrictlyByPosition(x) && StrictlyByPosition(y)
    requires multiset(x) == multiset(y)
    ensures x == y
  {
    if x != [] {
      SameMembers(x, y);
      SameFirst(x, y);
      TailMultiset(x);
      TailMultiset(y);
      StrictOrderUnique(x[1..], y[1..]);
      assert x == [x[0]] + x[1..];
      assert y == [y[0]] + y[1..];
    }
  }

  /** Dropping the first row keeps one row per id and no position clash. */
  lemma TailDistinct(rows: seq<Task>)
    requires rows != [] && UniqueIds(rows) && PositionsDistinct(rows)
    ensures UniqueIds(rows[1..]) && PositionsDistinct(rows[1..])
  {
    assert forall t :: t in rows[1..] ==> t in rows;
  }

  /** The first row of a sorted list lies strictly below every later row of
      its column. */
  lemma FirstStrictlyBelow(rows: seq<Task>, t: Task)
    requires rows != [] && SortedByPosition(rows) && UniqueIds(rows) && PositionsDistinct(rows)
    requires t in rows[1..] && t.status == rows[0].status
    ensures rows[0].position < t.position
  {
    var k :| 0 <= k < |rows[1..]| && rows[1..][k] == t;
    assert rows[k + 1] == t;
    assert rows[0].id != t.id;
  }

  /** With one row per id and no position clash, each column of a sorted
      list is in strictly increasing position order. */
  lemma {:induction false} StrictColumn(rows: seq<Task>, s: Status)
    requires SortedByPosition(rows) && UniqueIds(rows) && PositionsDistinct(rows)
    ensures StrictlyByPosition(TasksByStatus(rows, s))
  {
    if rows != [] {
      var rest := rows[1..];
      TailDistinct(rows);
      StrictColumn(rest, s);
      var column := TasksByStatus(rest, s);
      if rows[0].status == s {
        forall t | t in column
          ensures rows[0].position < t.position
        {
          FirstStrictlyBelow(rows, t);
        }
        assert TasksByStatus(rows, s) == [rows[0]] + column;
      }
    }
  }

  /** Whatever order the store gives rows of equal position, every column
      shows the same tasks in the same order, provided no two tasks of one
      column share a position: any sorted listing of the table has the
      columns of the model's query. */
  lemma ColumnsIgnoreTies(rows: seq<Task>, listing: seq<Task>, s: Status)
    requires UniqueIds(rows) && PositionsDistinct(rows)
    requires SortedByPosition(listing) && UniqueIds(listing)
    requires multiset(listing) == multiset(rows)
    ensures TasksByStatus(listing, s) == TasksByStatus(SortByPosition(rows), s)
  {
    var sorted := SortByPosition(rows);
    SortKeepsUniqueIds(rows);
    SortSameMembers(rows);
    forall t | t in listing ensures t in rows {
      assert t in multiset(listing);
    }
    StrictColumn(sorted, s);
    StrictColumn(listing, s);
    forall t
      ensures multiset(TasksByStatus(listing, s))[t] == multiset(TasksByStatus(sorted, s))[t]
    {
      TasksByStatusCount(listing, s, t);
      TasksByStatusCount(sorted, s, t);
    }
    StrictOrderUnique(TasksByStatus(listing, s), TasksByStatus(sorted, s));
  }
}
