/** The remote tasks table as an abstract sequence of rows: the list query
    that returns the rows in ascending position order, and the bodies of the
    create, update and delete mutations (components/kanban/kanban-board.tsx). */
module Store {
  import opened Types
  import opened Ordering

  datatype Error = NotAuthenticated | StoreError

  datatype Result<T> = Success(value: T) | Failure(error: Error)

  /** The ids present in the table. */
  function Ids(rows: seq<Task>): set<string> {
    set i | 0 <= i < |rows| :: rows[i].id
  }

  /** The id column is a primary key. */
  predicate UniqueIds(rows: seq<Task>) {
    forall i, j :: 0 <= i < j < |rows| ==> rows[i].id != rows[j].id
  }

  // ---------------------------------------------------------------------------
  // The list query: every row, ordered by position ascending.
  // ---------------------------------------------------------------------------

  /** Places `x` before the first row of a sorted list whose position is at
      least its own. */
  function Insert(x: Task, sorted: seq<Task>): (r: seq<Task>)
    ensures multiset(r) == multiset{x} + multiset(sorted)
    ensures SortedByPosition(sorted) ==> SortedByPosition(r)
  {
    if sorted == [] || x.position <= sorted[0].position then
      assert SortedByPosition(sorted) ==> SortedByPosition([x] + sorted) by {
        if SortedByPosition(sorted) {
          ConsSorted(x, sorted);
        }
      }
      [x] + sorted
    else
      assert sorted == [sorted[0]] + sorted[1..];
      var rest := Insert(x, sorted[1..]);
      assert SortedByPosition(sorted) ==> SortedByPosition([sorted[0]] + rest) by {
        if SortedByPosition(sorted) {
          forall t | t in rest ensures sorted[0].position <= t.position {
            assert t in multiset(rest);
            if t != x {
              assert t in sorted[1..];
              var i :| 0 <= i < |sorted[1..]| && sorted[1..][i] == t;
              assert sorted[i + 1] == t;
            }
          }
          ConsSorted(sorted[0], rest);
        }
      }
      [sorted[0]] + rest
  }

  /** Putting a row in front of a sorted list whose rows are all at or after
      its position keeps the list sorted. */
  lemma ConsSorted(h: Task, s: seq<Task>)
    requires SortedByPosition(s)
    requires forall t :: t in s ==> h.position <= t.position
    ensures SortedByPosition([h] + s)
  {
    forall i, j | 0 <= i < j < |[h] + s|
      ensures ([h] + s)[i].position <= ([h] + s)[j].position
    {
      assert ([h] + s)[j] == s[j - 1];
      if i > 0 {
        assert ([h] + s)[i] == s[i - 1];
      }
    }
  }

  /** The rows as the query returns them: a stable sort by position. */
  function SortByPosition(rows: seq<Task>): (r: seq<Task>)
    ensures SortedByPosition(r)
    ensures multiset(r) == multiset(rows)
  {
    if rows == [] then []
    else
      assert rows == [rows[0]] + rows[1..];
      Insert(rows[0], SortByPosition(rows[1..]))
  }

  /** Rows already in position order come back in the same order. */
  lemma {:induction false} SortSorted(rows: seq<Task>)
    requires SortedByPosition(rows)
    ensures SortByPosition(rows) == rows
  {
    if rows != [] {
      SortSorted(rows[1..]);
    }
  }

  /** Filtering by status and placing one row commute on a sorted list. */
  lemma {:induction false} ColumnOfInsert(x: Task, sorted: seq<Task>, s: Status)
    requires SortedByPosition(sorted)
    ensures TasksByStatus(Insert(x, sorted), s) ==
      if x.status == s then Insert(x, TasksByStatus(sorted, s)) else TasksByStatus(sorted, s)
  {
    if sorted == [] || x.position <= sorted[0].position {
      ColumnOfInsertFront(x, sorted, s);
    } else {
      var rest := sorted[1..];
      var h := sorted[0];
      assert sorted == [h] + rest;
      assert Insert(x, sorted) == [h] + Insert(x, rest);
      ColumnOfInsert(x, rest, s);
      TasksByStatusConcat([h], Insert(x, rest), s);
      TasksByStatusConcat([h], rest, s);
      var restColumn := TasksByStatus(rest, s);
      if h.status == s {
        assert TasksByStatus([h], s) == [h];
        assert TasksByStatus(sorted, s) == [h] + restColumn;
        if x.status == s {
          assert Insert(x, [h] + restColumn) == [h] + Insert(x, restColumn);
        }
      } else {
        assert TasksByStatus([h], s) == [];
        assert TasksByStatus(sorted, s) == restColumn;
      }
    }
  }

  lemma ColumnOfInsertFront(x: Task, sorted: seq<Task>, s: Status)
    requires SortedByPosition(sorted)
    requires sorted == [] || x.position <= sorted[0].position
    ensures TasksByStatus(Insert(x, sorted), s) ==
      if x.status == s then Insert(x, TasksByStatus(sorted, s)) else TasksByStatus(sorted, s)
  {
    var column := TasksByStatus(sorted, s);
    TasksByStatusConcat([x], sorted, s);
    if column != [] {
      assert column[0] in sorted;
      var k :| 0 <= k < |sorted| && sorted[k] == column[0];
      assert sorted[0].position <= sorted[k].position;
    }
  }

  /** The order of a column of the query's result is that of the sorted column. */
  lemma {:induction false} ColumnOfSort(rows: seq<Task>, s: Status)
    ensures TasksByStatus(SortByPosition(rows), s) == SortByPosition(TasksByStatus(rows, s))
  {
    if rows != [] {
      ColumnOfSort(rows[1..], s);
      ColumnOfInsert(rows[0], SortByPosition(rows[1..]), s);
    }
  }

  /** A row after every other row is placed last. */
  lemma {:induction false} InsertMax(m: Task, sorted: seq<Task>)
    requires forall t :: t in sorted ==> t.position < m.position
    ensures Insert(m, sorted) == sorted + [m]
  {
    if sorted != [] {
      InsertMax(m, sorted[1..]);
    }
  }

  /** Placing a row before a strictly larger last row leaves that row last. */
  lemma {:induction false} InsertBeforeLast(x: Task, sorted: seq<Task>, m: Task)
    requires x.position < m.position
    ensures Insert(x, sorted + [m]) == Insert(x, sorted) + [m]
  {
    if sorted != [] && sorted[0].position < x.position {
      assert (sorted + [m])[1..] == sorted[1..] + [m];
      InsertBeforeLast(x, sorted[1..], m);
    }
  }

  /** Wherever it sits in the table, a row with a position above all others
      comes back last. */
  lemma {:induction false} SortMaxLast(a: seq<Task>, m: Task, b: seq<Task>)
    requires forall t :: t in a + b ==> t.position < m.position
    ensures SortByPosition(a + [m] + b) == SortByPosition(a + b) + [m]
  {
    if a == [] {
      assert a + [m] + b == [m] + b && a + b == b;
      forall t | t in SortByPosition(b) ensures t.position < m.position {
        assert multiset(SortByPosition(b)) == multiset(b);
        assert t in multiset(b);
      }
      InsertMax(m, SortByPosition(b));
    } else {
      var tail := a[1..] + b;
      assert (a + [m] + b)[1..] == a[1..] + [m] + b;
      assert (a + b)[1..] == tail;
      forall t | t in tail ensures t.position < m.position {
        assert t in a + b;
      }
      assert a[0] in a + b;
      SortMaxLast(a[1..], m, b);
      InsertBeforeLast(a[0], SortByPosition(tail), m);
      calc {
        SortByPosition(a + [m] + b);
        Insert(a[0], SortByPosition(a[1..] + [m] + b));
        Insert(a[0], SortByPosition(tail) + [m]);
        Insert(a[0], SortByPosition(tail)) + [m];
        SortByPosition(a + b) + [m];
      }
    }
  }

  lemma IdsConcat(a: seq<Task>, b: seq<Task>)
    ensures Ids(a + b) == Ids(a) + Ids(b)
  {
    forall id | id in Ids(a + b) ensures id in Ids(a) + Ids(b) {
      var i :| 0 <= i < |a + b| && (a + b)[i].id == id;
      if i >= |a| {
        assert b[i - |a|].id == id;
      }
    }
    forall id | id in Ids(b) ensures id in Ids(a + b) {
      var i :| 0 <= i < |b| && b[i].id == id;
      assert (a + b)[|a| + i] == b[i];
    }
    forall id | id in Ids(a) ensures id in Ids(a + b) {
      var i :| 0 <= i < |a| && a[i].id == id;
      assert (a + b)[i] == a[i];
    }
  }

  lemma IdsSingleton(t: Task)
    ensures Ids([t]) == {t.id}
  {
    assert [t][0] == t;
  }

  lemma UniqueCons(h: Task, t: seq<Task>)
    requires UniqueIds(t)
    requires h.id !in Ids(t)
    ensures UniqueIds([h] + t)
  {
    var r := [h] + t;
    forall i, j | 0 <= i < j < |r| ensures r[i].id != r[j].id {
      assert r[j] == t[j - 1];
      if i > 0 {
        assert r[i] == t[i - 1];
      }
    }
  }

  /** The query returns the same set of rows, so the same ids. */
  lemma {:induction false} SortKeepsUniqueIds(rows: seq<Task>)
    requires UniqueIds(rows)
    ensures UniqueIds(SortByPosition(rows))
    ensures Ids(SortByPosition(rows)) == Ids(rows)
  {
    if rows != [] {
      assert rows == [rows[0]] + rows[1..];
      IdsConcat([rows[0]], rows[1..]);
      assert Ids([rows[0]]) == {rows[0].id};
      assert UniqueIds(rows[1..]);
      assert rows[0].id !in Ids(rows[1..]);
      SortKeepsUniqueIds(rows[1..]);
      InsertKeepsUniqueIds(rows[0], SortByPosition(rows[1..]));
    }
  }

  lemma {:induction false} InsertKeepsUniqueIds(x: Task, sorted: seq<Task>)
    requires UniqueIds(sorted)
    requires x.id !in Ids(sorted)
    ensures UniqueIds(Insert(x, sorted))
    ensures Ids(Insert(x, sorted)) == Ids(sorted) + {x.id}
  {
    assert Ids([x]) == {x.id};
    if sorted == [] || x.position <= sorted[0].position {
      IdsConcat([x], sorted);
      UniqueCons(x, sorted);
    } else {
      var rest := sorted[1..];
      assert sorted == [sorted[0]] + rest;
      IdsConcat([sorted[0]], rest);
      assert Ids([sorted[0]]) == {sorted[0].id};
      assert UniqueIds(rest);
      InsertKeepsUniqueIds(x, rest);
      IdsConcat([sorted[0]], Insert(x, rest));
      UniqueCons(sorted[0], Insert(x, rest));
    }
  }

  /** Rows of the query's result are exactly the rows of the table. */
  lemma SortSameMembers(rows: seq<Task>)
    ensures forall t :: t in SortByPosition(rows) <==> t in rows
  {
    var r := SortByPosition(rows);
    forall t ensures t in r <==> t in rows {
      assert t in r <==> t in multiset(r);
      assert t in rows <==> t in multiset(rows);
    }
  }

  /** No two different tasks of one column share a position (gaps are allowed). */
  predicate PositionsDistinct(rows: seq<Task>) {
    forall t, u :: t in rows && u in rows && t.id != u.id && t.status == u.status ==> t.position != u.position
  }

  // ---------------------------------------------------------------------------
  // Locating a row by id.
  // ---------------------------------------------------------------------------

  /** The row that `.eq("id", id)` selects. */
  function RowWithId(rows: seq<Task>, id: string): (t: Task)
    requires id in Ids(rows)
    ensures t in rows && t.id == id
  {
    if rows[0].id == id then rows[0]
    else
      assert id in Ids(rows[1..]) by {
        var i :| 0 <= i < |rows| && rows[i].id == id;
        assert rows[1..][i - 1] == rows[i];
      }
      RowWithId(rows[1..], id)
  }

  /** With unique ids, the row holding `id` splits the table into the rows
      before it and the rows after it, neither of which holds `id`. */
  lemma SplitAtId(rows: seq<Task>, id: string) returns (k: nat)
    requires UniqueIds(rows)
    requires id in Ids(rows)
    ensures k < |rows| && rows[k].id == id && rows[k] == RowWithId(rows, id)
    ensures id !in Ids(rows[..k]) && id !in Ids(rows[k + 1..])
    ensures rows == rows[..k] + [rows[k]] + rows[k + 1..]
  {
    k :| 0 <= k < |rows| && rows[k].id == id;
    var t := RowWithId(rows, id);
    var j :| 0 <= j < |rows| && rows[j] == t;
    assert j == k;
  }

  /** Dropping one row keeps the order and the uniqueness of ids. */
  lemma RemoveAtKeeps(rows: seq<Task>, k: nat)
    requires k < |rows|
    ensures SortedByPosition(rows) ==> SortedByPosition(rows[..k] + rows[k + 1..])
    ensures UniqueIds(rows) ==> UniqueIds(rows[..k] + rows[k + 1..])
  {
    var r := rows[..k] + rows[k + 1..];
    assert forall i :: 0 <= i < |r| ==> r[i] == rows[if i < k then i else i + 1];
  }

  // ---------------------------------------------------------------------------
  // The three mutations.
  // ---------------------------------------------------------------------------

  /** createTaskMutation: without a signed-in user it fails with "Not
      authenticated"; otherwise it inserts one row owned by that user and
      carrying the given fields, unless the store reports an error (a taken
      id is one: the id column is the primary key). */
  function CreateRow(rows: seq<Task>, user: Option<string>, title: string, description: string,
                     status: Status, position: int, newId: string, now: string,
                     storeOk: bool): (r: Result<seq<Task>>)
    ensures user.None? ==> r == Failure(NotAuthenticated)
    ensures r.Success? <==> user.Some? && storeOk && newId !in Ids(rows)
    ensures r.Failure? && user.Some? ==> r.error == StoreError
    ensures r.Success? ==>
      && |r.value| == |rows| + 1 && r.value[..|rows|] == rows
      && r.value[|rows|] == Task(newId, user.value, title, description, status, position, now, now)
    ensures r.Success? && UniqueIds(rows) ==>
      UniqueIds(r.value) && Ids(r.value) == Ids(rows) + {newId}
  {
    if user.None? then Failure(NotAuthenticated)
    else if !storeOk || newId in Ids(rows) then Failure(StoreError)
    else
      var row := Task(newId, user.value, title, description, status, position, now, now);
      IdsConcat(rows, [row]);
      IdsSingleton(row);
      Success(rows + [row])
  }

  /** The two kinds of update the board sends: the edit dialog's new title
      and description, or a drop's new column and position. */
  datatype Changes = Edit(title: string, description: string) | Move(status: Status, position: int)

  /** A row after an update: the changed fields and updated_at take the new
      values and every other field keeps its old one. */
  function Patched(t: Task, changes: Changes, now: string): (u: Task)
    ensures u.id == t.id && u.userId == t.userId && u.createdAt == t.createdAt && u.updatedAt == now
    ensures changes.Edit? ==>
      u.title == changes.title && u.description == changes.description
      && u.status == t.status && u.position == t.position
    ensures changes.Move? ==>
      u.status == changes.status && u.position == changes.position
      && u.title == t.title && u.description == t.description
  {
    match changes
    case Edit(title, description) => t.(title := title, description := description, updatedAt := now)
    case Move(status, position) => t.(status := status, position := position, updatedAt := now)
  }

  /** The table with the row holding `id` patched. Ids stay where they are,
      a missing id changes nothing, and an edit moves no row. */
  function PatchRows(rows: seq<Task>, id: string, changes: Changes, now: string): (r: seq<Task>)
    ensures |r| == |rows|
    ensures forall i :: 0 <= i < |rows| ==> r[i].id == rows[i].id
    ensures Ids(r) == Ids(rows)
    ensures UniqueIds(rows) ==> UniqueIds(r)
    ensures id !in Ids(rows) ==> r == rows
    ensures changes.Edit? ==>
      forall i :: 0 <= i < |rows| ==> r[i].status == rows[i].status && r[i].position == rows[i].position
  {
    var patched := seq(|rows|, i requires 0 <= i < |rows| =>
      if rows[i].id == id then Patched(rows[i], changes, now) else rows[i]);
    assert Ids(patched) == Ids(rows) by {
      forall x | x in Ids(rows) ensures x in Ids(patched) {
        var i :| 0 <= i < |rows| && rows[i].id == x;
        assert patched[i].id == x;
      }
    }
    patched
  }

  /** updateTaskMutation: `.update(...).eq("id", id).single()` fails when the
      store reports an error or no row holds `id`; otherwise it patches that row. */
  function UpdateRow(rows: seq<Task>, id: string, changes: Changes, now: string,
                     storeOk: bool): (r: Result<seq<Task>>)
    ensures r.Success? <==> storeOk && id in Ids(rows)
    ensures r.Failure? ==> r.error == StoreError
    ensures r.Success? ==> r.value == PatchRows(rows, id, changes, now)
    ensures r.Success? ==> Ids(r.value) == Ids(rows) && (UniqueIds(rows) ==> UniqueIds(r.value))
  {
    if !storeOk || id !in Ids(rows) then Failure(StoreError)
    else Success(PatchRows(rows, id, changes, now))
  }

  /** The table without the rows holding `id`. */
  function WithoutId(rows: seq<Task>, id: string): (r: seq<Task>)
    ensures forall t :: t in r <==> t in rows && t.id != id
    ensures |r| <= |rows|
  {
    if rows == [] then []
    else if rows[0].id == id then WithoutId(rows[1..], id)
    else [rows[0]] + WithoutId(rows[1..], id)
  }

  lemma {:induction false} WithoutIdConcat(a: seq<Task>, b: seq<Task>, id: string)
    ensures WithoutId(a + b, id) == WithoutId(a, id) + WithoutId(b, id)
  {
    if a == [] {
      assert a + b == b;
    } else {
      assert (a + b)[1..] == a[1..] + b;
      WithoutIdConcat(a[1..], b, id);
    }
  }

  lemma {:induction false} WithoutAbsentId(rows: seq<Task>, id: string)
    requires id !in Ids(rows)
    ensures WithoutId(rows, id) == rows
  {
    if rows != [] {
      assert rows[0].id in Ids(rows);
      assert id !in Ids(rows[1..]);
      WithoutAbsentId(rows[1..], id);
    }
  }

  /** deleteTaskMutation: `.delete().eq("id", id)` removes the rows holding
      `id` unless the store reports an error; a missing id is not an error. */
  function DeleteRow(rows: seq<Task>, id: string, storeOk: bool): (r: Result<seq<Task>>)
    ensures r.Success? <==> storeOk
    ensures r.Failure? ==> r.error == StoreError
    ensures r.Success? ==> r.value == WithoutId(rows, id)
  {
    if !storeOk then Failure(StoreError) else Success(WithoutId(rows, id))
  }
}
