/** The board component (components/kanban/kanban-board.tsx): its state
    hooks, and the handlers that turn the user's intents into mutations of
    the tasks table. A successful mutation and the refetch it triggers are one
    step; a failed one throws before the handler's remaining state updates. */
module Board {
  import opened Types
  import opened Ordering
  import opened Store
  import opened Refetch

  /** How an intent ended: its mutation went through, it issued none, or the
      mutation threw. */
  datatype Outcome = Committed | NoOp | Failed(error: Error)

  class KanbanBoard {
    /** The last result of the tasks query: every row, by ascending position. */
    var tasks: seq<Task>
    var editingTask: Option<Task>
    var editDialogOpen: bool
    var deleteDialogOpen: bool
    var taskToDelete: Option<string>
    var draggedTask: Option<Task>

    /** The list is what the query returns: sorted by position, one row per id. */
    ghost predicate Valid()
      reads this
    {
      SortedByPosition(tasks) && UniqueIds(tasks)
    }

    /** Mounting the board: every state hook starts empty or closed, and the
        list is the store's rows in position order. */
    constructor (rows: seq<Task>)
      requires UniqueIds(rows)
      ensures Valid()
      ensures tasks == SortByPosition(rows)
      ensures editingTask == None && !editDialogOpen
      ensures !deleteDialogOpen && taskToDelete == None
      ensures draggedTask == None
    {
      SortKeepsUniqueIds(rows);
      tasks := SortByPosition(rows);
      editingTask := None;
      editDialogOpen := false;
      deleteDialogOpen := false;
      taskToDelete := None;
      draggedTask := None;
    }

    /** handleAddTask: create a task at the end of column `status`. */
    method AddTask(status: Status, title: string, description: string,
                   user: Option<string>, newId: string, now: string, storeOk: bool)
      returns (outcome: Outcome)
      requires Valid()
      modifies this`tasks
      ensures Valid()
      ensures user.None? ==> outcome == Failed(NotAuthenticated)
      ensures outcome == Committed <==> user.Some? && storeOk && newId !in Ids(old(tasks))
      ensures user.Some? && outcome != Committed ==> outcome == Failed(StoreError)
      ensures outcome != NoOp
      ensures outcome == Committed ==>
        var row := Task(newId, user.value, title, description, status,
                        NextPosition(old(tasks), status), now, now);
        && tasks == SortByPosition(old(tasks) + [row])
        && Ids(tasks) == Ids(old(tasks)) + {newId}
        && TasksByStatus(tasks, status) == TasksByStatus(old(tasks), status) + [row]
        && (forall s :: s != status ==> TasksByStatus(tasks, s) == TasksByStatus(old(tasks), s))
        && (PositionsDistinct(old(tasks)) ==> PositionsDistinct(tasks))
      ensures outcome != Committed ==> tasks == old(tasks)
    {
      var position := NextPosition(tasks, status);
      var created := CreateRow(tasks, user, title, description, status, position, newId, now, storeOk);
      match created
      case Failure(e) =>
        outcome := Failed(e);
      case Success(rows) =>
        var row := Task(newId, user.value, title, description, status, position, now, now);
        assert rows == tasks + [row];
        CreateAppendsToColumn(tasks, row);
        SortKeepsUniqueIds(rows);
        tasks := SortByPosition(rows);
        outcome := Committed;
    }

    /** handleUpdateTask: replace the title and description of task `id`. */
    method UpdateTask(id: string, title: string, description: string, now: string, storeOk: bool)
      returns (outcome: Outcome)
      requires Valid()
      modifies this`tasks
      ensures Valid()
      ensures outcome == Committed <==> storeOk && id in Ids(old(tasks))
      ensures outcome != Committed ==> outcome == Failed(StoreError) && tasks == old(tasks)
      ensures outcome == Committed ==>
        && |tasks| == |old(tasks)|
        && forall i :: 0 <= i < |tasks| ==>
             tasks[i] == if old(tasks)[i].id == id
                         then Patched(old(tasks)[i], Edit(title, description), now)
                         else old(tasks)[i]
      ensures PositionsDistinct(old(tasks)) ==> PositionsDistinct(tasks)
    {
      var updated := UpdateRow(tasks, id, Edit(title, description), now, storeOk);
      match updated
      case Failure(e) =>
        outcome := Failed(e);
      case Success(rows) =>
        EditKeepsOrder(tasks, id, title, description, now);
        tasks := SortByPosition(rows);
        outcome := Committed;
    }

    /** handleDragStart: remember the task being dragged. */
    method DragStart(task: Task)
      modifies this`draggedTask
      ensures draggedTask == Some(task)
    {
      draggedTask := Some(task);
    }

    /** handleDrop: move the dragged task to the end of column `newStatus`.
        Without a dragged task, or onto the column the dragged task had when
        the drag started, nothing is sent and the drag is cleared. */
    method Drop(newStatus: Status, now: string, storeOk: bool) returns (outcome: Outcome)
      requires Valid()
      modifies this`tasks, this`draggedTask
      ensures Valid()
      ensures old(draggedTask).None? || old(draggedTask).value.status == newStatus ==>
        outcome == NoOp && tasks == old(tasks) && draggedTask == None
      ensures old(draggedTask).Some? && old(draggedTask).value.status != newStatus ==>
        var id := old(draggedTask).value.id;
        && (outcome == Committed <==> storeOk && id in Ids(old(tasks)))
        && (outcome != Committed ==>
              outcome == Failed(StoreError) && tasks == old(tasks) && draggedTask == old(draggedTask))
        && (outcome == Committed ==>
              var moved := Patched(RowWithId(old(tasks), id),
                                   Move(newStatus, NextPosition(old(tasks), newStatus)), now);
              && draggedTask == None
              && Ids(tasks) == Ids(old(tasks))
              && TasksByStatus(tasks, newStatus) == WithoutId(TasksByStatus(old(tasks), newStatus), id) + [moved]
              && (forall s :: s != newStatus ==>
                    TasksByStatus(tasks, s) == WithoutId(TasksByStatus(old(tasks), s), id))
              && (PositionsDistinct(old(tasks)) ==> PositionsDistinct(tasks)))
    {
      if draggedTask.None? || draggedTask.value.status == newStatus {
        draggedTask := None;
        outcome := NoOp;
        return;
      }
      var id := draggedTask.value.id;
      var position := NextPosition(tasks, newStatus);
      var updated := UpdateRow(tasks, id, Move(newStatus, position), now, storeOk);
      match updated
      case Failure(e) =>
        outcome := Failed(e);
      case Success(rows) =>
        MoveAppendsToColumn(tasks, id, newStatus, now);
        SortKeepsUniqueIds(rows);
        tasks := SortByPosition(rows);
        draggedTask := None;
        outcome := Committed;
    }

    /** handleDeleteTask: ask for confirmation; nothing is deleted yet. */
    method RequestDelete(id: string)
      modifies this`taskToDelete, this`deleteDialogOpen
      ensures taskToDelete == Some(id) && deleteDialogOpen
    {
      taskToDelete := Some(id);
      deleteDialogOpen := true;
    }

    /** confirmDeleteTask: delete the pending task, then close the dialog and
        clear the pending id. An empty id counts as none (a falsy string). */
    method ConfirmDelete(storeOk: bool) returns (outcome: Outcome)
      requires Valid()
      modifies this`tasks, this`taskToDelete, this`deleteDialogOpen
      ensures Valid()
      ensures old(taskToDelete).None? || old(taskToDelete).value == "" ==>
        outcome == NoOp && tasks == old(tasks)
        && taskToDelete == old(taskToDelete) && deleteDialogOpen == old(deleteDialogOpen)
      ensures old(taskToDelete).Some? && old(taskToDelete).value != "" ==>
        var id := old(taskToDelete).value;
        && (outcome == Committed <==> storeOk)
        && (outcome != Committed ==>
              outcome == Failed(StoreError) && tasks == old(tasks)
              && taskToDelete == old(taskToDelete) && deleteDialogOpen == old(deleteDialogOpen))
        && (outcome == Committed ==>
              && taskToDelete == None && !deleteDialogOpen
              && tasks == WithoutId(old(tasks), id)
              && Ids(tasks) == Ids(old(tasks)) - {id}
              && (id in Ids(old(tasks)) ==> |tasks| == |old(tasks)| - 1)
              && (forall s :: TasksByStatus(tasks, s) == WithoutId(TasksByStatus(old(tasks), s), id))
              && (PositionsDistinct(old(tasks)) ==> PositionsDistinct(tasks)))
    {
      if taskToDelete.None? || taskToDelete.value == "" {
        outcome := NoOp;
        return;
      }
      var id := taskToDelete.value;
      var deleted := DeleteRow(tasks, id, storeOk);
      match deleted
      case Failure(e) =>
        outcome := Failed(e);
      case Success(rows) =>
        DeleteRemovesOne(tasks, id);
        DeleteKeepsColumns(tasks, id);
        tasks := SortByPosition(rows);
        deleteDialogOpen := false;
        taskToDelete := None;
        outcome := Committed;
    }

    /** The Cancel button of the delete dialog: forget the pending id. */
    method CancelDelete()
      modifies this`taskToDelete
      ensures taskToDelete == None
    {
      taskToDelete := None;
    }

    /** The delete dialog's open-state callback. */
    method SetDeleteDialogOpen(open: bool)
      modifies this`deleteDialogOpen
      ensures deleteDialogOpen == open
    {
      deleteDialogOpen := open;
    }

    /** handleEditTask: open the edit dialog on `task`. */
    method EditTask(task: Task)
      modifies this`editingTask, this`editDialogOpen
      ensures editingTask == Some(task) && editDialogOpen
    {
      editingTask := Some(task);
      editDialogOpen := true;
    }

    /** The edit dialog's open-state callback: closing it also forgets the
        task being edited. */
    method SetEditDialogOpen(open: bool)
      modifies this`editingTask, this`editDialogOpen
      ensures editDialogOpen == open
      ensures editingTask == if open then old(editingTask) else None
    {
      editDialogOpen := open;
      if !open {
        editingTask := None;
      }
    }
  }
}
