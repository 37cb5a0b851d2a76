# Kanban board: task ordering and column reassignment

A Dafny model of the board component of a three-column task board ("todo",
"in-progress", "done") backed by a hosted row store. The board keeps the list
of task rows, ordered by their `position` field. It shows one column per
status. It places a new or moved task one past the largest position already in
its destination column. It also drives the drag, edit and two-step delete
interactions.

Files and modules:

- `types.dfy`, module `Types`: the `Task` row and the `Status` column.
- `ordering.dfy`, module `Ordering`: a column as a filter of the list
  (`TasksByStatus`), the largest position in a column (`MaxPosition`) and the
  append-to-end rule (`NextPosition`).
- `store.dfy`, module `Store`: the tasks table as an abstract sequence of
  rows. The list query is a stable sort by position (`SortByPosition`). The
  bodies of the create, update and delete mutations are functions returning a
  `Result` (`CreateRow`, `UpdateRow`, `DeleteRow`).
- `refetch.dfy`, module `Refetch`: what every column shows after each kind
  of mutation and the refetch that follows it.
- `board.dfy`, module `Board`: class `KanbanBoard`. Its fields are the
  component's state hooks, plus `tasks`, the last result of the list query.
  Its methods are the intent handlers.

Modelling choices:

- A successful mutation and its refetch are one atomic step: `tasks` becomes
  `SortByPosition` of the new rows. A failed mutation throws before the
  handler's remaining state updates. So a failed drop keeps `draggedTask`, and
  a failed delete keeps the pending id and leaves the dialog open.
- The store's answer is a parameter `storeOk`. Other inputs the store or the
  environment supplies are parameters too: the signed-in user (`user`), the id
  the store assigns (`newId`) and the current time (`now`).
- An insert also fails when the id is already taken, because the id column
  is the primary key. An update fails when no row holds the id, because
  `.single()` finds no row. A delete of a missing id succeeds and removes
  nothing.
- `confirmDeleteTask` tests `taskToDelete` for truthiness, so an empty id is
  treated like none (`ConfirmDelete` returns `NoOp`).
- `handleDrop` compares the destination with the status the dragged task had
  when the drag started. `Drop` does the same.
- `KanbanBoard.Valid()` says the list is sorted by position and holds one
  row per id. The store does not enforce distinct positions inside a column,
  so that is not part of `Valid()`. Each mutation instead proves it keeps the
  property `PositionsDistinct` when it held before.

Behaviour of the code worth noting:

- The board itself does not check for an empty title. The add dialog is not
  part of this model. The edit dialog relies on the input's `required`
  attribute.
- An update of a missing row fails (`.single()` finds no row) and the list is
  not refetched. The list is refetched only after a successful mutation.
- A delete removes exactly one row when the id is present. When it is absent,
  the delete removes nothing and raises no error.
- The board does not sort the columns itself. Each column is a filter of the
  list, which the query already returns in position order.

## Model

| member | source | states |
|---|---|---|
| `Ordering.TasksByStatus` | components/kanban/kanban-board.tsx:122-124 | a task is in the column exactly when it is in the list and has that status |
| `Ordering.TasksByStatusCount` | components/kanban/kanban-board.tsx:122-124 | the column holds each task of its status as many times as the list does, and no task of another status |
| `Ordering.TasksByStatusConcat` | components/kanban/kanban-board.tsx:122-124 | filtering keeps relative order: the column of `a + b` is the column of `a` followed by the column of `b` |
| `Ordering.ColumnSorted` | components/kanban/kanban-board.tsx:41-44 | the list arrives in ascending position order, so every column is in ascending position order too |
| `Ordering.ColumnsPartition` | components/kanban/kanban-board.tsx:219-258 | the three columns together hold every task exactly once (as multisets) |
| `Ordering.MaxPosition` | components/kanban/kanban-board.tsx:132-135 | the result is at least every position in the non-empty column and is the position of one of its tasks |
| `Ordering.NextPosition` | components/kanban/kanban-board.tsx:131-141 | 0 for an empty column; otherwise strictly above every position in the column and exactly one above the largest |
| `Ordering.NextPositionSortsLast` | components/kanban/kanban-board.tsx:131-141 | a task given NextPosition is appended at the end of its column, which stays sorted |
| `Store.Insert` | components/kanban/kanban-board.tsx:41-44 | placing one row adds exactly that row, and keeps a sorted list sorted |
| `Store.SortByPosition` | components/kanban/kanban-board.tsx:41-44 | the query result is sorted by position and is a permutation of the rows |
| `Store.SortSorted` | components/kanban/kanban-board.tsx:41-44 | rows already in position order come back unchanged |
| `Store.ColumnOfSort` | components/kanban/kanban-board.tsx:41-44 | the sort is stable per column: a column of the sorted list is the sorted column |
| `Store.SortMaxLast` | components/kanban/kanban-board.tsx:41-44 | a row whose position is above every other row comes back last, wherever it sits in the table |
| `Store.SortKeepsUniqueIds` | components/kanban/kanban-board.tsx:41-44 | the query returns the same ids, still one row per id |
| `Store.RowWithId` | components/kanban/kanban-board.tsx:100-102 | the row `.eq("id", id)` selects is in the table and holds that id |
| `Store.SplitAtId` | components/kanban/kanban-board.tsx:100-102 | with unique ids the selected row is the only one holding its id |
| `Store.CreateRow` | components/kanban/kanban-board.tsx:64-82 | with no signed-in user it fails with "Not authenticated"; it succeeds exactly when a user is signed in, the store answers and the id is new; the new row carries that user's id and the given title, description, status and position; one row per id is kept |
| `Store.Patched` | components/kanban/kanban-board.tsx:97-100 | an edit changes only title, description and updated_at; a move changes only status, position and updated_at |
| `Store.PatchRows` | components/kanban/kanban-board.tsx:97-100 | every row keeps its id in its place, so the ids and their uniqueness are kept; a missing id changes nothing; an edit changes no row's column or position |
| `Store.UpdateRow` | components/kanban/kanban-board.tsx:97-105 | it succeeds exactly when the store answers and a row holds the id; ids and their uniqueness are kept |
| `Store.WithoutId` | components/kanban/kanban-board.tsx:114 | a row remains exactly when it was in the table and does not hold the id |
| `Store.DeleteRow` | components/kanban/kanban-board.tsx:113-116 | it succeeds exactly when the store answers, even for a missing id, and then leaves the rows without that id |
| `Refetch.CreateAppendsToColumn` | components/kanban/kanban-board.tsx:126-143 | after an add and the refetch, the new task is the last task of its column, every other column is unchanged, and no position clash appears |
| `Refetch.MoveAppendsToColumn` | components/kanban/kanban-board.tsx:192-204 | after a move and the refetch, the task is the last task of the destination column and has left every other column; the other tasks keep their columns and order; no position clash appears |
| `Refetch.EditKeepsOrder` | components/kanban/kanban-board.tsx:145-154 | after an edit the refetch returns the rows in the same order, and no position clash appears |
| `Refetch.DeleteRemovesOne` | components/kanban/kanban-board.tsx:112-120 | after a delete the id is gone and the remaining rows keep their order; exactly one row is removed when the id was present, none otherwise |
| `Refetch.DeleteKeepsColumns` | components/kanban/kanban-board.tsx:112-120 | every column loses exactly the task with that id, keeps the order of the rest, and no position clash appears |
| `Refetch.ColumnsIgnoreTies` | components/kanban/kanban-board.tsx:41-44 | when ids are unique and no two tasks of one column share a position, any listing the store may return in position order has the same columns as the model's query, whatever order it gives tied rows |
| `Board.KanbanBoard.constructor` | components/kanban/kanban-board.tsx:23-50 | every state hook starts empty or closed, and the list is the rows in position order |
| `Board.KanbanBoard.AddTask` | components/kanban/kanban-board.tsx:126-143 | it fails with NotAuthenticated without a user, and with a user only with the store's error; on success the row is inserted at NextPosition and appended to its column, with the other columns unchanged; on failure the list is unchanged |
| `Board.KanbanBoard.UpdateTask` | components/kanban/kanban-board.tsx:145-154 | on success only the title, description and updated_at of the task with that id change, in place, and nothing else in the list changes; on failure the list is unchanged |
| `Board.KanbanBoard.DragStart` | components/kanban/kanban-board.tsx:174-177 | the dragged task is recorded |
| `Board.KanbanBoard.Drop` | components/kanban/kanban-board.tsx:184-207 | with no dragged task, or a drop onto the task's own column, nothing is sent, the list is unchanged and the drag is cleared; otherwise on success the task moves to the end of the destination column, every other task stays where it was, and the drag is cleared; on failure nothing changes |
| `Board.KanbanBoard.RequestDelete` | components/kanban/kanban-board.tsx:156-159 | the pending id is recorded and the dialog opens; the list is untouched |
| `Board.KanbanBoard.ConfirmDelete` | components/kanban/kanban-board.tsx:161-167 | with no pending id nothing happens; on success exactly the pending task is removed from every column, and the pending id and dialog are cleared; on failure nothing changes |
| `Board.KanbanBoard.CancelDelete` | components/kanban/kanban-board.tsx:279 | the pending id is cleared and nothing is deleted |
| `Board.KanbanBoard.SetDeleteDialogOpen` | components/kanban/kanban-board.tsx:269 | the delete dialog's open state follows the callback and the pending id is kept |
| `Board.KanbanBoard.EditTask` | components/kanban/kanban-board.tsx:169-172 | the edited task is recorded and the edit dialog opens |
| `Board.KanbanBoard.SetEditDialogOpen` | components/kanban/kanban-board.tsx:263-266 | the edit dialog's open state follows the callback, and closing it forgets the edited task |

## Left out

- The hosted store, React Query and async/await are not modelled. Each successful mutation plus the refetch its `onSuccess` triggers is one atomic step. A failing refetch is not modelled.
- The list query is disabled without a session and then returns an empty list. The model assumes a signed-in session for the list. Only `AddTask` takes the signed-in user, for the create mutation's own check.
- The store does not specify the order of rows with equal positions. The model's query is one particular order, a stable sort. Row-level access rules are not modelled: the table is the set of rows the user can see.
- Board.KanbanBoard.UpdateTask: its claim that the list keeps its order, row by row, relies on the model's stable sort. Ties across columns are usual, since every column starts at position 0. A store that orders tied rows differently keeps only the per-column view, as `Refetch.ColumnsIgnoreTies` shows under `PositionsDistinct`.
- Refetch.EditKeepsOrder: `SortByPosition(after) == after` relies on the model's tie order. For another tie order only the columns are the same, and only under `PositionsDistinct` (`Refetch.ColumnsIgnoreTies`).
- Refetch.DeleteRemovesOne: that the remaining rows keep their order relies on the model's tie order. For another tie order only the columns are the same, under `PositionsDistinct`.
- Board.KanbanBoard.ConfirmDelete: `tasks == WithoutId(old(tasks), id)` relies on the model's tie order. Its per-column clauses carry over to any tie order under `PositionsDistinct`.
- Refetch.CreateAppendsToColumn: for a store with another tie order, the claim that every other column is unchanged holds only when no two tasks of one column share a position (`PositionsDistinct`, via `Refetch.ColumnsIgnoreTies`).
- Refetch.MoveAppendsToColumn: for a store with another tie order, the column claims hold only under `PositionsDistinct`.
- Board.KanbanBoard.AddTask: for a store with another tie order, its column clauses hold only under `PositionsDistinct`.
- Board.KanbanBoard.Drop: for a store with another tie order, its column clauses hold only under `PositionsDistinct`.
- Concurrent clients are not modelled. In particular, two clients can compute the same next position. The model is sequential.
- Timestamps and ids are opaque text supplied as parameters. The model does not read a clock or generate ids.
- `position` is an unbounded integer. JavaScript number semantics and `Math.max` over floats are not modelled.
- `handleDragOver` and the drag event objects (`preventDefault`, `effectAllowed`, `dropEffect`) are not modelled, because they change no board state.
- The dialog library's own behaviour is not modelled. Its Cancel and Delete buttons may close the dialog by themselves. Only the callbacks visible in the board are modelled.
- The edit dialog's submit handler, the column, card and error components, the layout, the authentication form and hooks, and the HTTP route handlers are not part of this model. They are presentation, or thin wrappers over the authentication service.
