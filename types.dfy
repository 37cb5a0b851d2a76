/** The task record and its status column (lib/types.ts). */
module Types {

  datatype Option<T> = None | Some(value: T)

  /** The three fixed columns of the board: "todo", "in-progress" and "done". */
  datatype Status = Todo | InProgress | Done

  /** One row of the tasks table. Ids, the owner's user id and the two
      timestamps are opaque text; `position` orders the tasks of one column. */
  datatype Task = Task(
    id: string,
    userId: string,
    title: string,
    description: string,
    status: Status,
    position: int,
    createdAt: string,
    updatedAt: string)
}
