/** The records the application passes around: tasks, tags, folders, group keys and filters. */
module Types {
  import opened Wrappers

  datatype Priority = High | Medium | Low

  datatype Recurrence = Daily | Weekly | Monthly | Yearly

  /** A tag as joined onto a task row. */
  datatype Tag = Tag(id: string, userId: string, name: string, color: string, createdAt: string)

  /** A folder (a "list" in the database). */
  datatype List = List(id: string, userId: string, name: string, color: string, createdAt: string)

  /**
   * A task as the application holds it after normalising a database row.
   * `dueDate` is the `YYYY-MM-DD` text of the row, or None for null;
   * `tags` is None for a task that carries no tag array at all.
   */
  datatype Task = Task(
    id: string,
    userId: string,
    listId: Option<string>,
    title: string,
    notes: Option<string>,
    dueDate: Option<string>,
    completed: bool,
    priority: Option<Priority>,
    recurrence: Option<Recurrence>,
    sortOrder: Option<int>,
    createdAt: string,
    tags: Option<seq<Tag>>)

  /** The keys of the groups a task list is shown in. */
  datatype DueGroupKey =
    | Overdue
    | Today
    | ThisWeek
    | NextWeek
    | ThisMonth
    | ThisYear
    | Later
    | NoDate
    | Completed

  /** Which tasks the list shows: all of them, the incomplete ones or the completed ones. */
  datatype FilterType = All | Active | Done

  /** The row a successor or a new task is inserted as (`user_id` is the hook's possibly undefined user). */
  datatype TaskInsert = TaskInsert(
    title: string,
    notes: Option<string>,
    dueDate: Option<string>,
    listId: Option<string>,
    priority: Option<Priority>,
    recurrence: Option<Recurrence>,
    userId: Option<string>)

  /** JavaScript truthiness of an optional string: present and not empty. */
  predicate Truthy(s: Option<string>) {
    s.Some? && s.value != ""
  }
}
