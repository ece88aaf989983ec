/** The `Task` entity, as submitted by a client and as persisted. */
module Tasks {
  import opened Wrappers

  /** A calendar date without time, as a day ordinal: earlier dates are smaller. */
  type Day = int

  /**
   * Every field is nullable, as in the Java entity. `id` is assigned by
   * storage; the other four fields come from the request body.
   */
  datatype Task = Task(
    id: Option<int>,
    title: Option<string>,
    description: Option<string>,
    status: Option<string>,
    dueDate: Option<Day>)

  /** The three status values a task may carry, compared case-sensitively. */
  const Complete: string := "Complete"
  const InProgress: string := "In Progress"
  const ToDo: string := "To Do"

  /** The legal status values as a set: the reference the ordered check is proved against. */
  const LegalStatuses: set<string> := {Complete, InProgress, ToDo}

  /** The two tasks agree on every field a client supplies (all but `id`). */
  predicate SameContent(a: Task, b: Task) {
    && a.title == b.title
    && a.description == b.description
    && a.status == b.status
    && a.dueDate == b.dueDate
  }
}
