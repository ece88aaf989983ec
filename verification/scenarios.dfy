/**
 * The cases the repository's own tests exercise, restated over the model for
 * any store and any `today`.
 */
module Scenarios {
  import opened Wrappers
  import opened JavaString
  import opened Tasks
  import opened Storage
  import opened TaskService
  import opened TaskController

  /** The service tests' fixture: an "In Progress" task due today. */
  function Fixture(today: Day): Task {
    Task(Some(1), Some("Create API"), Some("Create a task using this REST API"), Some(InProgress), Some(today))
  }

  lemma FixtureAcceptable(today: Day)
    ensures Acceptable(Fixture(today), today)
    ensures Acceptable(Fixture(today).(description := None), today)
  {
    assert !IsTrimmable("Create API"[0]);
  }

  /** A valid task is saved once, as submitted, and comes back with its fields intact. */
  lemma ValidTaskIsSavedOnce(s: Store, today: Day)
    ensures var r := Create(s, Fixture(today), today, None);
      && r.outcome.Created?
      && SameContent(r.outcome.task, Fixture(today))
      && r.store.calls == s.calls + [Fixture(today)]
  {
  }

  /** Without a description the task is still created, with a null description. */
  lemma NullDescriptionIsSaved(s: Store, today: Day)
    ensures var r := Create(s, Fixture(today).(description := None), today, None);
      && r.outcome.Created?
      && r.outcome.task.description.None?
  {
  }

  /** A null title is rejected with its message, and storage is not called. */
  lemma NullTitleIsRejected(s: Store, today: Day, fault: Option<Fault>)
    ensures Create(s, Fixture(today).(title := None), today, fault) == Step(Invalid(TitleEmptyMessage), s)
  {
  }

  /** The status "Finished" is rejected with the status message, and storage is not called. */
  lemma UnknownStatusIsRejected(s: Store, today: Day, fault: Option<Fault>)
    ensures Create(s, Fixture(today).(status := Some("Finished")), today, fault) == Step(Invalid(BadStatusMessage), s)
  {
  }

  /** A null due date is rejected with its message, and storage is not called. */
  lemma NullDueDateIsRejected(s: Store, today: Day, fault: Option<Fault>)
    ensures Create(s, Fixture(today).(dueDate := None), today, fault) == Step(Invalid(DueDateEmptyMessage), s)
  {
  }

  /** Yesterday's due date is rejected as in the past, and storage is not called. */
  lemma YesterdayIsRejected(s: Store, today: Day, fault: Option<Fault>)
    ensures Create(s, Fixture(today).(dueDate := Some(today - 1)), today, fault) == Step(Invalid(PastDueDateMessage), s)
  {
  }

  /** Tabs and newlines are trimmed like spaces: such a title is empty. */
  lemma ControlCharTitleIsEmpty(s: Store, today: Day)
    ensures Handle(s, Fixture(today).(title := Some("\t\n \r")), today, None).reply
      == Reply(BadRequestCode, TaskResponse(Some(TitleEmptyMessage), ClientErrorLabel, None))
  {
  }

  /** The controller tests' replies for each kind of outcome. */
  lemma ControllerReplies(task: Task)
    ensures Respond(Created(task)) == Reply(201, TaskResponse(Some("Task created successfully"), "success", Some(task)))
    ensures Respond(Invalid("Error: Task title is empty")) == Reply(400, TaskResponse(Some("Error: Task title is empty"), "client-error", None))
    ensures Respond(SystemError(Some("Something went wrong"))) == Reply(500, TaskResponse(Some("Something went wrong"), "server-error", None))
  {
  }

  /** A save that throws on a valid task yields a 500 carrying the thrown message. */
  lemma StorageFailureIsServerError(s: Store, today: Day)
    ensures Handle(s, Fixture(today), today, Some(Fault(Some("Something went wrong")))).reply
      == Reply(500, TaskResponse(Some("Something went wrong"), "server-error", None))
  {
  }
}
