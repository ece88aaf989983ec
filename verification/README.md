# Task creation: validation and response shaping

A Dafny model of the task-creation workflow of a small task-management
backend. `POST /api/task/create` hands a submitted task to
`TaskService.createTask`, which runs four checks in a fixed order and stops at the first
failure with an exact message:

1. the title is null, or empty after Java's `String.trim()`;
2. the status is not exactly `"Complete"`, `"In Progress"` or `"To Do"`;
3. the due date is null;
4. the due date is before today.

If all four checks pass, it calls the repository's `save` once and returns what
`save` returns. `TaskController.createTask` turns the outcome into a status code and a
three-field `TaskResponse` envelope:

- 201 with `"success"` and the created task;
- 400 with `"client-error"` and the validation message;
- 500 with `"server-error"` and the message of any other exception.

Modules, one per component:

- `Wrappers`: `Option` (Java `null`) and `Result`.
- `JavaString`: `String.trim()`, which strips every char at or below U+0020, not
  only spaces. It has a functional definition and a method that follows the JDK's
  two index loops.
- `Tasks`: the `Task` entity with nullable fields and the three legal status strings.
- `Storage`: the repository reduced to `save`. `save` assigns a fresh id, keeps
  every other field, and logs each call. Whether the write throws is a parameter
  chosen by the environment.
- `TaskService`: `Validate` (the ordered checks), `Create` (`createTask`), a
  reference reading of the four rules (`Violates`, `IsFirstViolation`,
  `Acceptable`) and the lemmas relating the two.
- `TaskController`: `Respond` (the try/catch mapping), `Recover` (what a client
  reads back from a reply) and `Handle` (one request end to end).
- `Scenarios`: the cases in the repository's service and controller tests, over any
  store and any `today`.

"Today" is a parameter (a day ordinal, `Day = int`), read once per call. A due
date is rejected when it is strictly smaller than today.

## Model

| member | source | states |
|---|---|---|
| JavaString.Trim | backend/src/main/java/com/example/backend/services/TaskService.java:21 | the trimmed title is empty exactly when every char is at or below U+0020; otherwise it starts and ends with a non-trimmable char |
| JavaString.TrimLeading | backend/src/main/java/com/example/backend/services/TaskService.java:21 | the result is a suffix of the input, everything cut off is trimmable, and the result does not start with a trimmable char |
| JavaString.TrimTrailing | backend/src/main/java/com/example/backend/services/TaskService.java:21 | the result is a prefix of the input, everything cut off is trimmable, and the result does not end with a trimmable char |
| JavaString.SkipLeading | backend/src/main/java/com/example/backend/services/TaskService.java:21 | the first `trim()` loop stops exactly after the longest trimmable prefix, where the longest-trimmed suffix starts, and every char it skipped is trimmable |
| JavaString.SkipTrailing | backend/src/main/java/com/example/backend/services/TaskService.java:21 | the second `trim()` loop stops at the end of the longest-trimmed prefix, and every char it cut is trimmable |
| JavaString.TrimBounds | backend/src/main/java/com/example/backend/services/TaskService.java:21 | the slice kept by the index loops equals `Trim`, and both cut-off parts are blank |
| Storage.Save | backend/src/main/java/com/example/backend/services/TaskService.java:38 | every call is logged with its argument; success stores a copy with a fresh id and all other fields unchanged; a throwing save leaves the records as they were |
| TaskService.StatusTestMatchesSet | backend/src/main/java/com/example/backend/services/TaskService.java:25-28 | the three case-sensitive `equals` tests reject a status exactly when it is null or outside the three-value set |
| TaskService.Validate | backend/src/main/java/com/example/backend/services/TaskService.java:20-36 | no violation is reported exactly when the task breaks no rule; a reported violation is broken and no earlier check's rule is broken |
| TaskService.FirstViolationUnique | backend/src/main/java/com/example/backend/services/TaskService.java:20-36 | the first broken rule is unique, so the reported error is determined by the task and the day |
| TaskService.Create | backend/src/main/java/com/example/backend/services/TaskService.java:19-39 | a task is rejected exactly when it breaks a rule, with the first broken rule's message, and the store stays unchanged. An acceptable task is passed to `save` exactly once, as submitted. Success returns what `save` returned, with the submitted fields and an id. A throwing save surfaces with its own message |
| JavaString.TrimIsBlankCut | backend/src/main/java/com/example/backend/services/TaskService.java:21 | the trimmed title is the slice of the input starting after its longest trimmable prefix, and both cut-off parts are blank |
| TaskService.TitleCheckedFirst | backend/src/main/java/com/example/backend/services/TaskService.java:20-23 | a null or blank title yields "Error: Task title is empty" and no storage call, whatever else is wrong |
| TaskService.StatusCheckedBeforeDueDate | backend/src/main/java/com/example/backend/services/TaskService.java:25-28 | with a usable title, an illegal status yields the fixed status message and no storage call, whatever the due date |
| TaskService.MissingDueDateBeforePast | backend/src/main/java/com/example/backend/services/TaskService.java:30-32 | with title and status fine, a null due date yields "Error: Task due date is empty" and no storage call |
| TaskService.DueTodayAcceptedYesterdayRejected | backend/src/main/java/com/example/backend/services/TaskService.java:34-36 | a due date equal to today passes every check; the day before fails with "Error: Task due date cannot be in the past" |
| TaskService.DescriptionAndIdIgnored | backend/src/test/java/com/example/backend/services/TaskServiceTest.java:59-70 | changing the description (including to null) or the id never changes the validation answer |
| TaskService.RejectionIsStateless | backend/src/main/java/com/example/backend/services/TaskService.java:19-36 | a rejected task gets the same answer from any store and storage behaviour, and resubmitting it changes nothing |
| TaskService.CreatePreservesConsistency | backend/src/main/java/com/example/backend/services/TaskService.java:19-38 | ids stay distinct and fresh, and every persisted task has an id, a non-blank title, a legal status and a due date |
| TaskService.EmptyConsistent | backend/src/main/java/com/example/backend/repositories/TaskRepository.java:8-10 | a store with no records satisfies the store invariant, the base case for `CreatePreservesConsistency` |
| TaskService.CreatedNotInPast | backend/src/main/java/com/example/backend/services/TaskService.java:34-38 | a created task has a due date no earlier than the day it was created |
| TaskController.Respond | backend/src/main/java/com/example/backend/controllers/TaskController.java:24-51 | each outcome kind gets exactly one code (201, 400 or 500). The label matches the code one-to-one, and data is present only with 201. Validation messages and storage messages are passed through unchanged |
| TaskController.RecoverRespond | backend/src/main/java/com/example/backend/dto/TaskResponse.java:10-12 | the service outcome can be read back from the code and envelope |
| TaskController.RespondInjective | backend/src/main/java/com/example/backend/controllers/TaskController.java:22-51 | different outcomes never produce the same reply |
| TaskController.Handle | backend/src/main/java/com/example/backend/controllers/TaskController.java:22-52 | one request yields 400 exactly for tasks breaking a rule, with the first rule's message and storage untouched. It yields 500 exactly when save throws on an acceptable task, and 201 otherwise, with the stored task. It makes at most one save call, and exactly one for an acceptable task |
| Scenarios.FixtureAcceptable | backend/src/test/java/com/example/backend/services/TaskServiceTest.java:32-40 | the test fixture, with or without a description, breaks no rule |
| Scenarios.ValidTaskIsSavedOnce | backend/src/test/java/com/example/backend/services/TaskServiceTest.java:42-56 | the fixture is created, returned with every field except the id intact, and saved exactly once as submitted |
| Scenarios.NullDescriptionIsSaved | backend/src/test/java/com/example/backend/services/TaskServiceTest.java:58-70 | a null description is accepted and stays null |
| Scenarios.NullTitleIsRejected | backend/src/test/java/com/example/backend/services/TaskServiceTest.java:72-84 | the fixture with a null title gives "Error: Task title is empty" and leaves storage untouched |
| Scenarios.UnknownStatusIsRejected | backend/src/test/java/com/example/backend/services/TaskServiceTest.java:86-97 | the fixture with status "Finished" gives the fixed status message and leaves storage untouched |
| Scenarios.NullDueDateIsRejected | backend/src/test/java/com/example/backend/services/TaskServiceTest.java:99-110 | the fixture with a null due date gives "Error: Task due date is empty" and leaves storage untouched |
| Scenarios.YesterdayIsRejected | backend/src/test/java/com/example/backend/services/TaskServiceTest.java:112-126 | the fixture due the day before today gives "Error: Task due date cannot be in the past" and leaves storage untouched |
| Scenarios.ControlCharTitleIsEmpty | backend/src/main/java/com/example/backend/services/TaskService.java:21 | a title of tabs, newlines and spaces is rejected with 400 and the title message |
| Scenarios.ControllerReplies | backend/src/test/java/com/example/backend/controllers/TaskControllerTest.java:52-181 | success, a title failure and a generic failure give the code, message, label and data the controller tests expect |
| Scenarios.StorageFailureIsServerError | backend/src/test/java/com/example/backend/controllers/TaskControllerTest.java:168-181 | a save that throws "Something went wrong" on a valid task gives 500 with that message and null data |

## Left out

- HTTP routing, Spring dependency injection, JSON (de)serialisation and the test's
  `yyyy-M-dd` date format. These are transport plumbing. A request body that fails to
  parse never reaches the handler.
- `LocalDate.now()`: it becomes the `today` parameter. There is no calendar
  arithmetic; "yesterday" is `today - 1` on the day ordinal.
- The repository is a Spring Data JPA interface whose behaviour lives in a library that
  is not shown. Its `save` is modelled as always assigning a fresh id; the merge of a
  caller-supplied id is not modelled. How and when it throws is a parameter.
- The `Task` entity and the `InvalidTaskException` class are not part of this model.
  The entity is a datatype with nullable fields. The exception is the `Invalid` outcome.
- Java strings are UTF-16 code units and Dafny chars are Unicode scalar values. The trim
  test `c <= U+0020` gives the same answer on both.
- Exceptions other than a throwing `save` (for example a JVM error) are not modelled.
  The only exception a valid-by-construction request can raise is a storage one.
- The single service call per request is structural: `Handle` applies `Respond` to
  one `Create`. Its visible evidence is the save-call count in `Handle`'s contract.
- A generic fallback message for a 500 whose exception has a null message. The code
  passes the null message through unchanged, and the model follows the code.
- The React front end sends the request and shows the reply. It has no logic that
  this model covers.
