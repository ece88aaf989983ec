/**
 * `TaskService.createTask`: four checks in a fixed order, the first failure
 * ending the call with its exact message; a task passing all four is handed
 * to storage once and storage's answer is returned.
 */
module TaskService {
  import opened Wrappers
  import opened JavaString
  import opened Tasks
  import opened Storage

  /** The four validation rules, one per check. */
  datatype Violation = EmptyTitle | BadStatus | MissingDueDate | PastDueDate

  const TitleEmptyMessage: string := "Error: Task title is empty"
  const BadStatusMessage: string := "Error: Task status must either be 'Complete' or 'In Progress' or 'To Do'"
  const DueDateEmptyMessage: string := "Error: Task due date is empty"
  const PastDueDateMessage: string := "Error: Task due date cannot be in the past"

  /** The message the validation exception carries for each rule. */
  function Message(v: Violation): string {
    match v
    case EmptyTitle => TitleEmptyMessage
    case BadStatus => BadStatusMessage
    case MissingDueDate => DueDateEmptyMessage
    case PastDueDate => PastDueDateMessage
  }

  /** The position of each check in the order the service runs them. */
  function Rank(v: Violation): nat {
    match v
    case EmptyTitle => 0
    case BadStatus => 1
    case MissingDueDate => 2
    case PastDueDate => 3
  }

  /**
   * The rule `v` is broken by `t` on day `today`. This is the reference
   * reading of the rules: blankness is "every char at most U+0020" rather
   * than a call to trim, and the legal statuses are a set.
   */
  predicate Violates(t: Task, today: Day, v: Violation) {
    match v
    case EmptyTitle => t.title.None? || IsBlank(t.title.value)
    case BadStatus => t.status.None? || t.status.value !in LegalStatuses
    case MissingDueDate => t.dueDate.None?
    case PastDueDate => t.dueDate.Some? && t.dueDate.value < today
  }

  /** `v` is broken and no rule checked before it is. */
  predicate IsFirstViolation(t: Task, today: Day, v: Violation) {
    Violates(t, today, v) && forall w :: Rank(w) < Rank(v) ==> !Violates(t, today, w)
  }

  /** The service's three `equals` tests reject exactly the statuses outside the legal set. */
  lemma StatusTestMatchesSet(status: Option<string>)
    ensures (status != Some(Complete) && status != Some(InProgress) && status != Some(ToDo))
        <==> (status.None? || status.value !in LegalStatuses)
  {
  }

  /** At most one rule is the first one broken. */
  lemma FirstViolationUnique(t: Task, today: Day, v: Violation)
    requires IsFirstViolation(t, today, v)
    ensures forall w :: IsFirstViolation(t, today, w) ==> w == v
  {
  }

  /** `t` breaks no rule on day `today`. */
  predicate Acceptable(t: Task, today: Day) {
    forall v :: !Violates(t, today, v)
  }

  /**
   * The checks as the service runs them, in order: trim-then-empty on the
   * title, three case-sensitive `equals` on the status, a null test and an
   * `isBefore(today)` on the due date. The answer is the first rule broken.
   */
  function Validate(t: Task, today: Day): (r: Option<Violation>)
    ensures r.None? <==> Acceptable(t, today)
    ensures r.Some? ==> IsFirstViolation(t, today, r.value)
  {
    StatusTestMatchesSet(t.status);
    if t.title.None? || Trim(t.title.value) == [] then
      assert Violates(t, today, EmptyTitle);
      Some(EmptyTitle)
    else if t.status != Some(Complete) && t.status != Some(InProgress) && t.status != Some(ToDo) then
      assert Violates(t, today, BadStatus);
      Some(BadStatus)
    else if t.dueDate.None? then
      assert Violates(t, today, MissingDueDate);
      Some(MissingDueDate)
    else if t.dueDate.value < today then
      assert Violates(t, today, PastDueDate);
      Some(PastDueDate)
    else
      None
  }

  /**
   * What `createTask` ends with: the task storage returned, a validation
   * exception with its message, or any other exception (from storage) with
   * its possibly-null message.
   */
  datatype Outcome = Created(task: Task) | Invalid(message: string) | SystemError(detail: Option<string>)

  /** An outcome together with the store after the call. */
  datatype Step = Step(outcome: Outcome, store: Store)

  /**
   * `createTask(task)` with `today` read once and `fault` the storage's
   * behaviour on the one `save` call it may make.
   */
  function Create(s: Store, t: Task, today: Day, fault: Option<Fault>): (r: Step)
    // a validation failure carries the message of the first broken rule and leaves storage untouched
    ensures r.outcome.Invalid? <==> !Acceptable(t, today)
    ensures r.outcome.Invalid? ==> r.store == s
    ensures forall v :: IsFirstViolation(t, today, v) ==> r.outcome == Invalid(Message(v))
    // an acceptable task is passed to save exactly once, unchanged
    ensures Acceptable(t, today) ==> r.store.calls == s.calls + [t]
    // success: storage wrote it, and the returned task is the submitted one plus an id
    ensures r.outcome.Created? <==> Acceptable(t, today) && fault.None?
    ensures r.outcome.Created? ==>
      && r.outcome.task == Save(s, t, fault).result.value
      && SameContent(r.outcome.task, t)
      && r.outcome.task.id.Some?
      && r.store.records == s.records + [r.outcome.task]
    // a storage failure surfaces with storage's own message
    ensures r.outcome.SystemError? ==> fault == Some(Fault(r.outcome.detail)) && r.store.records == s.records
    ensures IdsFresh(s) ==> IdsFresh(r.store)
  {
    match Validate(t, today)
    case Some(v) =>
      FirstViolationUnique(t, today, v);
      Step(Invalid(Message(v)), s)
    case None =>
      var saved := Save(s, t, fault);
      match saved.result
      case Success(task) => Step(Created(task), saved.store)
      case Failure(f) => Step(SystemError(f.message), saved.store)
  }

  /** A blank or missing title is reported, whatever else is wrong with the task. */
  lemma TitleCheckedFirst(s: Store, t: Task, today: Day, fault: Option<Fault>)
    requires Violates(t, today, EmptyTitle)
    ensures Create(s, t, today, fault) == Step(Invalid(TitleEmptyMessage), s)
  {
  }

  /** With a usable title, a bad status is reported whatever the due date is. */
  lemma StatusCheckedBeforeDueDate(s: Store, t: Task, today: Day, fault: Option<Fault>)
    requires !Violates(t, today, EmptyTitle) && Violates(t, today, BadStatus)
    ensures Create(s, t, today, fault) == Step(Invalid(BadStatusMessage), s)
  {
  }

  /** A missing due date is reported as missing, never as being in the past. */
  lemma MissingDueDateBeforePast(s: Store, t: Task, today: Day, fault: Option<Fault>)
    requires !Violates(t, today, EmptyTitle) && !Violates(t, today, BadStatus) && t.dueDate.None?
    ensures Create(s, t, today, fault) == Step(Invalid(DueDateEmptyMessage), s)
  {
  }

  /** The boundary of the date rule: today is accepted, the day before is not. */
  lemma DueTodayAcceptedYesterdayRejected(t: Task, today: Day)
    requires !Violates(t, today, EmptyTitle) && !Violates(t, today, BadStatus)
    ensures Acceptable(t.(dueDate := Some(today)), today)
    ensures Validate(t.(dueDate := Some(today - 1)), today) == Some(PastDueDate)
  {
  }

  /** Neither the description nor a caller-supplied id takes part in validation. */
  lemma DescriptionAndIdIgnored(t: Task, today: Day, description: Option<string>, id: Option<int>)
    ensures Validate(t.(description := description, id := id), today) == Validate(t, today)
  {
  }

  /**
   * Validation keeps no state: a rejected task gets the same answer from any
   * store, under any storage behaviour, and resubmitting it changes nothing.
   */
  lemma RejectionIsStateless(s1: Store, s2: Store, t: Task, today: Day, f1: Option<Fault>, f2: Option<Fault>)
    requires !Acceptable(t, today)
    ensures Create(s1, t, today, f1).outcome == Create(s2, t, today, f2).outcome
    ensures Create(Create(s1, t, today, f1).store, t, today, f2) == Create(s1, t, today, f1)
  {
  }

  /** A record storage may hold: what the four checks guarantee, plus an id. */
  predicate Persistable(t: Task) {
    && t.id.Some?
    && t.title.Some? && !IsBlank(t.title.value)
    && t.status.Some? && t.status.value in LegalStatuses
    && t.dueDate.Some?
  }

  /** The store's invariant: distinct fresh ids, and every record persistable. */
  predicate Consistent(s: Store) {
    IdsFresh(s) && forall i :: 0 <= i < |s.records| ==> Persistable(s.records[i])
  }

  /** The base case: an empty store is consistent. */
  lemma EmptyConsistent()
    ensures Consistent(Empty)
  {
  }

  /** Since create is the only write, every persisted task satisfies the rules. */
  lemma CreatePreservesConsistency(s: Store, t: Task, today: Day, fault: Option<Fault>)
    requires Consistent(s)
    ensures Consistent(Create(s, t, today, fault).store)
  {
    var r := Create(s, t, today, fault);
    if r.outcome.Created? {
      assert !Violates(t, today, EmptyTitle);
      assert !Violates(t, today, BadStatus);
      assert !Violates(t, today, MissingDueDate);
      assert Persistable(r.outcome.task);
      forall i | 0 <= i < |r.store.records|
        ensures Persistable(r.store.records[i])
      {
        if i < |s.records| {
          assert r.store.records[i] == s.records[i];
        }
      }
    }
  }

  /** A created task was due today or later on the day it was created. */
  lemma CreatedNotInPast(s: Store, t: Task, today: Day, fault: Option<Fault>)
    requires Create(s, t, today, fault).outcome.Created?
    ensures Create(s, t, today, fault).outcome.task.dueDate.Some?
    ensures Create(s, t, today, fault).outcome.task.dueDate.value >= today
  {
  }
}
