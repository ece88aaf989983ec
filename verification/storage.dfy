/**
 * The task repository, reduced to the one operation the workflow uses:
 * `save`, which persists a task under a fresh identifier. The store also
 * keeps a log of every `save` call, so that "never called" and "called
 * exactly once with this task" can be stated about it.
 */
module Storage {
  import opened Wrappers
  import opened Tasks

  /** A failure raised by storage itself; its Java message may be null. */
  datatype Fault = Fault(message: Option<string>)

  /**
   * `records`: persisted tasks in insertion order; `nextId`: the identifier
   * the next successful save hands out; `calls`: the argument of every
   * `save` call so far, successful or not.
   */
  datatype Store = Store(records: seq<Task>, nextId: int, calls: seq<Task>)

  /** What a `save` call returns, together with the store after it. */
  datatype Saved = Saved(result: Result<Task, Fault>, store: Store)

  /** No records, no calls. */
  const Empty: Store := Store([], 1, [])

  /** Every record has an identifier below `nextId`, and no two share one. */
  predicate IdsFresh(s: Store) {
    && (forall i :: 0 <= i < |s.records| ==> s.records[i].id.Some? && s.records[i].id.value < s.nextId)
    && (forall i, j :: 0 <= i < j < |s.records| ==> s.records[i].id != s.records[j].id)
  }

  /**
   * `save(task)`. `fault` is the environment's choice: `None` when the
   * underlying store accepts the write, `Some(f)` when it throws `f`. The
   * call is logged either way; a failed write leaves the records unchanged.
   */
  function Save(s: Store, t: Task, fault: Option<Fault>): (r: Saved)
    ensures IdsFresh(s) ==> IdsFresh(r.store)
    ensures r.store.calls == s.calls + [t]
    ensures r.result.Success? <==> fault.None?
    ensures r.result.Success? ==>
      && SameContent(r.result.value, t)
      && r.result.value.id.Some?
      && (IdsFresh(s) ==> forall i :: 0 <= i < |s.records| ==> s.records[i].id != r.result.value.id)
      && r.store.records == s.records + [r.result.value]
    ensures r.result.Failure? ==> r.result.error == fault.value && r.store.records == s.records
  {
    match fault
    case None =>
      var saved := t.(id := Some(s.nextId));
      Saved(Success(saved), Store(s.records + [saved], s.nextId + 1, s.calls + [t]))
    case Some(f) =>
      Saved(Failure(f), s.(calls := s.calls + [t]))
  }
}
