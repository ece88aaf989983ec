/**
 * `TaskController.createTask`: one call to the service per request, and an
 * exhaustive mapping of its outcome to a status code and a `TaskResponse`
 * envelope (message, status label, data).
 */
module TaskController {
  import opened Wrappers
  import opened Tasks
  import opened Storage
  import opened TaskService

  const CreatedCode: int := 201
  const BadRequestCode: int := 400
  const ServerErrorCode: int := 500

  const SuccessLabel: string := "success"
  const ClientErrorLabel: string := "client-error"
  const ServerErrorLabel: string := "server-error"

  const CreatedMessage: string := "Task created successfully"

  /** The three-field response body; `data` is null except on success. */
  datatype TaskResponse = TaskResponse(message: Option<string>, status: string, data: Option<Task>)

  /** A status code with its body. */
  datatype Reply = Reply(code: int, body: TaskResponse)

  /**
   * The try/catch of the handler: the specific catch for validation failures
   * precedes the generic one, so only non-validation failures become 500.
   */
  function Respond(o: Outcome): (r: Reply)
    ensures r.code == CreatedCode <==> o.Created?
    ensures r.code == BadRequestCode <==> o.Invalid?
    ensures r.code == ServerErrorCode <==> o.SystemError?
    ensures r.body.data.Some? <==> r.code == CreatedCode
    ensures r.body.status == SuccessLabel <==> r.code == CreatedCode
    ensures r.body.status == ClientErrorLabel <==> r.code == BadRequestCode
    ensures r.body.status == ServerErrorLabel <==> r.code == ServerErrorCode
    ensures o.Created? ==> r.body.message == Some(CreatedMessage) && r.body.data == Some(o.task)
    ensures o.Invalid? ==> r.body.message == Some(o.message)
    ensures o.SystemError? ==> r.body.message == o.detail
  {
    match o
    case Created(task) => Reply(CreatedCode, TaskResponse(Some(CreatedMessage), SuccessLabel, Some(task)))
    case Invalid(message) => Reply(BadRequestCode, TaskResponse(Some(message), ClientErrorLabel, None))
    case SystemError(detail) => Reply(ServerErrorCode, TaskResponse(detail, ServerErrorLabel, None))
  }

  /** What a client can read back from a reply: the outcome it reports, if any. */
  function Recover(r: Reply): Option<Outcome> {
    if r.code == CreatedCode && r.body.data.Some? then Some(Created(r.body.data.value))
    else if r.code == BadRequestCode && r.body.message.Some? then Some(Invalid(r.body.message.value))
    else if r.code == ServerErrorCode then Some(SystemError(r.body.message))
    else None
  }

  /** No information is lost between the service's outcome and the reply. */
  lemma RecoverRespond(o: Outcome)
    ensures Recover(Respond(o)) == Some(o)
  {
  }

  /** Distinct outcomes give distinct replies. */
  lemma RespondInjective(o1: Outcome, o2: Outcome)
    ensures Respond(o1) == Respond(o2) ==> o1 == o2
  {
    RecoverRespond(o1);
    RecoverRespond(o2);
  }

  /** A reply and the store after the request. */
  datatype Exchange = Exchange(reply: Reply, store: Store)

  /** The request handler: run the service once, then shape its outcome. */
  function Handle(s: Store, t: Task, today: Day, fault: Option<Fault>): (r: Exchange)
    ensures r.reply.code in {CreatedCode, BadRequestCode, ServerErrorCode}
    // client errors: exactly the tasks breaking a rule, with the first rule's message
    ensures r.reply.code == BadRequestCode <==> !Acceptable(t, today)
    ensures forall v :: IsFirstViolation(t, today, v) ==>
      r.reply.body == TaskResponse(Some(Message(v)), ClientErrorLabel, None) && r.store == s
    // server errors: exactly an acceptable task whose save threw, with the thrown message
    ensures r.reply.code == ServerErrorCode <==> Acceptable(t, today) && fault.Some?
    ensures Acceptable(t, today) && fault.Some? ==>
      r.reply.body == TaskResponse(fault.value.message, ServerErrorLabel, None)
    // success: the stored task, echoing every submitted field, with an id
    ensures r.reply.code == CreatedCode ==>
      && r.reply.body.message == Some(CreatedMessage)
      && r.reply.body.status == SuccessLabel
      && r.reply.body.data.Some?
      && SameContent(r.reply.body.data.value, t)
      && r.reply.body.data.value.id.Some?
      && r.store.records == s.records + [r.reply.body.data.value]
    // at most one save per request, and exactly one for an acceptable task
    ensures |r.store.calls| == |s.calls| + (if Acceptable(t, today) then 1 else 0)
  {
    var step := Create(s, t, today, fault);
    Exchange(Respond(step.outcome), step.store)
  }
}
