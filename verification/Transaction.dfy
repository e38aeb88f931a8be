/** A write and the end of its transaction: commit only what is positively confirmed. */
module Transaction {
  import opened Wrappers
  import opened JsonValues
  import opened ErpResult

  datatype Call = Call(operation: string, parameters: Json)

  datatype Reply = Ok(value: Json) | Err(error: string)

  /** What the backend answers to a call, given everything called before it. */
  type Backend = (seq<Call>, Call) -> Reply

  datatype WriteError = PermissionDenied | InvalidParameter | CallFailed(error: string)

  datatype Outcome = Outcome(operation: string, committed: bool, rolledBack: bool, messages: seq<ErpMessage>,
                             result: Json)

  datatype WriteResult = Done(outcome: Outcome) | Failed(error: WriteError)

  const COMMIT_FN := "ebs.fnd.transaction.commit"
  const ROLLBACK_FN := "ebs.fnd.transaction.rollback"

  const COMMIT: Call := Call(COMMIT_FN, Obj([("WAIT", Str("X"))]))
  const ROLLBACK: Call := Call(ROLLBACK_FN, Null)

  function Note(text: string): ErpMessage {
    ErpMessage(Warning, "ORAAUTO", "000", text, None, None, None)
  }

  function Unconfirmed(): ErpMessage {
    Note("REST operation returned no FND return stack; outcome unconfirmed — not committed")
  }

  /** The client handed to the workflow: every call is logged. */
  class ErpClient {
    const backend: Backend
    var log: seq<Call>

    constructor (backend: Backend)
      ensures this.backend == backend && log == []
    {
      this.backend := backend;
      log := [];
    }

    method CallOperation(c: Call) returns (r: Reply)
      modifies this`log
      ensures log == old(log) + [c] && r == backend(old(log), c)
    {
      r := backend(log, c);
      log := log + [c];
    }
  }

  // ---------------------------------------------------------------------------------------
  // The workflow, as a function of the backend
  // ---------------------------------------------------------------------------------------

  /** Whether a rollback was confirmed, and its messages. */
  function RollbackResult(r: Reply): (bool, seq<ErpMessage>) {
    match r
    case Ok(v) => (!HasFailure(Messages(v)), Messages(v))
    case Err(e) => (false, [Note("rollback could not be confirmed: " + e)])
  }

  function Undone(b: Backend, log: seq<Call>, req: Call, before: seq<ErpMessage>, result: Json): WriteResult {
    var (ok, more) := RollbackResult(b(log, ROLLBACK));
    Done(Outcome(req.operation, false, ok, before + more, result))
  }

  /** The result and the calls made, after the calls in `log`. */
  function Write(b: Backend, log: seq<Call>, req: Call, readOnly: bool): (WriteResult, seq<Call>) {
    if readOnly then (Failed(PermissionDenied), [])
    else if req.operation == COMMIT_FN || req.operation == ROLLBACK_FN then (Failed(InvalidParameter), [])
    else match b(log, req)
      case Err(e) => (Failed(CallFailed(e)), [req])
      case Ok(v) =>
        if HasFailure(Messages(v)) then (Undone(b, log + [req], req, Messages(v), v), [req, ROLLBACK])
        else if Messages(v) == [] then
          (Undone(b, log + [req], req, [Unconfirmed()], v), [req, ROLLBACK])
        else match b(log + [req], COMMIT)
          case Err(e) => (Failed(CallFailed(e)), [req, COMMIT])
          case Ok(w) =>
            var all := Messages(v) + Messages(w);
            if HasFailure(all) then (Undone(b, log + [req, COMMIT], req, all, v), [req, COMMIT, ROLLBACK])
            else (Done(Outcome(req.operation, true, false, all, v)), [req, COMMIT])
  }

  method Rollback(client: ErpClient) returns (ok: bool, messages: seq<ErpMessage>)
    modifies client`log
    ensures client.log == old(client.log) + [ROLLBACK]
    ensures (ok, messages) == RollbackResult(client.backend(old(client.log), ROLLBACK))
  {
    var r := client.CallOperation(ROLLBACK);
    if r.Err? {
      return false, [Note("rollback could not be confirmed: " + r.error)];
    }
    messages := ParseErpMessages(r.value);
    ok := !HasFailure(messages);
  }

  method ExecuteWrite(client: ErpClient, req: Call, readOnly: bool) returns (r: WriteResult)
    modifies client`log
    ensures (r, client.log) == (Write(client.backend, old(client.log), req, readOnly).0,
                                old(client.log) + Write(client.backend, old(client.log), req, readOnly).1)
  {
    hide Messages, HasFailure, RollbackResult, Note, Unconfirmed;
    ghost var log := client.log;
    if readOnly {
      assert log + [] == log;
      return Failed(PermissionDenied);
    }
    if req.operation == COMMIT_FN || req.operation == ROLLBACK_FN {
      assert log + [] == log;
      return Failed(InvalidParameter);
    }
    var reply := client.CallOperation(req);
    if reply.Err? {
      return Failed(CallFailed(reply.error));
    }
    var messages := ParseErpMessages(reply.value);
    if HasFailure(messages) {
      var ok, more := Rollback(client);
      assert log + [req] + [ROLLBACK] == log + [req, ROLLBACK];
      return Done(Outcome(req.operation, false, ok, messages + more, reply.value));
    }
    if messages == [] {
      var ok, more := Rollback(client);
      assert log + [req] + [ROLLBACK] == log + [req, ROLLBACK];
      return Done(Outcome(req.operation, false, ok, [Unconfirmed()] + more, reply.value));
    }
    var commit := client.CallOperation(COMMIT);
    assert log + [req] + [COMMIT] == log + [req, COMMIT];
    if commit.Err? {
      return Failed(CallFailed(commit.error));
    }
    var more := ParseErpMessages(commit.value);
    messages := messages + more;
    if HasFailure(messages) {
      var ok, last := Rollback(client);
      assert log + [req, COMMIT] + [ROLLBACK] == log + [req, COMMIT, ROLLBACK];
      return Done(Outcome(req.operation, false, ok, messages + last, reply.value));
    }
    return Done(Outcome(req.operation, true, false, messages, reply.value));
  }

  // ---------------------------------------------------------------------------------------
  // What a commit means
  // ---------------------------------------------------------------------------------------

  /** The reply holds a row within reach, and no failing one. */
  ghost predicate Confirms(r: Reply) {
    && r.Ok?
    && (exists row, path :: Reaches(r.value, row, path, MAX_DEPTH))
    && forall row :: !ReachesFailure(r.value, row)
  }

  /** The reply holds no failing row within reach. */
  ghost predicate NoFailure(r: Reply) {
    r.Ok? && forall row :: !ReachesFailure(r.value, row)
  }

  lemma FailureJoins(a: seq<ErpMessage>, b: seq<ErpMessage>)
    ensures HasFailure(a + b) <==> HasFailure(a) || HasFailure(b)
  {
    hide IsFailure;
    if HasFailure(a) {
      var i :| 0 <= i < |a| && IsFailure(a[i].severity);
      assert (a + b)[i] == a[i];
    }
    if HasFailure(b) {
      var i :| 0 <= i < |b| && IsFailure(b[i].severity);
      assert (a + b)[|a| + i] == b[i];
    }
  }

  lemma ConfirmsByMessages(r: Reply)
    ensures Confirms(r) <==> r.Ok? && Messages(r.value) != [] && !HasFailure(Messages(r.value))
    ensures NoFailure(r) <==> r.Ok? && !HasFailure(Messages(r.value))
  {
    hide Messages, HasFailure, Reaches, ReachesFailure;
    if r.Ok? {
      SilenceByPath(r.value);
      FailureByPath(r.value);
    }
  }

  ghost predicate Allowed(req: Call, readOnly: bool) {
    !readOnly && req.operation != COMMIT_FN && req.operation != ROLLBACK_FN
  }

  predicate Committed(r: WriteResult) {
    r.Done? && r.outcome.committed
  }

  /** For every backend: a write is reported committed exactly when it was allowed, the business
      reply confirms it, and the commit reply holds no failing row; the calls are then exactly the
      business call and the commit. */
  lemma CommittedExactly(b: Backend, log: seq<Call>, req: Call, readOnly: bool)
    ensures Committed(Write(b, log, req, readOnly).0) <==>
            Allowed(req, readOnly) && Confirms(b(log, req)) && NoFailure(b(log + [req], COMMIT))
    ensures Committed(Write(b, log, req, readOnly).0) ==>
            Write(b, log, req, readOnly).1 == [req, COMMIT] && !Write(b, log, req, readOnly).0.outcome.rolledBack
  {
    hide Messages, HasFailure, Confirms, NoFailure, RollbackResult, Unconfirmed;
    ConfirmsByMessages(b(log, req));
    ConfirmsByMessages(b(log + [req], COMMIT));
    if b(log, req).Ok? && b(log + [req], COMMIT).Ok? {
      FailureJoins(Messages(b(log, req).value), Messages(b(log + [req], COMMIT).value));
    }
  }

  /** The commit is only ever called second, after a business reply that confirms the write. */
  lemma CommitOnlyIfConfirmed(b: Backend, log: seq<Call>, req: Call, readOnly: bool)
    ensures COMMIT in Write(b, log, req, readOnly).1 <==> Allowed(req, readOnly) && Confirms(b(log, req))
    ensures COMMIT in Write(b, log, req, readOnly).1 ==> [req, COMMIT] <= Write(b, log, req, readOnly).1
  {
    hide Messages, HasFailure, Confirms, Undone;
    ConfirmsByMessages(b(log, req));
  }

  /** Every reported outcome that is not committed ends with a rollback, and says it was rolled back
      exactly when the rollback reply holds no failing row. */
  lemma UncommittedIsRolledBack(b: Backend, log: seq<Call>, req: Call, readOnly: bool)
    ensures var (r, calls) := Write(b, log, req, readOnly);
      r.Done? && !Committed(r) ==>
        && |calls| > 0 && calls[|calls| - 1] == ROLLBACK
        && (r.outcome.rolledBack <==> NoFailure(b(log + calls[..|calls| - 1], ROLLBACK)))
  {
    hide Messages, HasFailure, NoFailure, RollbackResult, Unconfirmed;
    RollbackByReply(b(log + [req], ROLLBACK));
    RollbackByReply(b(log + [req, COMMIT], ROLLBACK));
    assert [req, ROLLBACK][..1] == [req] && [req, COMMIT, ROLLBACK][..2] == [req, COMMIT];
  }

  lemma RollbackByReply(r: Reply)
    ensures RollbackResult(r).0 <==> NoFailure(r)
  {
    hide Messages, HasFailure, NoFailure;
    ConfirmsByMessages(r);
  }

  /** A refused write makes no call at all. A rollback is called exactly once, and last, in every
      reported uncommitted outcome. A write that reaches the backend and is not committed goes without
      a rollback exactly when its own reply is an error, or when it was confirmed and the reply to the
      commit is an error; that error is passed on as it is. */
  lemma CallsMade(b: Backend, log: seq<Call>, req: Call, readOnly: bool)
    ensures var (r, calls) := Write(b, log, req, readOnly);
      && (!Allowed(req, readOnly) <==> calls == [])
      && (ROLLBACK in calls <==> r.Done? && !Committed(r))
      && (calls != [] && !Committed(r) && ROLLBACK !in calls <==>
          Allowed(req, readOnly) && LeavesOpen(b, log, req))
      && (Allowed(req, readOnly) && b(log, req).Err? ==>
          r == Failed(CallFailed(b(log, req).error)) && calls == [req])
      && (Allowed(req, readOnly) && Confirms(b(log, req)) && b(log + [req], COMMIT).Err? ==>
          r == Failed(CallFailed(b(log + [req], COMMIT).error)) && calls == [req, COMMIT])
  {
    hide Messages, HasFailure, Confirms, RollbackResult, Unconfirmed;
    ConfirmsByMessages(b(log, req));
  }

  /** What the reply to one call adds to the report; `first` for the reply to the write itself. */
  function Said(r: Reply, first: bool): seq<ErpMessage> {
    match r
    case Ok(v) =>
      if first && Messages(v) == [] then
        [ErpMessage(Warning, "ORAAUTO", "000",
                    "REST operation returned no FND return stack; outcome unconfirmed — not committed", None, None, None)]
      else Messages(v)
    case Err(e) => [ErpMessage(Warning, "ORAAUTO", "000", "rollback could not be confirmed: " + e, None, None, None)]
  }

  /** What the replies to `calls` said, in the order of the calls. */
  function Heard(b: Backend, log: seq<Call>, calls: seq<Call>): seq<ErpMessage> {
    if calls == [] then [] else
      var n := |calls| - 1;
      Heard(b, log, calls[..n]) + Said(b(log + calls[..n], calls[n]), n == 0)
  }

  lemma HeardTwo(b: Backend, log: seq<Call>, c: Call, d: Call)
    ensures Heard(b, log, [c]) == Said(b(log, c), true)
    ensures Heard(b, log, [c, d]) == Said(b(log, c), true) + Said(b(log + [c], d), false)
  {
    hide Said;
    assert [c][..0] == [] && [c, d][..1] == [c] && log + [] == log;
  }

  lemma HeardThree(b: Backend, log: seq<Call>, c: Call, d: Call, e: Call)
    ensures Heard(b, log, [c, d, e]) ==
            Said(b(log, c), true) + Said(b(log + [c], d), false) + Said(b(log + [c, d], e), false)
  {
    hide Said;
    HeardTwo(b, log, c, d);
    assert [c, d, e][..2] == [c, d];
  }

  /** A reported outcome names the operation, carries the reply to the write itself, and tells
      everything the replies said, in the order of the calls. */
  lemma ReportIsComplete(b: Backend, log: seq<Call>, req: Call, readOnly: bool)
    ensures var (r, calls) := Write(b, log, req, readOnly);
      r.Done? ==>
        && r.outcome.operation == req.operation
        && Ok(r.outcome.result) == b(log, req)
        && r.outcome.messages == Heard(b, log, calls)
  {
    hide Messages, HasFailure, Said, RollbackResult, Unconfirmed;
    HeardTwo(b, log, req, ROLLBACK);
    HeardTwo(b, log, req, COMMIT);
    HeardThree(b, log, req, COMMIT, ROLLBACK);
    RollbackSays(b(log + [req], ROLLBACK));
    RollbackSays(b(log + [req, COMMIT], ROLLBACK));
    RepliesSay(b(log, req));
    RepliesSay(b(log + [req], COMMIT));
  }

  lemma RollbackSays(r: Reply)
    ensures RollbackResult(r).1 == Said(r, false)
  {
    hide Messages, HasFailure;
  }

  lemma RepliesSay(r: Reply)
    ensures r.Ok? ==> Said(r, false) == Messages(r.value)
    ensures r.Ok? ==> Said(r, true) == if Messages(r.value) == [] then [Unconfirmed()] else Messages(r.value)
    ensures r.Ok? && Messages(r.value) == [] ==> !HasFailure(Messages(r.value))
  {
    hide Messages;
  }

  /** An error reply to the write itself, or to the commit of a confirmed write. */
  ghost predicate LeavesOpen(b: Backend, log: seq<Call>, req: Call) {
    b(log, req).Err? || (Confirms(b(log, req)) && b(log + [req], COMMIT).Err?)
  }

  const ROW: Json := Obj([("TYPE", Str("S")), ("MESSAGE", Str("done"))])

  /** A backend that confirms every write and fails every commit. */
  function CommitFails(log: seq<Call>, c: Call): Reply {
    if c == COMMIT then Err("timeout") else Ok(ROW)
  }

  lemma RowConfirms()
    ensures Messages(ROW) != [] && !HasFailure(Messages(ROW))
  {
    hide ParseOne;
    assert ROW.fields[0].0 == "TYPE" && ROW.fields[1].0 == "MESSAGE";
    assert IsRow(ROW) && Rows(ROW, 0) == [ROW];
    assert !FailingRow(ROW);
    FailureIsFailingRow(ROW);
  }

  /** A confirmed write can be left neither committed nor rolled back. */
  lemma CommitErrorLeavesOpen(req: Call)
    requires Allowed(req, false)
    ensures Write(CommitFails, [], req, false) == (Failed(CallFailed("timeout")), [req, COMMIT])
  {
    hide Messages, HasFailure, RollbackResult, Unconfirmed;
    RowConfirms();
    assert req != COMMIT;
  }
}
