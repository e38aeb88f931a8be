/** One direction of request and response: a requester with its table of waiters, and the tasks
    that answer on the other side. Client calls are one exchange, elicitations another. */
module Exchanges {
  import opened Wrappers
  import opened JsonValues
  import opened Messages

  /** The receiving end of a waiter's one-shot channel. */
  datatype Slot = Waiting | Fired(resp: Response) | Dropped

  datatype Outcome = Got(resp: Response) | TransportClosed

  /** Where the code of one call is: id taken, waiter registered, request queued, returned. */
  datatype Phase = Allocated | Registered | Sent | Done(outcome: Outcome)

  datatype Call = Call(req: Request, phase: Phase, slot: Slot)

  /** A task answering a request: the delegate's decision (for elicitations), the answer, and
      whether the response has been handed to the writer. */
  datatype Task = Task(req: Request, decision: Option<ElicitResult>, answer: Option<Answer>, replied: bool)

  /** `pending` maps an id to the call whose waiter it holds. */
  datatype Exchange = Exchange(base: int, nextId: int, calls: seq<Call>, pending: map<int, nat>, tasks: seq<Task>)

  function Fresh(base: int): Exchange {
    Exchange(base, base, [], map[], [])
  }

  // --- atomic steps of the requester ---------------------------------------------------------

  function Begin(x: Exchange, verb: string, params: Option<Json>): Exchange {
    x.(nextId := x.nextId + 1,
       calls := x.calls + [Call(Request(Number(x.nextId), verb, params), Allocated, Waiting)])
  }

  function Register(x: Exchange, i: nat): Exchange {
    if i < |x.calls| && x.calls[i].phase.Allocated? && x.calls[i].req.id.Number? then
      x.(pending := x.pending[x.calls[i].req.id.n := i],
         calls := x.calls[i := x.calls[i].(phase := Registered)])
    else x
  }

  predicate CanSend(x: Exchange, i: nat) {
    i < |x.calls| && x.calls[i].phase.Registered? && x.calls[i].req.id.Number?
  }

  function MarkSent(x: Exchange, i: nat): Exchange
    requires CanSend(x, i)
  {
    x.(calls := x.calls[i := x.calls[i].(phase := Sent)])
  }

  /** The queue is closed. A client call just returns; an elicitation also removes its waiter. */
  function SendFailed(x: Exchange, i: nat, removeWaiter: bool): Exchange
    requires CanSend(x, i)
  {
    var c := x.calls[i];
    if removeWaiter then
      x.(pending := x.pending - {c.req.id.n},
         calls := x.calls[i := c.(phase := Done(TransportClosed), slot := if c.slot.Waiting? then Dropped else c.slot)])
    else
      x.(calls := x.calls[i := c.(phase := Done(TransportClosed))])
  }

  /** `rx.await` resolves. */
  function Finish(x: Exchange, i: nat): Exchange {
    if i < |x.calls| && x.calls[i].phase.Sent? && !x.calls[i].slot.Waiting? then
      var outcome := match x.calls[i].slot case Fired(r) => Got(r) case _ => TransportClosed;
      x.(calls := x.calls[i := x.calls[i].(phase := Done(outcome))])
    else x
  }

  /** A response arrives: its waiter, if there is one, is removed from the table and fired. */
  function Deliver(x: Exchange, r: Response): Exchange {
    if r.id.Number? && r.id.n in x.pending && x.pending[r.id.n] < |x.calls| then
      var i := x.pending[r.id.n];
      x.(pending := x.pending - {r.id.n}, calls := x.calls[i := x.calls[i].(slot := Fired(r))])
    else x
  }

  /** The waiter of call `i` is in the table. */
  predicate InTable(x: Exchange, i: nat)
    requires i < |x.calls|
  {
    x.calls[i].req.id.Number? && x.calls[i].req.id.n in x.pending && x.pending[x.calls[i].req.id.n] == i
  }

  /** The reader ends: the table is cleared, which drops every waiter in it. */
  function DropAll(x: Exchange): (y: Exchange)
    ensures |y.calls| == |x.calls|
  {
    x.(pending := map[],
       calls := seq(|x.calls|, i requires 0 <= i < |x.calls| =>
                  if InTable(x, i) && x.calls[i].slot.Waiting? then x.calls[i].(slot := Dropped) else x.calls[i]))
  }

  // --- steps of the answering side -----------------------------------------------------------

  function Spawn(x: Exchange, req: Request): Exchange {
    x.(tasks := x.tasks + [Task(req, None, None, false)])
  }

  function Settle(x: Exchange, t: nat, decision: Option<ElicitResult>, a: Answer): Exchange {
    if t < |x.tasks| && x.tasks[t].answer.None? then
      x.(tasks := x.tasks[t := x.tasks[t].(decision := decision, answer := Some(a))])
    else x
  }

  predicate CanReply(x: Exchange, t: nat) {
    t < |x.tasks| && x.tasks[t].answer.Some? && !x.tasks[t].replied
  }

  function Reply(x: Exchange, t: nat): Response
    requires CanReply(x, t)
  {
    Respond(x.tasks[t].req.id, x.tasks[t].answer.value)
  }

  function MarkReplied(x: Exchange, t: nat): Exchange
    requires CanReply(x, t)
  {
    x.(tasks := x.tasks[t := x.tasks[t].(replied := true)])
  }

  // --- the invariant -------------------------------------------------------------------------

  /** The request of the call may be under way: a call that has returned while its waiter was still
      open never queued it. */
  predicate Queued(c: Call) {
    c.phase.Sent? || (c.phase.Done? && !c.slot.Waiting?)
  }

  /** The call has a response exactly if its waiter got one, and then it is that one. */
  predicate Paired(c: Call) {
    && (c.slot.Fired? ==> c.phase.Sent? || c.phase == Done(Got(c.slot.resp)))
    && (c.phase.Done? && c.phase.outcome.Got? ==> c.slot == Fired(c.phase.outcome.resp))
  }

  ghost predicate Numbered(x: Exchange) {
    && x.nextId == x.base + |x.calls|
    && forall i :: 0 <= i < |x.calls| ==> x.calls[i].req.id == Number(x.base + i)
  }

  /** The table holds exactly the registered waiters that have neither fired nor been dropped. */
  ghost predicate TableExact(x: Exchange) {
    && (forall n :: n in x.pending ==> Holds(x, n))
    && (forall i :: 0 <= i < |x.calls| && x.calls[i].slot.Waiting? && !x.calls[i].phase.Allocated? ==> InTable(x, i))
    && (forall i :: 0 <= i < |x.calls| && x.calls[i].phase.Allocated? ==> x.calls[i].slot.Waiting?)
  }

  /** The entry for id `n` is the waiter of the call with that id. */
  ghost predicate Holds(x: Exchange, n: int)
    requires n in x.pending
  {
    && x.pending[n] < |x.calls| && x.calls[x.pending[n]].req.id == Number(n)
    && x.calls[x.pending[n]].slot.Waiting? && !x.calls[x.pending[n]].phase.Allocated?
  }

  /** `r` is the request of one of the calls, already queued. */
  ghost predicate Genuine(x: Exchange, r: Request) {
    && r.id.Number? && x.base <= r.id.n < x.base + |x.calls|
    && x.calls[r.id.n - x.base].req == r && Queued(x.calls[r.id.n - x.base])
  }

  /** Task `t` built `r`. */
  ghost predicate Built(tasks: seq<Task>, t: nat, r: Response) {
    t < |tasks| && tasks[t].answer.Some? && r == Respond(tasks[t].req.id, tasks[t].answer.value)
  }

  ghost predicate Answered(tasks: seq<Task>, r: Response) {
    exists t: nat :: Built(tasks, t, r)
  }

  /** Requests under way, on the wire or in a task, are genuine and each there only once. */
  ghost predicate RequestsExact(x: Exchange, wire: seq<Message>) {
    && (forall k :: 0 <= k < |wire| && wire[k].Req? ==> Genuine(x, wire[k].req))
    && (forall t :: 0 <= t < |x.tasks| ==> Genuine(x, x.tasks[t].req))
    && (forall j, k :: 0 <= j < k < |wire| && wire[j].Req? && wire[k].Req? ==> wire[j].req.id != wire[k].req.id)
    && (forall k, t :: 0 <= k < |wire| && 0 <= t < |x.tasks| && wire[k].Req? ==> wire[k].req.id != x.tasks[t].req.id)
    && (forall t, u :: 0 <= t < u < |x.tasks| ==> x.tasks[t].req.id != x.tasks[u].req.id)
  }

  /** Responses under way or delivered were built by a task; a fired waiter got its own id, and what a
      call returns is what its waiter got. */
  ghost predicate ResponsesExact(x: Exchange, wire: seq<Message>) {
    && (forall k :: 0 <= k < |wire| && wire[k].Resp? ==> Answered(x.tasks, wire[k].resp))
    && (forall i :: 0 <= i < |x.calls| && x.calls[i].slot.Fired? ==>
          x.calls[i].slot.resp.id == x.calls[i].req.id && Answered(x.tasks, x.calls[i].slot.resp))
    && (forall i :: 0 <= i < |x.calls| ==> Paired(x.calls[i]))
  }

  /** What holds of one direction: `out` carries its requests, `back` its responses. */
  ghost predicate Exact(x: Exchange, out: seq<Message>, back: seq<Message>) {
    Numbered(x) && TableExact(x) && RequestsExact(x, out) && ResponsesExact(x, back)
  }

  /** `y` is `x` with calls added or moved on; the answering side did nothing. */
  ghost predicate CallsAdvance(x: Exchange, y: Exchange) {
    && y.base == x.base && y.tasks == x.tasks && |x.calls| <= |y.calls|
    && forall i :: 0 <= i < |x.calls| ==>
         y.calls[i].req == x.calls[i].req && (Queued(x.calls[i]) ==> Queued(y.calls[i]))
  }

  lemma RequestsKept(x: Exchange, y: Exchange, wire: seq<Message>)
    requires RequestsExact(x, wire) && CallsAdvance(x, y)
    ensures RequestsExact(y, wire)
  {
    assert forall r :: Genuine(x, r) ==> Genuine(y, r);
  }

  /** Waiters and results: fired slots stay as they are, and a reply is what the slot holds. */
  ghost predicate SlotsAdvance(x: Exchange, y: Exchange) {
    && |x.calls| <= |y.calls|
    && (forall i :: 0 <= i < |y.calls| && y.calls[i].slot.Fired? ==>
          i < |x.calls| && x.calls[i].slot == y.calls[i].slot && x.calls[i].req == y.calls[i].req)
    && (forall i :: 0 <= i < |y.calls| ==> Paired(y.calls[i]))
  }

  lemma ResponsesKept(x: Exchange, y: Exchange, wire: seq<Message>)
    requires ResponsesExact(x, wire) && SlotsAdvance(x, y) && y.tasks == x.tasks
    ensures ResponsesExact(y, wire)
  {
  }

  lemma AnswersKept(tasks: seq<Task>, tasks': seq<Task>, r: Response)
    requires TasksAdvance(tasks, tasks') && Answered(tasks, r)
    ensures Answered(tasks', r)
  {
    var t: nat :| Built(tasks, t, r);
    assert Built(tasks', t, r);
  }

  /** Answers already built stay built when tasks are added or settled. */
  ghost predicate TasksAdvance(tasks: seq<Task>, tasks': seq<Task>) {
    && |tasks| <= |tasks'|
    && forall t :: 0 <= t < |tasks| && tasks[t].answer.Some? ==>
         tasks'[t].req == tasks[t].req && tasks'[t].answer == tasks[t].answer
  }

  lemma TasksKeepResponses(x: Exchange, y: Exchange, wire: seq<Message>)
    requires ResponsesExact(x, wire) && y.calls == x.calls && TasksAdvance(x.tasks, y.tasks)
    ensures ResponsesExact(y, wire)
  {
    forall r | Answered(x.tasks, r)
      ensures Answered(y.tasks, r)
    {
      AnswersKept(x.tasks, y.tasks, r);
    }
  }

  // The part of the invariant that is about the table of waiters, step by step.

  lemma TableBegins(x: Exchange, verb: string, params: Option<Json>)
    requires Numbered(x) && TableExact(x)
    ensures Numbered(Begin(x, verb, params)) && TableExact(Begin(x, verb, params))
  {
  }

  lemma TableRegisters(x: Exchange, i: nat)
    requires Numbered(x) && TableExact(x)
    ensures Numbered(Register(x, i)) && TableExact(Register(x, i))
  {
  }

  lemma TableFinishes(x: Exchange, i: nat)
    requires Numbered(x) && TableExact(x)
    ensures Numbered(Finish(x, i)) && TableExact(Finish(x, i))
  {
  }

  lemma TableDelivers(x: Exchange, r: Response)
    requires Numbered(x) && TableExact(x)
    ensures Numbered(Deliver(x, r)) && TableExact(Deliver(x, r))
  {
  }

  lemma TableSends(x: Exchange, i: nat, b: bool)
    requires Numbered(x) && TableExact(x) && CanSend(x, i)
    ensures Numbered(MarkSent(x, i)) && TableExact(MarkSent(x, i))
    ensures Numbered(SendFailed(x, i, b)) && TableExact(SendFailed(x, i, b))
  {
  }

  lemma TableDrops(x: Exchange)
    requires Numbered(x) && TableExact(x)
    ensures Numbered(DropAll(x)) && TableExact(DropAll(x))
    ensures forall i :: 0 <= i < |x.calls| && !x.calls[i].phase.Allocated? ==> !DropAll(x).calls[i].slot.Waiting?
  {
  }

  lemma BeginExact(x: Exchange, out: seq<Message>, back: seq<Message>, verb: string, params: Option<Json>)
    requires Exact(x, out, back)
    ensures Exact(Begin(x, verb, params), out, back)
  {
    hide Numbered, TableExact, RequestsExact, ResponsesExact;
    var y := Begin(x, verb, params);
    TableBegins(x, verb, params);
    RequestsKept(x, y, out);
    BeginSlots(x, back, verb, params);
    ResponsesKept(x, y, back);
  }

  lemma BeginSlots(x: Exchange, wire: seq<Message>, verb: string, params: Option<Json>)
    requires ResponsesExact(x, wire)
    ensures SlotsAdvance(x, Begin(x, verb, params))
  {
    hide Answered;
  }

  lemma RegisterExact(x: Exchange, out: seq<Message>, back: seq<Message>, i: nat)
    requires Exact(x, out, back)
    ensures Exact(Register(x, i), out, back)
  {
    hide Numbered, TableExact, RequestsExact, ResponsesExact;
    TableRegisters(x, i);
    RequestsKept(x, Register(x, i), out);
    RegisterSlots(x, back, i);
    ResponsesKept(x, Register(x, i), back);
  }

  lemma RegisterSlots(x: Exchange, wire: seq<Message>, i: nat)
    requires ResponsesExact(x, wire)
    ensures SlotsAdvance(x, Register(x, i))
  {
    hide Answered;
  }

  lemma FinishExact(x: Exchange, out: seq<Message>, back: seq<Message>, i: nat)
    requires Exact(x, out, back)
    ensures Exact(Finish(x, i), out, back)
  {
    hide Numbered, TableExact, RequestsExact, ResponsesExact;
    TableFinishes(x, i);
    RequestsKept(x, Finish(x, i), out);
    FinishSlots(x, back, i);
    ResponsesKept(x, Finish(x, i), back);
  }

  lemma FinishSlots(x: Exchange, wire: seq<Message>, i: nat)
    requires ResponsesExact(x, wire)
    ensures SlotsAdvance(x, Finish(x, i))
  {
    hide Answered;
  }

  lemma DropAllExact(x: Exchange, out: seq<Message>, back: seq<Message>)
    requires Exact(x, out, back)
    ensures Exact(DropAll(x), out, back)
  {
    TableDrops(x);
    RequestsKept(x, DropAll(x), out);
    ResponsesKept(x, DropAll(x), back);
  }

  lemma AppendRequest(x: Exchange, wire: seq<Message>, r: Request)
    requires RequestsExact(x, wire) && Genuine(x, r)
    requires forall k :: 0 <= k < |wire| && wire[k].Req? ==> wire[k].req.id != r.id
    requires forall t :: 0 <= t < |x.tasks| ==> x.tasks[t].req.id != r.id
    ensures RequestsExact(x, wire + [Req(r)])
  {
  }

  /** A call that is not queued yet has no request under way. */
  lemma NotUnderWay(x: Exchange, i: nat, q: Request)
    requires Numbered(x) && CanSend(x, i) && Genuine(x, q)
    ensures q.id != x.calls[i].req.id
  {
  }

  lemma SentSlots(x: Exchange, wire: seq<Message>, i: nat)
    requires ResponsesExact(x, wire) && CanSend(x, i)
    ensures SlotsAdvance(x, MarkSent(x, i))
  {
    hide Answered;
  }

  lemma SentGenuine(x: Exchange, i: nat)
    requires Numbered(x) && CanSend(x, i)
    ensures Genuine(MarkSent(x, i), x.calls[i].req)
  {
  }

  lemma FreshId(x: Exchange, wire: seq<Message>, i: nat)
    requires Numbered(x) && RequestsExact(x, wire) && CanSend(x, i)
    ensures forall k :: 0 <= k < |wire| && wire[k].Req? ==> wire[k].req.id != x.calls[i].req.id
    ensures forall t :: 0 <= t < |x.tasks| ==> x.tasks[t].req.id != x.calls[i].req.id
  {
    hide Numbered, Genuine;
    forall q | Genuine(x, q)
      ensures q.id != x.calls[i].req.id
    {
      NotUnderWay(x, i, q);
    }
  }

  lemma SentExact(x: Exchange, out: seq<Message>, back: seq<Message>, i: nat)
    requires Exact(x, out, back) && CanSend(x, i)
    ensures Exact(MarkSent(x, i), out + [Req(x.calls[i].req)], back)
  {
    hide Numbered, TableExact, RequestsExact, ResponsesExact, Genuine;
    var y := MarkSent(x, i);
    TableSends(x, i, false);
    RequestsKept(x, y, out);
    FreshId(x, out, i);
    SentGenuine(x, i);
    AppendRequest(y, out, x.calls[i].req);
    SentSlots(x, back, i);
    ResponsesKept(x, y, back);
  }

  lemma SendFailedExact(x: Exchange, out: seq<Message>, back: seq<Message>, i: nat, removeWaiter: bool)
    requires Exact(x, out, back) && CanSend(x, i)
    ensures Exact(SendFailed(x, i, removeWaiter), out, back)
  {
    TableSends(x, i, removeWaiter);
    RequestsKept(x, SendFailed(x, i, removeWaiter), out);
    ResponsesKept(x, SendFailed(x, i, removeWaiter), back);
  }

  /** An open waiter with an answered id belongs to a call that waits: nothing answers a call that
      never queued its request. */
  lemma AnsweredIsSent(x: Exchange, out: seq<Message>, r: Response)
    requires Numbered(x) && TableExact(x) && RequestsExact(x, out) && Answered(x.tasks, r)
    requires r.id.Number? && r.id.n in x.pending
    ensures x.pending[r.id.n] < |x.calls| && x.calls[x.pending[r.id.n]].phase.Sent?
  {
    var t: nat :| Built(x.tasks, t, r);
    assert Genuine(x, x.tasks[t].req);
    assert Holds(x, r.id.n);
  }

  lemma DeliverResponses(x: Exchange, out: seq<Message>, wire: seq<Message>, r: Response)
    requires Exact(x, out, wire) && Answered(x.tasks, r)
    ensures ResponsesExact(Deliver(x, r), wire)
  {
    hide RequestsExact, Answered;
    if r.id.Number? && r.id.n in x.pending {
      AnsweredIsSent(x, out, r);
    }
  }

  lemma DeliverExact(x: Exchange, out: seq<Message>, back: seq<Message>, r: Response)
    requires Exact(x, out, back) && Answered(x.tasks, r)
    ensures Exact(Deliver(x, r), out, back)
  {
    hide RequestsExact, ResponsesExact, Answered;
    TableDelivers(x, r);
    RequestsKept(x, Deliver(x, r), out);
    DeliverResponses(x, out, back, r);
  }

  lemma PopRequest(x: Exchange, wire: seq<Message>)
    requires RequestsExact(x, wire) && wire != [] && wire[0].Req?
    ensures RequestsExact(Spawn(x, wire[0].req), wire[1..])
  {
    var y, rest := Spawn(x, wire[0].req), wire[1..];
    assert forall k :: 0 <= k < |rest| ==> rest[k] == wire[k + 1];
    assert forall r :: Genuine(x, r) ==> Genuine(y, r);
  }

  /** The head of the request wire becomes a task. */
  lemma SpawnExact(x: Exchange, out: seq<Message>, back: seq<Message>)
    requires Exact(x, out, back) && out != [] && out[0].Req?
    ensures Exact(Spawn(x, out[0].req), out[1..], back)
  {
    PopRequest(x, out);
    TasksKeepResponses(x, Spawn(x, out[0].req), back);
  }

  lemma SettleRequests(x: Exchange, wire: seq<Message>, t: nat, d: Option<ElicitResult>, a: Answer)
    requires RequestsExact(x, wire)
    ensures RequestsExact(Settle(x, t, d, a), wire)
  {
    assert forall r :: Genuine(x, r) ==> Genuine(Settle(x, t, d, a), r);
  }

  lemma SettleExact(x: Exchange, out: seq<Message>, back: seq<Message>, t: nat, d: Option<ElicitResult>, a: Answer)
    requires Exact(x, out, back)
    ensures Exact(Settle(x, t, d, a), out, back)
  {
    hide RequestsExact, ResponsesExact;
    SettleRequests(x, out, t, d, a);
    TasksKeepResponses(x, Settle(x, t, d, a), back);
  }

  lemma MarkRepliedExact(x: Exchange, out: seq<Message>, back: seq<Message>, t: nat)
    requires Exact(x, out, back) && CanReply(x, t)
    ensures Exact(MarkReplied(x, t), out, back)
  {
    hide ResponsesExact;
    RepliedRequests(x, out, t);
    TasksKeepResponses(x, MarkReplied(x, t), back);
  }

  lemma RepliedRequests(x: Exchange, wire: seq<Message>, t: nat)
    requires RequestsExact(x, wire) && CanReply(x, t)
    ensures RequestsExact(MarkReplied(x, t), wire)
  {
    hide Genuine;
    forall r | Genuine(x, r)
      ensures Genuine(MarkReplied(x, t), r)
    {
      GenuineByCalls(x, MarkReplied(x, t), r);
    }
  }

  lemma GenuineByCalls(x: Exchange, y: Exchange, r: Request)
    requires Genuine(x, r) && y.base == x.base && y.calls == x.calls
    ensures Genuine(y, r)
  {
  }

  /** The built response goes onto the wire. */
  lemma ReplyExact(x: Exchange, out: seq<Message>, back: seq<Message>, t: nat)
    requires Exact(x, out, back) && CanReply(x, t)
    ensures Exact(MarkReplied(x, t), out, back)
    ensures Exact(MarkReplied(x, t), out, back + [Resp(Reply(x, t))])
  {
    hide Numbered, TableExact, RequestsExact, ResponsesExact;
    MarkRepliedExact(x, out, back, t);
    assert Built(MarkReplied(x, t).tasks, t, Reply(x, t));
    AppendResponse(MarkReplied(x, t), back, Reply(x, t));
  }

  lemma AppendResponse(x: Exchange, wire: seq<Message>, r: Response)
    requires ResponsesExact(x, wire) && Answered(x.tasks, r)
    ensures ResponsesExact(x, wire + [Resp(r)])
  {
    hide Answered;
  }

  // A wire may carry messages of the other direction, deliver them, or lose what it carries.

  lemma OutPush(x: Exchange, out: seq<Message>, back: seq<Message>, m: Message)
    requires Exact(x, out, back) && !m.Req?
    ensures Exact(x, out + [m], back)
  {
  }

  lemma BackPush(x: Exchange, out: seq<Message>, back: seq<Message>, m: Message)
    requires Exact(x, out, back) && !m.Resp?
    ensures Exact(x, out, back + [m])
  {
  }

  lemma Pops(x: Exchange, out: seq<Message>, back: seq<Message>)
    requires Exact(x, out, back)
    ensures out != [] ==> Exact(x, out[1..], back)
    ensures back != [] ==> Exact(x, out, back[1..])
  {
  }

  lemma HeadAnswered(x: Exchange, out: seq<Message>, back: seq<Message>)
    requires Exact(x, out, back) && back != [] && back[0].Resp?
    ensures Answered(x.tasks, back[0].resp)
  {
  }

  lemma Cuts(x: Exchange, out: seq<Message>, back: seq<Message>, k: nat)
    requires Exact(x, out, back)
    ensures k <= |out| ==> Exact(x, out[..k], back)
    ensures k <= |back| ==> Exact(x, out, back[..k])
  {
  }

  /** Steps never touch a waiter that has fired or been dropped: each fires at most once. */
  ghost predicate SlotsFinal(x: Exchange, y: Exchange) {
    && |x.calls| <= |y.calls|
    && forall i :: 0 <= i < |x.calls| ==>
         && y.calls[i].req == x.calls[i].req
         && (!x.calls[i].slot.Waiting? ==> y.calls[i].slot == x.calls[i].slot)
         && (!x.calls[i].phase.Allocated? ==> !y.calls[i].phase.Allocated?)
         && (x.calls[i].phase.Sent? || x.calls[i].phase.Done? ==> y.calls[i].phase.Sent? || y.calls[i].phase.Done?)
  }

  lemma StepsAreFinal(x: Exchange, i: nat, b: bool, verb: string, params: Option<Json>)
    ensures SlotsFinal(x, Begin(x, verb, params)) && SlotsFinal(x, Register(x, i)) && SlotsFinal(x, Finish(x, i))
    ensures SlotsFinal(x, DropAll(x))
    ensures CanSend(x, i) ==> SlotsFinal(x, MarkSent(x, i)) && SlotsFinal(x, SendFailed(x, i, b))
  {
  }

  lemma DeliveryIsFinal(x: Exchange, r: Response)
    requires TableExact(x)
    ensures SlotsFinal(x, Deliver(x, r))
  {
    if r.id.Number? && r.id.n in x.pending {
      assert x.calls[x.pending[r.id.n]].slot.Waiting?;
    }
  }

  /** A response reaches the call it answers, if that call's waiter is still open. */
  lemma DeliveredToOwner(x: Exchange, out: seq<Message>, back: seq<Message>, r: Response, i: nat)
    requires Exact(x, out, back) && Answered(x.tasks, r)
    requires i < |x.calls| && x.calls[i].req.id == r.id && x.calls[i].slot.Waiting?
    ensures x.calls[i].phase.Sent?
    ensures i < |Deliver(x, r).calls| && Deliver(x, r).calls[i] == Call(x.calls[i].req, Sent, Fired(r))
  {
    var t: nat :| Built(x.tasks, t, r);
    assert Genuine(x, x.tasks[t].req);
    assert InTable(x, i);
  }

  /** The await of a call whose request was queued ends with what its waiter got. */
  lemma AwaitEnds(x: Exchange, i: nat)
    requires i < |x.calls| && Paired(x.calls[i]) && (x.calls[i].phase.Sent? || x.calls[i].phase.Done?)
    ensures var y := Finish(x, i);
      && i < |y.calls| && y.calls[i].slot == x.calls[i].slot
      && (x.calls[i].slot.Fired? ==> y.calls[i].phase == Done(Got(x.calls[i].slot.resp)))
      && (x.calls[i].slot.Dropped? ==> y.calls[i].phase == Done(TransportClosed))
      && (x.calls[i].slot.Waiting? ==> y == x)
  {
  }

  /** A finished call got the answer of the one task that served its very request. */
  lemma ReplyMatches(x: Exchange, out: seq<Message>, back: seq<Message>, i: nat) returns (t: nat)
    requires Exact(x, out, back)
    requires i < |x.calls| && x.calls[i].phase.Done? && x.calls[i].phase.outcome.Got?
    ensures t < |x.tasks| && x.tasks[t].req == x.calls[i].req && Built(x.tasks, t, x.calls[i].phase.outcome.resp)
    ensures forall u :: 0 <= u < |x.tasks| && x.tasks[u].req.id == x.calls[i].req.id ==> u == t
  {
    var r := x.calls[i].phase.outcome.resp;
    assert Answered(x.tasks, r);
    t :| Built(x.tasks, t, r);
  }
}
