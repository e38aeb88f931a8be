/** Client and server together: two exchanges over two queues, in every interleaving. */
module Protocol {
  import opened Wrappers
  import opened JsonValues
  import opened Messages
  import opened Exchanges

  /** `calls` are the client's requests, `elicits` the server's. Each queue stands for sender-side
      channel, byte stream and receiver-side channel in one. */
  datatype State = State(
    calls: Exchange, elicits: Exchange,
    toServer: seq<Message>, toClient: seq<Message>,
    toServerOpen: bool, toClientOpen: bool,
    clientEof: bool, serverEof: bool)

  /** Ids count up from two bases: 1 and 1,000,000 in the code. Nothing below depends on which, not
      even on their being different. */
  function Start(a: int, b: int): State {
    State(Fresh(a), Fresh(b), [], [], true, true, false, false)
  }

  /** The atomic steps of all the tasks. */
  datatype Event =
    | CallBegin(verb: string, params: Option<Json>)
    | CallRegister(i: nat)
    | CallSend(i: nat)
    | CallFinish(i: nat)
    | Notify(verb: string)
    | ElicitBegin(message: string, schema: Json)
    | ElicitRegister(i: nat)
    | ElicitSend(i: nat)
    | ElicitFinish(i: nat)
    | ServerReceive
    | ClientReceive
    | Handle(t: nat, answer: Answer)
    | ServerReply(t: nat)
    | Decide(t: nat, decision: ElicitResult)
    | DelegateReply(t: nat)
    | ClientEof
    | ServerEof
    | ServerWriterFails(k: nat)
    | ClientWriterFails(k: nat)

  /** A step whose guard does not hold changes nothing. */
  function Apply(s: State, e: Event): State {
    match e
    case CallBegin(verb, params) => s.(calls := Begin(s.calls, verb, params))
    case CallRegister(i) => s.(calls := Register(s.calls, i))
    case CallSend(i) =>
      if !CanSend(s.calls, i) then s
      else if s.toServerOpen then s.(calls := MarkSent(s.calls, i), toServer := s.toServer + [Req(s.calls.calls[i].req)])
      else s.(calls := SendFailed(s.calls, i, false))
    case CallFinish(i) => s.(calls := Finish(s.calls, i))
    case Notify(verb) => if s.toServerOpen then s.(toServer := s.toServer + [Notice(verb)]) else s
    case ElicitBegin(message, schema) =>
      s.(elicits := Begin(s.elicits, ELICITATION_CREATE, Some(EncodeParams(message, schema))))
    case ElicitRegister(i) => s.(elicits := Register(s.elicits, i))
    case ElicitSend(i) =>
      if !CanSend(s.elicits, i) then s
      else if s.toClientOpen then s.(elicits := MarkSent(s.elicits, i), toClient := s.toClient + [Req(s.elicits.calls[i].req)])
      else s.(elicits := SendFailed(s.elicits, i, true))
    case ElicitFinish(i) => s.(elicits := Finish(s.elicits, i))
    case ServerReceive =>
      if s.serverEof || s.toServer == [] then s else
        var s' := s.(toServer := s.toServer[1..]);
        (match s.toServer[0]
         case Req(r) => s'.(calls := Spawn(s.calls, r))
         case Resp(r) => s'.(elicits := Deliver(s.elicits, r))
         case Notice(_) => s')
    case ClientReceive =>
      if s.clientEof || s.toClient == [] then s else
        var s' := s.(toClient := s.toClient[1..]);
        (match s.toClient[0]
         case Req(r) => s'.(elicits := Spawn(s.elicits, r))
         case Resp(r) => s'.(calls := Deliver(s.calls, r))
         case Notice(_) => s')
    case Handle(t, answer) => s.(calls := Settle(s.calls, t, None, answer))
    case ServerReply(t) =>
      if !CanReply(s.calls, t) then s else
        s.(calls := MarkReplied(s.calls, t),
           toClient := if s.toClientOpen then s.toClient + [Resp(Reply(s.calls, t))] else s.toClient)
    case Decide(t, d) =>
      if t < |s.elicits.tasks| then
        s.(elicits := Settle(s.elicits, t, Some(d), DelegateAnswer(s.elicits.tasks[t].req, d)))
      else s
    case DelegateReply(t) =>
      if !CanReply(s.elicits, t) then s else
        s.(elicits := MarkReplied(s.elicits, t),
           toServer := if s.toServerOpen then s.toServer + [Resp(Reply(s.elicits, t))] else s.toServer)
    case ClientEof => s.(clientEof := true, calls := if s.clientEof then s.calls else DropAll(s.calls))
    case ServerEof => s.(serverEof := true)
    case ServerWriterFails(k) => if k <= |s.toClient| then s.(toClient := s.toClient[..k], toClientOpen := false) else s
    case ClientWriterFails(k) => if k <= |s.toServer| then s.(toServer := s.toServer[..k], toServerOpen := false) else s
  }

  function Run(s: State, es: seq<Event>): State {
    if es == [] then s else Apply(Run(s, es[..|es| - 1]), es[|es| - 1])
  }

  /** Every elicitation asks for what some tool asked, and is answered by the delegate's decision. */
  ghost predicate ElicitsFormed(x: Exchange) {
    && (forall j :: 0 <= j < |x.calls| ==>
          && x.calls[j].req.verb == ELICITATION_CREATE && x.calls[j].req.params.Some?
          && DecodeParams(x.calls[j].req.params.value).Some?)
    && (forall t :: 0 <= t < |x.tasks| && x.tasks[t].answer.Some? ==>
          && x.tasks[t].decision.Some?
          && x.tasks[t].answer.value == DelegateAnswer(x.tasks[t].req, x.tasks[t].decision.value))
  }

  ghost predicate Inv(s: State) {
    && Exact(s.calls, s.toServer, s.toClient)
    && Exact(s.elicits, s.toClient, s.toServer)
    && ElicitsFormed(s.elicits)
  }

  lemma CallerSteps(s: State, e: Event)
    requires Inv(s) && (e.CallBegin? || e.CallRegister? || e.CallFinish?)
    ensures Inv(Apply(s, e))
  {
    hide Exact, ElicitsFormed, Begin, Register, Finish;
    match e
    case CallBegin(verb, params) => BeginExact(s.calls, s.toServer, s.toClient, verb, params);
    case CallRegister(i) => RegisterExact(s.calls, s.toServer, s.toClient, i);
    case CallFinish(i) => FinishExact(s.calls, s.toServer, s.toClient, i);
  }

  lemma FormedSteps(x: Exchange, i: nat, message: string, schema: Json)
    requires ElicitsFormed(x)
    ensures ElicitsFormed(Begin(x, ELICITATION_CREATE, Some(EncodeParams(message, schema))))
    ensures ElicitsFormed(Register(x, i)) && ElicitsFormed(Finish(x, i))
  {
    hide EncodeParams, DecodeParams;
    ParamsRoundTrip(message, schema);
  }

  lemma ElicitorSteps(s: State, e: Event)
    requires Inv(s) && (e.ElicitBegin? || e.ElicitRegister? || e.ElicitFinish?)
    ensures Inv(Apply(s, e))
  {
    hide Exact, ElicitsFormed, Begin, Register, Finish, EncodeParams;
    match e
    case ElicitBegin(message, schema) =>
      BeginExact(s.elicits, s.toClient, s.toServer, ELICITATION_CREATE, Some(EncodeParams(message, schema)));
      FormedSteps(s.elicits, 0, message, schema);
    case ElicitRegister(i) =>
      RegisterExact(s.elicits, s.toClient, s.toServer, i);
      FormedSteps(s.elicits, i, "", Null);
    case ElicitFinish(i) =>
      FinishExact(s.elicits, s.toClient, s.toServer, i);
      FormedSteps(s.elicits, i, "", Null);
  }

  lemma CallSendStep(s: State, i: nat)
    requires Inv(s)
    ensures Inv(Apply(s, CallSend(i)))
  {
    hide Exact, ElicitsFormed;
    if CanSend(s.calls, i) {
      if s.toServerOpen {
        SentExact(s.calls, s.toServer, s.toClient, i);
        BackPush(s.elicits, s.toClient, s.toServer, Req(s.calls.calls[i].req));
      } else {
        SendFailedExact(s.calls, s.toServer, s.toClient, i, false);
      }
    }
  }

  lemma ElicitSendStep(s: State, i: nat)
    requires Inv(s)
    ensures Inv(Apply(s, ElicitSend(i)))
  {
    if CanSend(s.elicits, i) {
      if s.toClientOpen {
        SentExact(s.elicits, s.toClient, s.toServer, i);
        BackPush(s.calls, s.toServer, s.toClient, Req(s.elicits.calls[i].req));
      } else {
        SendFailedExact(s.elicits, s.toClient, s.toServer, i, true);
      }
    }
  }

  lemma FormedReceives(x: Exchange, req: Request, r: Response)
    requires ElicitsFormed(x)
    ensures ElicitsFormed(Spawn(x, req)) && ElicitsFormed(Deliver(x, r))
  {
    hide DecodeParams, DelegateAnswer;
  }

  lemma ServerReceiveStep(s: State)
    requires Inv(s)
    ensures Inv(Apply(s, ServerReceive))
  {
    hide Exact, ElicitsFormed, Spawn, Deliver;
    if !s.serverEof && s.toServer != [] {
      Pops(s.elicits, s.toClient, s.toServer);
      Pops(s.calls, s.toServer, s.toClient);
      match s.toServer[0]
      case Req(r) => SpawnExact(s.calls, s.toServer, s.toClient);
      case Resp(r) =>
        HeadAnswered(s.elicits, s.toClient, s.toServer);
        DeliverExact(s.elicits, s.toClient, s.toServer[1..], r);
        FormedReceives(s.elicits, Request(r.id, "", None), r);
      case Notice(_) =>
    }
  }

  lemma ClientReceiveStep(s: State)
    requires Inv(s)
    ensures Inv(Apply(s, ClientReceive))
  {
    hide Exact, ElicitsFormed, Spawn, Deliver;
    if !s.clientEof && s.toClient != [] {
      Pops(s.elicits, s.toClient, s.toServer);
      Pops(s.calls, s.toServer, s.toClient);
      match s.toClient[0]
      case Req(r) =>
        SpawnExact(s.elicits, s.toClient, s.toServer);
        FormedReceives(s.elicits, r, Response(r.id, None, None));
      case Resp(r) =>
        HeadAnswered(s.calls, s.toServer, s.toClient);
        DeliverExact(s.calls, s.toServer, s.toClient[1..], r);
      case Notice(_) =>
    }
  }

  lemma SettleSteps(s: State, e: Event)
    requires Inv(s) && (e.Handle? || e.Decide?)
    ensures Inv(Apply(s, e))
  {
    match e
    case Handle(t, answer) => SettleExact(s.calls, s.toServer, s.toClient, t, None, answer);
    case Decide(t, d) =>
      if t < |s.elicits.tasks| {
        SettleExact(s.elicits, s.toClient, s.toServer, t, Some(d), DelegateAnswer(s.elicits.tasks[t].req, d));
      }
  }

  lemma ServerReplyStep(s: State, t: nat)
    requires Inv(s)
    ensures Inv(Apply(s, ServerReply(t)))
  {
    hide Exact, ElicitsFormed;
    if CanReply(s.calls, t) {
      ReplyExact(s.calls, s.toServer, s.toClient, t);
      OutPush(s.elicits, s.toClient, s.toServer, Resp(Reply(s.calls, t)));
    }
  }

  lemma DelegateReplyStep(s: State, t: nat)
    requires Inv(s)
    ensures Inv(Apply(s, DelegateReply(t)))
  {
    if CanReply(s.elicits, t) {
      ReplyExact(s.elicits, s.toClient, s.toServer, t);
      OutPush(s.calls, s.toServer, s.toClient, Resp(Reply(s.elicits, t)));
    }
  }

  lemma OtherSteps(s: State, e: Event)
    requires Inv(s) && (e.Notify? || e.ClientEof? || e.ServerEof? || e.ServerWriterFails? || e.ClientWriterFails?)
    ensures Inv(Apply(s, e))
  {
    hide Exact, ElicitsFormed, DropAll;
    match e
    case Notify(verb) =>
      OutPush(s.calls, s.toServer, s.toClient, Notice(verb));
      BackPush(s.elicits, s.toClient, s.toServer, Notice(verb));
    case ClientEof => DropAllExact(s.calls, s.toServer, s.toClient);
    case ServerEof =>
    case ServerWriterFails(k) =>
      Cuts(s.calls, s.toServer, s.toClient, k);
      Cuts(s.elicits, s.toClient, s.toServer, k);
    case ClientWriterFails(k) =>
      Cuts(s.calls, s.toServer, s.toClient, k);
      Cuts(s.elicits, s.toClient, s.toServer, k);
  }

  lemma StepKeepsInv(s: State, e: Event)
    requires Inv(s)
    ensures Inv(Apply(s, e))
  {
    hide Inv, Apply;
    match e
    case CallSend(i) => CallSendStep(s, i);
    case ElicitSend(i) => ElicitSendStep(s, i);
    case ServerReceive => ServerReceiveStep(s);
    case ClientReceive => ClientReceiveStep(s);
    case ServerReply(t) => ServerReplyStep(s, t);
    case DelegateReply(t) => DelegateReplyStep(s, t);
    case _ =>
      if e.Handle? || e.Decide? {
        SettleSteps(s, e);
      } else if e.Notify? || e.ClientEof? || e.ServerEof? || e.ServerWriterFails? || e.ClientWriterFails? {
        OtherSteps(s, e);
      } else if e.CallBegin? || e.CallRegister? || e.CallFinish? {
        CallerSteps(s, e);
      } else {
        ElicitorSteps(s, e);
      }
  }

  /** What every run keeps. */
  lemma {:induction false} RunKeepsInv(s: State, es: seq<Event>)
    requires Inv(s)
    ensures Inv(Run(s, es))
  {
    if es != [] {
      hide Inv, Apply;
      RunKeepsInv(s, es[..|es| - 1]);
      StepKeepsInv(Run(s, es[..|es| - 1]), es[|es| - 1]);
    }
  }

  lemma StartInv(a: int, b: int)
    ensures Inv(Start(a, b))
  {
  }

  /** In every interleaving, whatever has returned returned the response its waiter got, exactly if
      the waiter got one. */
  lemma OutcomeIsDelivery(a: int, b: int, es: seq<Event>, i: nat)
    ensures var x := Run(Start(a, b), es).calls;
      i < |x.calls| && x.calls[i].phase.Done? ==>
        && (x.calls[i].phase.outcome.TransportClosed? <==> !x.calls[i].slot.Fired?)
        && forall r :: x.calls[i].phase.outcome == Got(r) <==> x.calls[i].slot == Fired(r)
    ensures var x := Run(Start(a, b), es).elicits;
      i < |x.calls| && x.calls[i].phase.Done? ==>
        && (x.calls[i].phase.outcome.TransportClosed? <==> !x.calls[i].slot.Fired?)
        && forall r :: x.calls[i].phase.outcome == Got(r) <==> x.calls[i].slot == Fired(r)
  {
    hide Run, RequestsExact, Numbered, TableExact, ElicitsFormed;
    StartInv(a, b);
    RunKeepsInv(Start(a, b), es);
  }

  /** In every interleaving, a client call that has returned completed with the response the server's
      dispatch built for that very request, which was dispatched once; without a response delivered
      to its waiter it failed. */
  lemma CallsGetTheirOwnReply(a: int, b: int, es: seq<Event>, i: nat) returns (t: nat)
    requires var x := Run(Start(a, b), es).calls;
             i < |x.calls| && x.calls[i].phase.Done?
    ensures var x := Run(Start(a, b), es).calls;
      if !x.calls[i].slot.Fired? then
        x.calls[i].phase.outcome == TransportClosed
      else
        && t < |x.tasks| && x.tasks[t].req == x.calls[i].req && x.tasks[t].answer.Some?
        && x.calls[i].phase.outcome == Got(Respond(x.calls[i].req.id, x.tasks[t].answer.value))
        && forall u :: 0 <= u < |x.tasks| && x.tasks[u].req.id == x.calls[i].req.id ==> u == t
  {
    hide Run, Exact, ElicitsFormed;
    var s := Run(Start(a, b), es);
    OutcomeIsDelivery(a, b, es, i);
    StartInv(a, b);
    RunKeepsInv(Start(a, b), es);
    t := 0;
    if s.calls.calls[i].slot.Fired? {
      assert s.calls.calls[i].phase.outcome == Got(s.calls.calls[i].slot.resp);
      t := ReplyMatches(s.calls, s.toServer, s.toClient, i);
    }
  }

  /** What `elicit` returns to the tool once its await is over. */
  function Returned(o: Outcome): ElicitResult {
    match o
    case Got(r) => ParseResponse(r)
    case TransportClosed => ElicitResult(Cancel, None)
  }

  /** A JSON null content reads back as no content. */
  function Normal(r: ElicitResult): ElicitResult {
    if r.content == Some(Null) then r.(content := None) else r
  }

  /** In every interleaving, an elicitation whose waiter got a response returns what the client's
      delegate decided on exactly that tool's request; any other one returns Cancel. */
  lemma ElicitationsGetTheirOwnDecision(a: int, b: int, es: seq<Event>, j: nat) returns (t: nat)
    requires var x := Run(Start(a, b), es).elicits;
             j < |x.calls| && x.calls[j].phase.Done?
    ensures var x := Run(Start(a, b), es).elicits;
      if !x.calls[j].slot.Fired? then
        Returned(x.calls[j].phase.outcome) == ElicitResult(Cancel, None)
      else
        && t < |x.tasks| && x.tasks[t].req == x.calls[j].req && x.tasks[t].decision.Some?
        && Returned(x.calls[j].phase.outcome) == Normal(x.tasks[t].decision.value)
        && forall u :: 0 <= u < |x.tasks| && x.tasks[u].req.id == x.calls[j].req.id ==> u == t
  {
    hide Run, Exact, Respond, DelegateAnswer, DecodeParams, ParseResponse, Start;
    var s := Run(Start(a, b), es);
    OutcomeIsDelivery(a, b, es, j);
    StartInv(a, b);
    RunKeepsInv(Start(a, b), es);
    t := 0;
    if s.elicits.calls[j].slot.Fired? {
      assert s.elicits.calls[j].phase.outcome == Got(s.elicits.calls[j].slot.resp);
      t := ReplyMatches(s.elicits, s.toClient, s.toServer, j);
      DecisionComesBack(s.elicits.tasks[t].req, s.elicits.tasks[t].decision.value);
    }
  }

  /** Encoding, sending and parsing a decision gives the decision back. */
  lemma DecisionComesBack(req: Request, d: ElicitResult)
    requires req.verb == ELICITATION_CREATE && req.params.Some? && DecodeParams(req.params.value).Some?
    ensures ParseResponse(Respond(req.id, DelegateAnswer(req, d))) == Normal(d)
  {
    ResultRoundTrip(d);
  }

  /** An elicitation returns Accept exactly if its waiter got the response of a delegate that
      accepted that very request. */
  lemma AcceptIsAccepted(a: int, b: int, es: seq<Event>, j: nat)
    requires var x := Run(Start(a, b), es).elicits;
             j < |x.calls| && x.calls[j].phase.Done?
    ensures var x := Run(Start(a, b), es).elicits;
      Returned(x.calls[j].phase.outcome).action == Accept <==>
        && x.calls[j].slot.Fired?
        && exists t :: 0 <= t < |x.tasks| && x.tasks[t].req == x.calls[j].req
                    && x.tasks[t].decision.Some? && x.tasks[t].decision.value.action == Accept
  {
    hide Run, Returned, Start;
    var t := ElicitationsGetTheirOwnDecision(a, b, es, j);
  }

  lemma CallStepIsFinal(s: State, e: Event)
    requires TableExact(s.calls)
    ensures SlotsFinal(s.calls, Apply(s, e).calls)
  {
    hide SlotsFinal, TableExact, Deliver, Register, MarkSent, SendFailed, Finish, DropAll, Begin;
    if e.ClientReceive? && s.toClient != [] && s.toClient[0].Resp? {
      DeliveryIsFinal(s.calls, s.toClient[0].resp);
    } else {
      var i := if e.CallRegister? || e.CallSend? || e.CallFinish? then e.i else 0;
      var (verb, params) := if e.CallBegin? then (e.verb, e.params) else ("", None);
      StepsAreFinal(s.calls, i, false, verb, params);
    }
    TasksAreNotCalls(s.calls, Apply(s, e).calls);
  }

  lemma TasksAreNotCalls(x: Exchange, y: Exchange)
    ensures x.calls == y.calls ==> SlotsFinal(x, y)
  {
  }

  lemma ElicitStepIsFinal(s: State, e: Event)
    requires TableExact(s.elicits)
    ensures SlotsFinal(s.elicits, Apply(s, e).elicits)
  {
    hide SlotsFinal, TableExact, Deliver, Register, MarkSent, SendFailed, Finish, Begin, EncodeParams, DelegateAnswer;
    if e.ServerReceive? && s.toServer != [] && s.toServer[0].Resp? {
      DeliveryIsFinal(s.elicits, s.toServer[0].resp);
    } else {
      var i := if e.ElicitRegister? || e.ElicitSend? || e.ElicitFinish? then e.i else 0;
      var params := if e.ElicitBegin? then Some(EncodeParams(e.message, e.schema)) else None;
      StepsAreFinal(s.elicits, i, true, ELICITATION_CREATE, params);
    }
    TasksAreNotCalls(s.elicits, Apply(s, e).elicits);
  }

  /** Each waiter fires at most once: a fired or dropped waiter never changes again. */
  lemma {:induction false} WaitersFireOnce(s: State, es: seq<Event>)
    requires Inv(s)
    ensures SlotsFinal(s.calls, Run(s, es).calls) && SlotsFinal(s.elicits, Run(s, es).elicits)
  {
    if es != [] {
      WaitersFireOnce(s, es[..|es| - 1]);
      RunKeepsInv(s, es[..|es| - 1]);
      CallStepIsFinal(Run(s, es[..|es| - 1]), es[|es| - 1]);
      ElicitStepIsFinal(Run(s, es[..|es| - 1]), es[|es| - 1]);
    }
  }

  lemma {:induction false} RunConcat(s: State, es: seq<Event>, fs: seq<Event>)
    ensures Run(s, es + fs) == Run(Run(s, es), fs)
  {
    if fs == [] {
      assert es + fs == es;
    } else {
      RunConcat(s, es, fs[..|fs| - 1]);
      assert (es + fs)[..|es + fs| - 1] == es + fs[..|fs| - 1];
    }
  }

  /** When the client's reader ends, no waiter registered before stays pending, ever after. */
  lemma EofResolvesEarlierWaiters(a: int, b: int, es: seq<Event>, fs: seq<Event>, i: nat)
    requires !Run(Start(a, b), es).clientEof
    requires i < |Run(Start(a, b), es).calls.calls| && !Run(Start(a, b), es).calls.calls[i].phase.Allocated?
    ensures i < |Run(Start(a, b), es + [ClientEof] + fs).calls.calls|
    ensures !Run(Start(a, b), es + [ClientEof] + fs).calls.calls[i].slot.Waiting?
  {
    hide Inv, Apply, Start;
    StartInv(a, b);
    RunKeepsInv(Start(a, b), es);
    var s := Run(Start(a, b), es);
    var s' := Apply(s, ClientEof);
    assert (es + [ClientEof])[..|es|] == es;
    assert Run(Start(a, b), es + [ClientEof]) == s';
    EofDrops(s, i);
    WaitersFireOnce(s', fs);
    RunConcat(Start(a, b), es + [ClientEof], fs);
  }

  /** A response that is taken off the queue is what the call it answers returns, whatever happens
      in between, if the call's waiter is open. */
  lemma DeliveredIsReturned(a: int, b: int, es: seq<Event>, fs: seq<Event>, i: nat, r: Response)
    requires var s := Run(Start(a, b), es);
      && !s.clientEof && s.toClient != [] && s.toClient[0] == Resp(r)
      && i < |s.calls.calls| && s.calls.calls[i].req.id == r.id && s.calls.calls[i].slot.Waiting?
    ensures var x := Run(Start(a, b), es + [ClientReceive] + fs + [CallFinish(i)]).calls;
      i < |x.calls| && x.calls[i].phase == Done(Got(r))
  {
    hide Run, Exact, ElicitsFormed, Deliver, Start, Apply, Finish;
    var s, s', s'' := Run(Start(a, b), es), Run(Start(a, b), es + [ClientReceive]), Run(Start(a, b), es + [ClientReceive] + fs);
    RunsOn(a, b, es, ClientReceive, fs, CallFinish(i));
    DeliveredToOwner(s.calls, s.toServer, s.toClient, r, i) by {
      HeadAnswered(s.calls, s.toServer, s.toClient);
    }
    ReceiveDelivers(s, r);
    WaitersFireOnce(s', fs);
    FinishStep(s'', i);
  }

  /** The same of an elicitation and the server's reader. */
  lemma DeliveredIsReturnedToTool(a: int, b: int, es: seq<Event>, fs: seq<Event>, j: nat, r: Response)
    requires var s := Run(Start(a, b), es);
      && !s.serverEof && s.toServer != [] && s.toServer[0] == Resp(r)
      && j < |s.elicits.calls| && s.elicits.calls[j].req.id == r.id && s.elicits.calls[j].slot.Waiting?
    ensures var x := Run(Start(a, b), es + [ServerReceive] + fs + [ElicitFinish(j)]).elicits;
      j < |x.calls| && x.calls[j].phase == Done(Got(r))
  {
    hide Run, Exact, ElicitsFormed, Deliver, Start, Apply, Finish;
    var s, s', s'' := Run(Start(a, b), es), Run(Start(a, b), es + [ServerReceive]), Run(Start(a, b), es + [ServerReceive] + fs);
    RunsOn(a, b, es, ServerReceive, fs, ElicitFinish(j));
    DeliveredToOwner(s.elicits, s.toClient, s.toServer, r, j) by {
      HeadAnswered(s.elicits, s.toClient, s.toServer);
    }
    ReceiveDelivers(s, r);
    WaitersFireOnce(s', fs);
    FinishStep(s'', j);
  }

  /** A call that is waiting when the client's reader ends fails, whatever happens in between. */
  lemma EofFailsWaitingCalls(a: int, b: int, es: seq<Event>, fs: seq<Event>, i: nat)
    requires var s := Run(Start(a, b), es);
      !s.clientEof && i < |s.calls.calls| && s.calls.calls[i].phase.Sent? && s.calls.calls[i].slot.Waiting?
    ensures var x := Run(Start(a, b), es + [ClientEof] + fs + [CallFinish(i)]).calls;
      i < |x.calls| && x.calls[i].phase == Done(TransportClosed)
  {
    hide Run, Exact, ElicitsFormed, Start, Apply, Finish, DropAll;
    var s, s', s'' := Run(Start(a, b), es), Run(Start(a, b), es + [ClientEof]), Run(Start(a, b), es + [ClientEof] + fs);
    RunsOn(a, b, es, ClientEof, fs, CallFinish(i));
    EofDropsOne(s, i);
    WaitersFireOnce(s', fs);
    FinishStep(s'', i);
  }

  lemma EofDropsOne(s: State, i: nat)
    requires Inv(s) && !s.clientEof
    requires i < |s.calls.calls| && s.calls.calls[i].phase.Sent? && s.calls.calls[i].slot.Waiting?
    ensures var x := Apply(s, ClientEof).calls;
            i < |x.calls| && x.calls[i] == s.calls.calls[i].(slot := Dropped)
  {
    hide Numbered, RequestsExact, ResponsesExact, ElicitsFormed;
    assert InTable(s.calls, i);
  }

  lemma ReceiveDelivers(s: State, r: Response)
    ensures !s.clientEof && s.toClient != [] && s.toClient[0] == Resp(r) ==>
            Apply(s, ClientReceive).calls == Deliver(s.calls, r)
    ensures !s.serverEof && s.toServer != [] && s.toServer[0] == Resp(r) ==>
            Apply(s, ServerReceive).elicits == Deliver(s.elicits, r)
  {
    hide Deliver;
  }

  /** Both exchanges, one step of each kind: an await that is over ends the call. */
  lemma FinishStep(s: State, i: nat)
    requires Inv(s)
    ensures i < |s.calls.calls| && (s.calls.calls[i].phase.Sent? || s.calls.calls[i].phase.Done?) ==>
      var x, y := s.calls, Apply(s, CallFinish(i)).calls;
      && i < |y.calls|
      && (x.calls[i].slot.Fired? ==> y.calls[i].phase == Done(Got(x.calls[i].slot.resp)))
      && (x.calls[i].slot.Dropped? ==> y.calls[i].phase == Done(TransportClosed))
    ensures i < |s.elicits.calls| && (s.elicits.calls[i].phase.Sent? || s.elicits.calls[i].phase.Done?) ==>
      var x, y := s.elicits, Apply(s, ElicitFinish(i)).elicits;
      && i < |y.calls|
      && (x.calls[i].slot.Fired? ==> y.calls[i].phase == Done(Got(x.calls[i].slot.resp)))
      && (x.calls[i].slot.Dropped? ==> y.calls[i].phase == Done(TransportClosed))
  {
    hide Numbered, TableExact, RequestsExact, ElicitsFormed, Finish;
    if i < |s.calls.calls| && (s.calls.calls[i].phase.Sent? || s.calls.calls[i].phase.Done?) {
      AwaitEnds(s.calls, i);
    }
    if i < |s.elicits.calls| && (s.elicits.calls[i].phase.Sent? || s.elicits.calls[i].phase.Done?) {
      AwaitEnds(s.elicits, i);
    }
  }

  lemma RunsOn(a: int, b: int, es: seq<Event>, e: Event, fs: seq<Event>, f: Event)
    ensures Inv(Run(Start(a, b), es)) && Inv(Run(Start(a, b), es + [e])) && Inv(Run(Start(a, b), es + [e] + fs))
    ensures Run(Start(a, b), es + [e]) == Apply(Run(Start(a, b), es), e)
    ensures Run(Start(a, b), es + [e] + fs) == Run(Run(Start(a, b), es + [e]), fs)
    ensures Run(Start(a, b), es + [e] + fs + [f]) == Apply(Run(Start(a, b), es + [e] + fs), f)
  {
    hide Inv, Apply, Run, Start;
    StartInv(a, b);
    RunKeepsInv(Start(a, b), es);
    RunKeepsInv(Start(a, b), es + [e]);
    RunKeepsInv(Start(a, b), es + [e] + fs);
    RunSnoc(Start(a, b), es, e);
    RunConcat(Start(a, b), es + [e], fs);
    RunSnoc(Start(a, b), es + [e] + fs, f);
  }

  lemma EofDrops(s: State, i: nat)
    requires Inv(s) && !s.clientEof && i < |s.calls.calls| && !s.calls.calls[i].phase.Allocated?
    ensures var s' := Apply(s, ClientEof);
            Inv(s') && i < |s'.calls.calls| && !s'.calls.calls[i].slot.Waiting?
  {
    TableDrops(s.calls);
    OtherSteps(s, ClientEof);
  }

  /** The other half: once the reader has ended, a waiter that is still pending never resolves. */
  lemma {:induction false} LateWaitersNeverResolve(s: State, fs: seq<Event>, i: nat)
    requires s.clientEof && i < |s.calls.calls| && s.calls.calls[i].slot.Waiting?
    ensures Run(s, fs).clientEof
    ensures i < |Run(s, fs).calls.calls| && Run(s, fs).calls.calls[i].slot.Waiting?
  {
    if fs != [] {
      LateWaitersNeverResolve(s, fs[..|fs| - 1], i);
      LateStep(Run(s, fs[..|fs| - 1]), fs[|fs| - 1], i);
    }
  }

  lemma LateStep(s: State, e: Event, i: nat)
    requires s.clientEof && i < |s.calls.calls| && s.calls.calls[i].slot.Waiting?
    ensures Apply(s, e).clientEof
    ensures i < |Apply(s, e).calls.calls| && Apply(s, e).calls.calls[i].slot.Waiting?
  {
  }

  /** The server's reader clears no table: once it has ended, an elicitation that was sent and is
      still waiting waits for ever, and no other one is ever answered. */
  lemma {:induction false} LateElicitationsNeverResolve(s: State, fs: seq<Event>, j: nat)
    requires s.serverEof && j < |s.elicits.calls| && s.elicits.calls[j].slot.Waiting?
    ensures Run(s, fs).serverEof
    ensures j < |Run(s, fs).elicits.calls| && !Run(s, fs).elicits.calls[j].slot.Fired?
    ensures s.elicits.calls[j].phase.Sent? ==>
            Run(s, fs).elicits.calls[j] == s.elicits.calls[j]
  {
    if fs != [] {
      LateElicitationsNeverResolve(s, fs[..|fs| - 1], j);
      LateElicitStep(Run(s, fs[..|fs| - 1]), fs[|fs| - 1], j);
    }
  }

  lemma LateElicitStep(s: State, e: Event, j: nat)
    requires s.serverEof && j < |s.elicits.calls| && !s.elicits.calls[j].slot.Fired?
    ensures Apply(s, e).serverEof
    ensures j < |Apply(s, e).elicits.calls| && !Apply(s, e).elicits.calls[j].slot.Fired?
    ensures s.elicits.calls[j].phase.Sent? && s.elicits.calls[j].slot.Waiting? ==>
            Apply(s, e).elicits.calls[j] == s.elicits.calls[j]
  {
  }

  // --- runs that get there -----------------------------------------------------------------

  lemma RunSnoc(s: State, es: seq<Event>, e: Event)
    ensures Run(s, es + [e]) == Apply(Run(s, es), e)
  {
    hide Apply;
    assert (es + [e])[..|es|] == es;
  }

  lemma RunFour(s: State, e: Event, f: Event, g: Event, h: Event)
    ensures Run(s, [e, f, g, h]) == Apply(Apply(Apply(Apply(s, e), f), g), h)
  {
    hide Apply;
    RunSnoc(s, [], e);
    RunSnoc(s, [e], f);
    RunSnoc(s, [e, f], g);
    RunSnoc(s, [e, f, g], h);
    assert [] + [e] == [e] && [e] + [f] == [e, f] && [e, f] + [g] == [e, f, g] && [e, f, g] + [h] == [e, f, g, h];
  }

  /** A call begun after the client's reader has ended is sent, and waits in every continuation. */
  lemma CallAfterEofHangs(a: int, b: int, verb: string, params: Option<Json>, fs: seq<Event>)
    ensures var es := [ClientEof, CallBegin(verb, params), CallRegister(0), CallSend(0)];
      && Run(Start(a, b), es).toServer == [Req(Request(Number(a), verb, params))]
      && var x := Run(Start(a, b), es + fs).calls;
         |x.calls| > 0 && x.calls[0].req == Request(Number(a), verb, params) && x.calls[0].slot.Waiting?
  {
    var es := [ClientEof, CallBegin(verb, params), CallRegister(0), CallSend(0)];
    var s := Run(Start(a, b), es);
    CallAfterEof(a, b, verb, params);
    LateWaitersNeverResolve(s, fs, 0);
    StartInv(a, b);
    RunKeepsInv(Start(a, b), es);
    WaitersFireOnce(s, fs);
    RunConcat(Start(a, b), es, fs);
  }

  lemma CallAfterEof(a: int, b: int, verb: string, params: Option<Json>)
    ensures var s := Run(Start(a, b), [ClientEof, CallBegin(verb, params), CallRegister(0), CallSend(0)]);
      && s.clientEof && s.toServer == [Req(Request(Number(a), verb, params))]
      && s.calls.calls == [Call(Request(Number(a), verb, params), Sent, Waiting)]
  {
    RunFour(Start(a, b), ClientEof, CallBegin(verb, params), CallRegister(0), CallSend(0));
  }

  /** An elicitation begun after the server's reader has ended is sent, and waits in every
      continuation. */
  lemma ElicitAfterEofHangs(a: int, b: int, message: string, schema: Json, fs: seq<Event>)
    ensures var es := [ServerEof, ElicitBegin(message, schema), ElicitRegister(0), ElicitSend(0)];
      var req := Request(Number(b), ELICITATION_CREATE, Some(EncodeParams(message, schema)));
      && Run(Start(a, b), es).toClient == [Req(req)]
      && var x := Run(Start(a, b), es + fs).elicits;
         |x.calls| > 0 && x.calls[0] == Call(req, Sent, Waiting)
  {
    var es := [ServerEof, ElicitBegin(message, schema), ElicitRegister(0), ElicitSend(0)];
    ElicitAfterEof(a, b, message, schema);
    LateElicitationsNeverResolve(Run(Start(a, b), es), fs, 0);
    RunConcat(Start(a, b), es, fs);
  }

  lemma ElicitAfterEof(a: int, b: int, message: string, schema: Json)
    ensures var s := Run(Start(a, b), [ServerEof, ElicitBegin(message, schema), ElicitRegister(0), ElicitSend(0)]);
      var req := Request(Number(b), ELICITATION_CREATE, Some(EncodeParams(message, schema)));
      s.serverEof && s.toClient == [Req(req)] && s.elicits.calls == [Call(req, Sent, Waiting)]
  {
    hide EncodeParams;
    RunFour(Start(a, b), ServerEof, ElicitBegin(message, schema), ElicitRegister(0), ElicitSend(0));
  }

  // --- whole exchanges -----------------------------------------------------------------------

  /** Nothing is under way and both connections stand. */
  predicate Quiet(s: State) {
    && s.toServer == [] && s.toClient == [] && s.toServerOpen && s.toClientOpen
    && !s.clientEof && !s.serverEof
  }

  /** `x` after its next call for `verb` has been queued and taken up by a task. */
  function TakenUp(x: Exchange, verb: string, params: Option<Json>): Exchange {
    var req := Request(Number(x.nextId), verb, params);
    Exchange(x.base, x.nextId + 1, x.calls + [Call(req, Sent, Waiting)], x.pending[x.nextId := |x.calls|],
             x.tasks + [Task(req, None, None, false)])
  }

  lemma BeginRegisterSend(x: Exchange, verb: string, params: Option<Json>)
    ensures var (i, y) := (|x.calls|, Register(Begin(x, verb, params), |x.calls|));
      && CanSend(y, i) && y.calls[i].req == Request(Number(x.nextId), verb, params)
      && Spawn(MarkSent(y, i), y.calls[i].req) == TakenUp(x, verb, params)
  {
    var (i, y) := (|x.calls|, Register(Begin(x, verb, params), |x.calls|));
    assert MarkSent(y, i).calls == x.calls + [Call(y.calls[i].req, Sent, Waiting)];
  }

  lemma SettleReplyDeliver(x: Exchange, verb: string, params: Option<Json>, d: Option<ElicitResult>, answer: Answer)
    ensures var (i, t, z) := (|x.calls|, |x.tasks|, Settle(TakenUp(x, verb, params), |x.tasks|, d, answer));
      var req := Request(Number(x.nextId), verb, params);
      && CanReply(z, t) && Reply(z, t) == Respond(req.id, answer)
      && var y := Finish(Deliver(MarkReplied(z, t), Reply(z, t)), i);
         y.calls == x.calls + [Call(req, Done(Got(Respond(req.id, answer))), Fired(Respond(req.id, answer)))]
  {
    var (i, t, z) := (|x.calls|, |x.tasks|, Settle(TakenUp(x, verb, params), |x.tasks|, d, answer));
    var req := Request(Number(x.nextId), verb, params);
    assert Deliver(MarkReplied(z, t), Reply(z, t)).calls == x.calls + [Call(req, Sent, Fired(Respond(req.id, answer)))];
  }

  lemma CallAsks(s: State, verb: string, params: Option<Json>)
    requires Quiet(s)
    ensures var i := |s.calls.calls|;
      Apply(Apply(Apply(Apply(s, CallBegin(verb, params)), CallRegister(i)), CallSend(i)), ServerReceive)
        == s.(calls := TakenUp(s.calls, verb, params))
  {
    hide Begin, Register, MarkSent, CanSend, Spawn, TakenUp;
    BeginRegisterSend(s.calls, verb, params);
    var i := |s.calls.calls|;
    var s1 := Apply(Apply(s, CallBegin(verb, params)), CallRegister(i));
    assert s1 == s.(calls := Register(Begin(s.calls, verb, params), i));
    assert Apply(s1, CallSend(i)) == s.(calls := MarkSent(s1.calls, i), toServer := [Req(s1.calls.calls[i].req)]);
  }

  lemma CallAnswered(s: State, verb: string, params: Option<Json>, answer: Answer)
    requires Quiet(s)
    ensures var (i, t) := (|s.calls.calls|, |s.calls.tasks|);
      var r := Respond(Number(s.calls.nextId), answer);
      var s2 := Apply(Apply(Apply(Apply(s.(calls := TakenUp(s.calls, verb, params)),
                  Handle(t, answer)), ServerReply(t)), ClientReceive), CallFinish(i));
      && Quiet(s2) && s2.elicits == s.elicits
      && s2.calls.calls == s.calls.calls + [Call(Request(Number(s.calls.nextId), verb, params), Done(Got(r)), Fired(r))]
  {
    hide Settle, CanReply, Reply, MarkReplied, Deliver, Finish, TakenUp, Respond;
    SettleReplyDeliver(s.calls, verb, params, None, answer);
    var t := |s.calls.tasks|;
    var z := Settle(TakenUp(s.calls, verb, params), t, None, answer);
    var s1 := Apply(s.(calls := TakenUp(s.calls, verb, params)), Handle(t, answer));
    assert s1 == s.(calls := z);
    assert Apply(s1, ServerReply(t)) == s.(calls := MarkReplied(z, t), toClient := [Resp(Reply(z, t))]);
  }

  /** From any quiet state on, a call whose steps run to the end returns the server's answer under
      its own id, and leaves the state quiet. */
  lemma CallCompletes(s: State, verb: string, params: Option<Json>, answer: Answer)
    requires Quiet(s)
    ensures var (i, t) := (|s.calls.calls|, |s.calls.tasks|);
      var req := Request(Number(s.calls.nextId), verb, params);
      var r := Respond(req.id, answer);
      var s1 := Run(s, [CallBegin(verb, params), CallRegister(i), CallSend(i), ServerReceive]);
      var s2 := Run(s1, [Handle(t, answer), ServerReply(t), ClientReceive, CallFinish(i)]);
      && Quiet(s2) && s2.elicits == s.elicits
      && s2.calls.calls == s.calls.calls + [Call(req, Done(Got(r)), Fired(r))]
  {
    hide Apply, Run, TakenUp, Quiet, Respond;
    var (i, t) := (|s.calls.calls|, |s.calls.tasks|);
    RunFour(s, CallBegin(verb, params), CallRegister(i), CallSend(i), ServerReceive);
    CallAsks(s, verb, params);
    RunFour(s.(calls := TakenUp(s.calls, verb, params)), Handle(t, answer), ServerReply(t), ClientReceive, CallFinish(i));
    CallAnswered(s, verb, params, answer);
  }

  lemma ElicitAsks(s: State, message: string, schema: Json)
    requires Quiet(s)
    ensures var j := |s.elicits.calls|;
      Apply(Apply(Apply(Apply(s, ElicitBegin(message, schema)), ElicitRegister(j)), ElicitSend(j)), ClientReceive)
        == s.(elicits := TakenUp(s.elicits, ELICITATION_CREATE, Some(EncodeParams(message, schema))))
  {
    hide Begin, Register, MarkSent, CanSend, Spawn, TakenUp, EncodeParams;
    BeginRegisterSend(s.elicits, ELICITATION_CREATE, Some(EncodeParams(message, schema)));
    var j := |s.elicits.calls|;
    var s1 := Apply(Apply(s, ElicitBegin(message, schema)), ElicitRegister(j));
    assert s1.elicits == Register(Begin(s.elicits, ELICITATION_CREATE, Some(EncodeParams(message, schema))), j);
    assert Apply(s1, ElicitSend(j)) == s.(elicits := MarkSent(s1.elicits, j), toClient := [Req(s1.elicits.calls[j].req)]);
  }

  lemma ElicitAnswered(s: State, params: Option<Json>, d: ElicitResult)
    requires Quiet(s)
    ensures var (j, t) := (|s.elicits.calls|, |s.elicits.tasks|);
      var req := Request(Number(s.elicits.nextId), ELICITATION_CREATE, params);
      var r := Respond(req.id, DelegateAnswer(req, d));
      var s2 := Apply(Apply(Apply(Apply(s.(elicits := TakenUp(s.elicits, ELICITATION_CREATE, params)),
                  Decide(t, d)), DelegateReply(t)), ServerReceive), ElicitFinish(j));
      && Quiet(s2) && s2.calls == s.calls
      && s2.elicits.calls == s.elicits.calls + [Call(req, Done(Got(r)), Fired(r))]
  {
    hide Settle, CanReply, Reply, MarkReplied, Deliver, Finish, DelegateAnswer, Respond;
    var t := |s.elicits.tasks|;
    var req := Request(Number(s.elicits.nextId), ELICITATION_CREATE, params);
    SettleReplyDeliver(s.elicits, ELICITATION_CREATE, params, Some(d), DelegateAnswer(req, d));
    var z := Settle(TakenUp(s.elicits, ELICITATION_CREATE, params), t, Some(d), DelegateAnswer(req, d));
    var s1 := Apply(s.(elicits := TakenUp(s.elicits, ELICITATION_CREATE, params)), Decide(t, d));
    assert s1 == s.(elicits := z);
    assert Apply(s1, DelegateReply(t)) == s.(elicits := MarkReplied(z, t), toServer := [Resp(Reply(z, t))]);
  }

  /** From any quiet state on, an elicitation whose steps run to the end returns to the tool what the
      delegate decided, and leaves the state quiet. */
  lemma ElicitationCompletes(s: State, message: string, schema: Json, d: ElicitResult)
    requires Quiet(s)
    ensures var (j, t) := (|s.elicits.calls|, |s.elicits.tasks|);
      var req := Request(Number(s.elicits.nextId), ELICITATION_CREATE, Some(EncodeParams(message, schema)));
      var s1 := Run(s, [ElicitBegin(message, schema), ElicitRegister(j), ElicitSend(j), ClientReceive]);
      var s2 := Run(s1, [Decide(t, d), DelegateReply(t), ServerReceive, ElicitFinish(j)]);
      && Quiet(s2) && s2.calls == s.calls && |s2.elicits.calls| == j + 1
      && s2.elicits.calls[..j] == s.elicits.calls && s2.elicits.calls[j].req == req
      && s2.elicits.calls[j].phase.Done? && Returned(s2.elicits.calls[j].phase.outcome) == Normal(d)
  {
    hide Apply, Run, TakenUp, Quiet, EncodeParams, DelegateAnswer, ParseResponse, DecodeParams, Respond, Normal;
    var (j, t) := (|s.elicits.calls|, |s.elicits.tasks|);
    var params := Some(EncodeParams(message, schema));
    RunFour(s, ElicitBegin(message, schema), ElicitRegister(j), ElicitSend(j), ClientReceive);
    ElicitAsks(s, message, schema);
    RunFour(s.(elicits := TakenUp(s.elicits, ELICITATION_CREATE, params)),
            Decide(t, d), DelegateReply(t), ServerReceive, ElicitFinish(j));
    ElicitAnswered(s, params, d);
    ParamsRoundTrip(message, schema);
    DecisionComesBack(Request(Number(s.elicits.nextId), ELICITATION_CREATE, params), d);
  }
}
