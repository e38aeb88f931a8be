/** The requester as the object the code keeps: an id counter and a table of waiters, changed in
    place. Each method is one atomic section and does exactly one step of an exchange. */
module RequesterObject {
  import opened Wrappers
  import opened JsonValues
  import opened Messages
  import opened Exchanges

  class Requester {
    const base: int
    var nextId: int
    var calls: seq<Call>
    var pending: map<int, nat>

    /** The requester's half of an exchange; the answering tasks live elsewhere. */
    ghost function View(): Exchange
      reads this
    {
      Exchange(base, nextId, calls, pending, [])
    }

    constructor (base: int)
      ensures this.base == base && View() == Fresh(base)
    {
      this.base := base;
      nextId := base;
      calls := [];
      pending := map[];
    }

    /** `next_id.fetch_add(1)`, and a new one-shot channel. */
    method TakeId(verb: string, params: Option<Json>) returns (i: nat, id: int)
      modifies this
      ensures View() == Begin(old(View()), verb, params)
      ensures i == |old(calls)| && id == old(nextId)
    {
      id := nextId;
      nextId := nextId + 1;
      i := |calls|;
      calls := calls + [Call(Request(Number(id), verb, params), Allocated, Waiting)];
    }

    method InsertWaiter(i: nat)
      requires i < |calls| && calls[i].phase.Allocated? && calls[i].req.id.Number?
      modifies this
      ensures View() == Register(old(View()), i)
    {
      pending := pending[calls[i].req.id.n := i];
      calls := calls[i := calls[i].(phase := Registered)];
    }

    /** `outbox.send(..)` has taken the request. */
    method Queue(i: nat) returns (req: Request)
      requires CanSend(View(), i)
      modifies this
      ensures View() == MarkSent(old(View()), i)
      ensures req == old(calls)[i].req
    {
      req := calls[i].req;
      calls := calls[i := calls[i].(phase := Sent)];
    }

    /** The outbound queue is closed; an elicitation takes its waiter back out of the table. */
    method GiveUp(i: nat, removeWaiter: bool)
      requires CanSend(View(), i)
      modifies this
      ensures View() == SendFailed(old(View()), i, removeWaiter)
    {
      var c := calls[i];
      if removeWaiter {
        pending := pending - {c.req.id.n};
        calls := calls[i := c.(phase := Done(TransportClosed), slot := if c.slot.Waiting? then Dropped else c.slot)];
      } else {
        calls := calls[i := c.(phase := Done(TransportClosed))];
      }
    }

    /** Route a response to its waiter, removing it; true if there was one. */
    method DeliverResponse(r: Response) returns (claimed: bool)
      requires TableExact(View())
      modifies this
      ensures View() == Deliver(old(View()), r)
      ensures claimed <==> r.id.Number? && r.id.n in old(pending)
      ensures claimed ==> calls[old(pending)[r.id.n]].slot == Fired(r) && r.id.n !in pending
    {
      if !r.id.Number? {
        return false;
      }
      claimed := r.id.n in pending;
      if claimed {
        assert Holds(View(), r.id.n);
        var i := pending[r.id.n];
        pending := pending - {r.id.n};
        calls := calls[i := calls[i].(slot := Fired(r))];
      }
    }

    /** `rx.await` is over: the response, or an error if the sender was dropped. */
    method Await(i: nat) returns (outcome: Outcome)
      requires i < |calls| && calls[i].phase.Sent? && !calls[i].slot.Waiting?
      modifies this
      ensures View() == Finish(old(View()), i)
      ensures outcome == if old(calls)[i].slot.Fired? then Got(old(calls)[i].slot.resp) else TransportClosed
      ensures calls == old(calls)[i := Call(old(calls)[i].req, Done(outcome), old(calls)[i].slot)]
    {
      if calls[i].slot.Fired? {
        outcome := Got(calls[i].slot.resp);
      } else {
        outcome := TransportClosed;
      }
      calls := calls[i := calls[i].(phase := Done(outcome))];
    }

    /** The reader has ended: clear the table, which drops the waiters in it. */
    method ClearWaiters()
      modifies this
      ensures View() == DropAll(old(View()))
    {
      ghost var before := View();
      var dropped: seq<Call> := [];
      for i := 0 to |calls|
        invariant View() == before
        invariant |dropped| == i && dropped == DropAll(before).calls[..i]
      {
        var held := calls[i].req.id.Number? && calls[i].req.id.n in pending && pending[calls[i].req.id.n] == i;
        dropped := dropped + [if held && calls[i].slot.Waiting? then calls[i].(slot := Dropped) else calls[i]];
      }
      calls := dropped;
      pending := map[];
    }
  }
}
