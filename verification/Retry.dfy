/** The circuit breaker and the retry loop. Times and delays are whole milliseconds. */
module Retry {
  import opened Wrappers

  /** How a call ends: well, or with an error that is or is not worth a retry. */
  datatype Outcome = Good | Transient | Permanent

  datatype CircuitState = Closed | Open | HalfOpen

  datatype Breaker = Breaker(threshold: nat, openFor: nat, state: CircuitState, failures: nat, openedAt: Option<nat>)

  /** A call through the breaker is two steps, with other calls in between: it starts, and if it was
      admitted it finishes. Asking for the state is a step too. */
  datatype Event = Ask(now: nat) | Start(now: nat) | Finish(now: nat, outcome: Outcome)

  // ---------------------------------------------------------------------------------------
  // The steps
  // ---------------------------------------------------------------------------------------

  function New(threshold: nat, openFor: nat): Breaker {
    Breaker(threshold, openFor, Closed, 0, None)
  }

  /** An open breaker lets a probe through once it has been open long enough. */
  function Ticked(b: Breaker, now: nat): Breaker {
    if b.state.Open? && b.openedAt.Some? && now >= b.openedAt.value + b.openFor then b.(state := HalfOpen) else b
  }

  function Admits(b: Breaker, now: nat): bool {
    !Ticked(b, now).state.Open?
  }

  function Finished(b: Breaker, now: nat, outcome: Outcome): Breaker {
    match outcome
    case Good => b.(failures := 0, state := Closed, openedAt := None)
    case Transient =>
      var b' := b.(failures := b.failures + 1);
      if b'.failures >= b.threshold then b'.(state := Open, openedAt := Some(now)) else b'
    case Permanent => b
  }

  function Step(b: Breaker, e: Event): Breaker {
    match e
    case Ask(now) => Ticked(b, now)
    case Start(now) => Ticked(b, now)
    case Finish(now, outcome) => Finished(b, now, outcome)
  }

  function Run(b: Breaker, events: seq<Event>): Breaker {
    if events == [] then b else Step(Run(b, events[..|events| - 1]), events[|events| - 1])
  }

  /** How long a rejected caller is told to wait. */
  function RetryAfter(b: Breaker, now: nat): nat {
    if b.openedAt.None? then b.openFor
    else if b.openedAt.value + b.openFor <= now then 0
    else if now <= b.openedAt.value then b.openFor
    else b.openedAt.value + b.openFor - now
  }

  class CircuitBreaker {
    const threshold: nat
    const openFor: nat
    var state: CircuitState
    var failures: nat
    var openedAt: Option<nat>

    function Value(): Breaker
      reads this
    {
      Breaker(threshold, openFor, state, failures, openedAt)
    }

    constructor (threshold: nat, openFor: nat)
      ensures Value() == New(threshold, openFor)
    {
      this.threshold, this.openFor := threshold, openFor;
      state, failures, openedAt := Closed, 0, None;
    }

    method Tick(now: nat) returns (snapshot: Breaker)
      modifies this`state
      ensures Value() == Step(old(Value()), Ask(now)) && snapshot == Value()
    {
      if state == Open {
        if openedAt.Some? {
          if now >= openedAt.value + openFor {
            state := HalfOpen;
          }
        }
      }
      snapshot := Value();
    }

    /** The part of a call before the wrapped operation: `None` if it may run, else how long to wait. */
    method Begin(now: nat) returns (rejected: Option<nat>)
      modifies this`state
      ensures Value() == Step(old(Value()), Start(now))
      ensures rejected.None? <==> Admits(old(Value()), now)
      ensures rejected.Some? ==> rejected.value == RetryAfter(Value(), now)
    {
      var snapshot := Tick(now);
      if snapshot.state == Open {
        return Some(RetryAfter(snapshot, now));
      }
      return None;
    }

    /** The part of a call after the wrapped operation. */
    method End(now: nat, outcome: Outcome)
      modifies this
      ensures Value() == Step(old(Value()), Finish(now, outcome))
    {
      match outcome
      case Good =>
        failures := 0;
        state := Closed;
        openedAt := None;
      case Transient =>
        failures := failures + 1;
        if failures >= threshold {
          state := Open;
          openedAt := Some(now);
        }
      case Permanent =>
    }
  }

  // ---------------------------------------------------------------------------------------
  // What every interleaving keeps
  // ---------------------------------------------------------------------------------------

  /** Closed is: fewer failures than the threshold, and no open time. */
  ghost predicate Consistent(b: Breaker) {
    (b.state.Closed? <==> b.failures < b.threshold) && (b.state.Closed? <==> b.openedAt.None?)
  }

  /** Every interleaving of starts and finishes keeps this exactly when the threshold is positive. */
  lemma AlwaysConsistent(threshold: nat, openFor: nat)
    ensures threshold >= 1 <==> forall events :: Consistent(Run(New(threshold, openFor), events))
  {
    if threshold >= 1 {
      forall events
        ensures Consistent(Run(New(threshold, openFor), events))
      {
        RunIsConsistent(threshold, openFor, events);
      }
    } else {
      assert !Consistent(Run(New(threshold, openFor), []));
    }
  }

  lemma {:induction false} RunIsConsistent(threshold: nat, openFor: nat, events: seq<Event>)
    requires threshold >= 1
    ensures Consistent(Run(New(threshold, openFor), events))
    ensures Run(New(threshold, openFor), events).threshold == threshold
  {
    if events != [] {
      RunIsConsistent(threshold, openFor, events[..|events| - 1]);
    }
  }

  /** Times do not run backwards. */
  ghost predicate Ordered(from: nat, events: seq<Event>) {
    && (forall i :: 0 <= i < |events| ==> events[i].now >= from)
    && forall i, j :: 0 <= i < j < |events| ==> events[i].now <= events[j].now
  }

  ghost predicate NoSuccess(events: seq<Event>) {
    forall e :: e in events ==> !(e.Finish? && e.outcome.Good?)
  }

  /** What holds from a trip at time `t` on while no admitted call succeeds. */
  ghost predicate Tripped(b: Breaker, t: nat, clock: nat) {
    && b.openedAt.Some? && b.openedAt.value >= t && !b.state.Closed?
    && b.failures >= b.threshold
    && (b.state.HalfOpen? ==> clock >= t + b.openFor)
  }

  lemma {:induction false} StaysTripped(b: Breaker, t: nat, events: seq<Event>)
    requires Tripped(b, t, t) && Ordered(t, events) && NoSuccess(events)
    ensures Tripped(Run(b, events), t, if events == [] then t else events[|events| - 1].now)
    ensures Run(b, events).openFor == b.openFor
  {
    if events != [] {
      StaysTripped(b, t, events[..|events| - 1]);
    }
  }

  lemma {:induction false} RunJoins(b: Breaker, x: seq<Event>, y: seq<Event>)
    ensures Run(b, x + y) == Run(Run(b, x), y)
    decreases |y|
  {
    hide Step;
    if y == [] {
      assert x + y == x;
    } else {
      RunJoins(b, x, y[..|y| - 1]);
      assert (x + y)[..|x + y| - 1] == x + y[..|y| - 1];
    }
  }

  /** In any run: after a failure that reaches the threshold, and until an already admitted call
      succeeds, no call is admitted before the open duration has passed. */
  lemma ClosedToCallers(threshold: nat, openFor: nat, before: seq<Event>, t: nat, between: seq<Event>, now: nat)
    requires threshold >= 1 && SinceSuccess(before) + 1 >= threshold
    requires Ordered(t, between + [Start(now)]) && NoSuccess(between)
    requires Admits(Run(New(threshold, openFor), before + [Finish(t, Transient)] + between), now)
    ensures now >= t + openFor
  {
    var b := Run(New(threshold, openFor), before);
    RunIsConsistent(threshold, openFor, before);
    RunJoins(New(threshold, openFor), before + [Finish(t, Transient)], between);
    assert (before + [Finish(t, Transient)])[..|before|] == before;
    var all := between + [Start(now)];
    forall i, j | 0 <= i < j < |between|
      ensures between[i].now <= between[j].now
    {
      assert all[i] == between[i] && all[j] == between[j];
    }
    forall i | 0 <= i < |between|
      ensures t <= between[i].now <= now
    {
      assert all[i] == between[i] && all[|between|] == Start(now);
    }
    assert all[|between|] == Start(now);
    OpenForStays(threshold, openFor, before);
    CountsSinceSuccess(threshold, openFor, before);
    StaysTripped(Finished(b, t, Transient), t, between);
  }

  lemma {:induction false} OpenForStays(threshold: nat, openFor: nat, events: seq<Event>)
    ensures Run(New(threshold, openFor), events).openFor == openFor
  {
    if events != [] {
      OpenForStays(threshold, openFor, events[..|events| - 1]);
    }
  }

  /** A failure leaves the breaker open exactly when the failures since the last success reach the
      threshold, and a success always closes it. */
  lemma TripsAtThreshold(threshold: nat, openFor: nat, before: seq<Event>, t: nat)
    requires threshold >= 1
    ensures var b := Run(New(threshold, openFor), before);
      && (Finished(b, t, Transient).state.Open? <==> SinceSuccess(before) + 1 >= threshold)
      && Finished(b, t, Good) == New(threshold, openFor)
  {
    RunIsConsistent(threshold, openFor, before);
    OpenForStays(threshold, openFor, before);
    CountsSinceSuccess(threshold, openFor, before);
  }

  /** Transient failures since the last success. */
  function SinceSuccess(events: seq<Event>): nat {
    if events == [] then 0 else
      var e := events[|events| - 1];
      if e.Finish? && e.outcome.Good? then 0
      else SinceSuccess(events[..|events| - 1]) + if e.Finish? && e.outcome.Transient? then 1 else 0
  }

  lemma {:induction false} CountsSinceSuccess(threshold: nat, openFor: nat, events: seq<Event>)
    ensures Run(New(threshold, openFor), events).failures == SinceSuccess(events)
  {
    if events != [] {
      CountsSinceSuccess(threshold, openFor, events[..|events| - 1]);
    }
  }

  /** When the failures last opened the breaker, if no success came after. */
  function LastTrip(threshold: nat, events: seq<Event>): Option<nat> {
    if events == [] then None else
      var e := events[|events| - 1];
      if e.Finish? && e.outcome.Good? then None
      else if e.Finish? && e.outcome.Transient? && SinceSuccess(events) >= threshold then Some(e.now)
      else LastTrip(threshold, events[..|events| - 1])
  }

  /** Somebody asked or called once the open duration had passed since then. */
  function Probed(threshold: nat, openFor: nat, events: seq<Event>): bool {
    if events == [] then false else
      var front, e := events[..|events| - 1], events[|events| - 1];
      match e
      case Finish(_, Good) => false
      case Finish(_, Transient) => SinceSuccess(events) < threshold && Probed(threshold, openFor, front)
      case Finish(_, Permanent) => Probed(threshold, openFor, front)
      case _ =>
        var trip := LastTrip(threshold, front);
        Probed(threshold, openFor, front) || (trip.Some? && e.now >= trip.value + openFor)
  }

  /** The whole state after any run: the failures since the last success, when they last opened the
      breaker, and half-open exactly if it was asked in time after that. */
  lemma {:induction false} BreakerIsHistory(threshold: nat, openFor: nat, events: seq<Event>)
    requires threshold >= 1
    ensures var b := Run(New(threshold, openFor), events);
      && b.threshold == threshold && b.openFor == openFor
      && b.failures == SinceSuccess(events)
      && b.openedAt == LastTrip(threshold, events)
      && (Probed(threshold, openFor, events) ==> b.openedAt.Some?)
      && b.state == if b.openedAt.None? then Closed else if Probed(threshold, openFor, events) then HalfOpen else Open
  {
    if events != [] {
      BreakerIsHistory(threshold, openFor, events[..|events| - 1]);
      RunIsConsistent(threshold, openFor, events[..|events| - 1]);
    }
  }

  /** The wait a rejected caller is told is the time until the breaker admits a probe. */
  lemma RetryAfterIsExact(b: Breaker, now: nat, later: nat)
    requires Consistent(b) && !Admits(b, now) && b.openedAt.value <= now <= later
    ensures RetryAfter(Ticked(b, now), now) > 0
    ensures Admits(Ticked(b, now), later) <==> later >= now + RetryAfter(Ticked(b, now), now)
  {
  }

  // ---------------------------------------------------------------------------------------
  // Retrying
  // ---------------------------------------------------------------------------------------

  datatype Policy = Policy(maxAttempts: nat, initial: nat, multiplier: real, maxDelay: nat)

  /** A float cast to an unsigned integer: truncated, and 0 below zero. */
  function Cast(x: real): nat {
    if x <= 0.0 then 0 else x.Floor
  }

  function NextDelay(p: Policy, delay: nat): nat {
    var next := Cast(delay as real * p.multiplier);
    if next < p.maxDelay then next else p.maxDelay
  }

  /** The delay before retry `k`. */
  function DelayAt(p: Policy, k: nat): nat {
    if k == 0 then p.initial else NextDelay(p, DelayAt(p, k - 1))
  }

  /** `f` gives the outcome of each attempt, counted from 1. */
  method RetryWithBackoff(p: Policy, f: nat -> Outcome) returns (r: Outcome, attempts: nat, delays: seq<nat>)
    ensures attempts >= 1 && (attempts <= p.maxAttempts || attempts == 1)
    ensures r == f(attempts) && (r == Transient ==> attempts >= p.maxAttempts)
    ensures forall i :: 1 <= i < attempts ==> f(i) == Transient
    ensures |delays| == attempts - 1 && forall k :: 0 <= k < |delays| ==> delays[k] == DelayAt(p, k)
  {
    var delay := p.initial;
    attempts := 0;
    delays := [];
    while true
      invariant attempts == 0 || attempts < p.maxAttempts
      invariant forall i :: 1 <= i <= attempts ==> f(i) == Transient
      invariant |delays| == attempts && delay == DelayAt(p, attempts)
      invariant forall k :: 0 <= k < |delays| ==> delays[k] == DelayAt(p, k)
      decreases p.maxAttempts - attempts
    {
      attempts := attempts + 1;
      r := f(attempts);
      if r != Transient || attempts >= p.maxAttempts {
        return;
      }
      delays := delays + [delay];
      delay := NextDelay(p, delay);
    }
  }

  ghost predicate AllCapped(p: Policy) {
    forall i: nat :: DelayAt(p, i) <= p.maxDelay
  }

  /** Every delay but the first is capped; the first is capped exactly if the policy starts so. */
  lemma DelaysAreCapped(p: Policy)
    ensures forall k: nat :: k > 0 ==> DelayAt(p, k) <= p.maxDelay
    ensures AllCapped(p) <==> p.initial <= p.maxDelay
  {
    assert DelayAt(p, 0) == p.initial;
    forall k: nat | k > 0
      ensures DelayAt(p, k) <= p.maxDelay
    {
      assert DelayAt(p, k) == NextDelay(p, DelayAt(p, k - 1));
    }
    if p.initial <= p.maxDelay {
      forall i: nat
        ensures DelayAt(p, i) <= p.maxDelay
      {
        if i == 0 {
          assert DelayAt(p, i) == p.initial;
        }
      }
    }
  }

  lemma Grows(d: nat, m: real)
    requires m >= 1.0
    ensures Cast(d as real * m) >= d
  {
    var x := d as real;
    assert x * m - x == x * (m - 1.0) >= 0.0;
  }

  /** With a multiplier of at least one, delays never shrink once they are below the cap. */
  lemma DelaysGrow(p: Policy, k: nat)
    requires p.multiplier >= 1.0 && DelayAt(p, k) <= p.maxDelay
    ensures DelayAt(p, k) <= DelayAt(p, k + 1) <= p.maxDelay
  {
    Grows(DelayAt(p, k), p.multiplier);
  }

  function Power(m: nat, k: nat): nat {
    if k == 0 then 1 else m * Power(m, k - 1)
  }

  /** The product, rounded down, or the cap if that is less. */
  ghost predicate IsCapped(x: real, cap: nat, next: nat) {
    next <= cap && next as real <= x && (next == cap || x < next as real + 1.0)
  }

  /** Each delay is the one before it times the multiplier, rounded down, or the cap. */
  lemma DelayIsRounded(p: Policy, k: nat, x: real)
    requires x == DelayAt(p, k) as real * p.multiplier && x >= 0.0
    ensures IsCapped(x, p.maxDelay, DelayAt(p, k + 1))
  {
    NextIsCapped(p, DelayAt(p, k), x);
  }

  lemma NextIsCapped(p: Policy, delay: nat, x: real)
    requires x == delay as real * p.multiplier && x >= 0.0
    ensures IsCapped(x, p.maxDelay, NextDelay(p, delay))
  {
  }

  lemma CappedWhole(n: nat, cap: nat, next: nat)
    requires IsCapped(n as real, cap, next)
    ensures next == if n < cap then n else cap
  {
  }

  lemma NextWhole(p: Policy, m: nat, k: nat, n: nat)
    requires p.multiplier == m as real && n == DelayAt(p, k) * m
    ensures DelayAt(p, k + 1) == if n < p.maxDelay then n else p.maxDelay
  {
    hide DelayAt, IsCapped;
    assert n as real == DelayAt(p, k) as real * p.multiplier;
    DelayIsRounded(p, k, n as real);
    CappedWhole(n, p.maxDelay, DelayAt(p, k + 1));
  }

  /** With a whole multiplier the delays grow exponentially up to the cap. */
  lemma {:induction false} DelaysAreExponential(p: Policy, m: nat, k: nat)
    requires p.multiplier == m as real && m >= 1
    ensures var n := p.initial * Power(m, k + 1);
      DelayAt(p, k + 1) == if n < p.maxDelay then n else p.maxDelay
  {
    hide DelayAt;
    NextWhole(p, m, k, DelayAt(p, k) * m);
    if k == 0 {
      FirstDelay(p);
      assert Power(m, 1) == m * Power(m, 0) == m;
    } else {
      DelaysAreExponential(p, m, k - 1);
      CapTimes(p.initial, Power(m, k), m, p.maxDelay);
    }
  }

  lemma FirstDelay(p: Policy)
    ensures DelayAt(p, 0) == p.initial
  {
  }

  lemma CapTimes(i: nat, q: nat, m: nat, cap: nat)
    requires m >= 1
    ensures i * (m * q) == i * q * m
    ensures i * q >= cap ==> cap * m >= cap && i * q * m >= cap
  {
    var x := i * q;
    assert i * (m * q) == x * m;
    if x >= cap {
      assert x * m >= x;
    }
  }
}
