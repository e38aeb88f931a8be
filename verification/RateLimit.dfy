/** The per-host rate limiter. Times and intervals are whole time units. */
module RateLimit {
  import opened Wrappers
  import opened Numbers

  datatype Bucket = Bucket(nextReady: nat, interval: nat)

  type Buckets = map<string, Bucket>

  datatype Event = Acquire(host: string, now: nat) | SetInterval(host: string, now: nat, interval: nat)

  // ---------------------------------------------------------------------------------------
  // The calls
  // ---------------------------------------------------------------------------------------

  function EntryFor(buckets: Buckets, host: string, now: nat, interval: nat): Bucket {
    if host in buckets then buckets[host] else Bucket(now, interval)
  }

  /** The time a caller may fetch: its call time plus the wait. */
  function Slot(b: Bucket, now: nat): nat {
    Max(b.nextReady, now)
  }

  function Step(standard: nat, buckets: Buckets, e: Event): Buckets {
    match e
    case SetInterval(host, now, interval) =>
      buckets[host := EntryFor(buckets, host, now, interval).(interval := interval)]
    case Acquire(host, now) =>
      var b := EntryFor(buckets, host, now, standard);
      buckets[host := b.(nextReady := Slot(b, now) + b.interval)]
  }

  /** What `interval_of` reports for a host. */
  function IntervalIn(standard: nat, buckets: Buckets, host: string): nat {
    if host in buckets then buckets[host].interval else standard
  }

  function Run(standard: nat, events: seq<Event>): Buckets {
    if events == [] then map[] else Step(standard, Run(standard, events[..|events| - 1]), events[|events| - 1])
  }

  class RateLimiter {
    const standard: nat
    var buckets: Buckets

    constructor (standard: nat)
      ensures this.standard == standard && buckets == map[]
    {
      this.standard := standard;
      buckets := map[];
    }

    method SetInterval(host: string, now: nat, interval: nat)
      modifies this`buckets
      ensures buckets == Step(standard, old(buckets), Event.SetInterval(host, now, interval))
    {
      var entry := if host in buckets then buckets[host] else Bucket(now, interval);
      buckets := buckets[host := entry.(interval := interval)];
    }

    method AcquireWait(host: string, now: nat) returns (wait: nat)
      modifies this`buckets
      ensures buckets == Step(standard, old(buckets), Acquire(host, now))
      ensures now + wait == Slot(EntryFor(old(buckets), host, now, standard), now)
    {
      var entry := if host in buckets then buckets[host] else Bucket(now, standard);
      wait := if now >= entry.nextReady then 0 else entry.nextReady - now;
      var base := Max(entry.nextReady, now);
      buckets := buckets[host := entry.(nextReady := base + entry.interval)];
    }
  }

  // ---------------------------------------------------------------------------------------
  // The schedule of one host
  // ---------------------------------------------------------------------------------------

  /** A granted slot, with the time of the call and the interval in force. */
  datatype Grant = Grant(now: nat, slot: nat, interval: nat)

  function Grants(standard: nat, events: seq<Event>, host: string): seq<Grant> {
    if events == [] then [] else
      var front, e := events[..|events| - 1], events[|events| - 1];
      var b := EntryFor(Run(standard, front), host, e.now, standard);
      Grants(standard, front, host)
      + if e.Acquire? && e.host == host then [Grant(e.now, Slot(b, e.now), b.interval)] else []
  }

  /** The interval last set for a host. */
  function InForce(standard: nat, events: seq<Event>, host: string): nat {
    if events == [] then standard else
      var e := events[|events| - 1];
      if e.SetInterval? && e.host == host then e.interval else InForce(standard, events[..|events| - 1], host)
  }

  /** After any run, in whatever order the calls read the clock, the interval of a host is the one last
      set for it, and the standard one if none was. */
  lemma {:induction false} IntervalIsInForce(standard: nat, events: seq<Event>, host: string)
    ensures IntervalIn(standard, Run(standard, events), host) == InForce(standard, events, host)
  {
    if events != [] {
      IntervalIsInForce(standard, events[..|events| - 1], host);
    }
  }

  ghost predicate Ordered(events: seq<Event>) {
    forall i, j :: 0 <= i < j < |events| ==> events[i].now <= events[j].now
  }

  ghost predicate Chained(g: seq<Grant>) {
    && (g != [] ==> g[0].slot == g[0].now)
    && forall i :: 0 <= i < |g| - 1 ==> g[i + 1].slot == Max(g[i + 1].now, g[i].slot + g[i].interval)
  }

  /** What the schedule so far demands of the next slot. */
  function NextFree(g: seq<Grant>): nat {
    if g == [] then 0 else g[|g| - 1].slot + g[|g| - 1].interval
  }

  /** The bucket of a host remembers the end of its schedule and the interval in force. */
  ghost predicate Remembers(standard: nat, buckets: Buckets, g: seq<Grant>, interval: nat, host: string, clock: nat) {
    && (g != [] ==> host in buckets)
    && (host in buckets ==> if g == [] then buckets[host].nextReady <= clock else buckets[host].nextReady == NextFree(g))
    && IntervalIn(standard, buckets, host) == interval
  }

  function Clock(events: seq<Event>): nat {
    if events == [] then 0 else events[|events| - 1].now
  }

  lemma StepRemembers(standard: nat, buckets: Buckets, e: Event, g: seq<Grant>, interval: nat, host: string, clock: nat)
    requires Remembers(standard, buckets, g, interval, host, clock) && clock <= e.now
    ensures var b := EntryFor(buckets, host, e.now, standard);
      var own := e.host == host;
      var g' := g + if e.Acquire? && own then [Grant(e.now, Slot(b, e.now), b.interval)] else [];
      && Remembers(standard, Step(standard, buckets, e), g',
                   if e.SetInterval? && own then e.interval else interval, host, e.now)
      && (e.Acquire? && own ==> Slot(b, e.now) == Max(e.now, NextFree(g)) && b.interval == interval)
  {
    if e.SetInterval? && e.host == host {
      assert g + [] == g;
    }
  }

  lemma ChainGrows(g: seq<Grant>, x: Grant)
    requires Chained(g) && x.slot == Max(x.now, NextFree(g))
    ensures Chained(g + [x])
  {
    var h := g + [x];
    forall i | 0 <= i < |h| - 1
      ensures h[i + 1].slot == Max(h[i + 1].now, h[i].slot + h[i].interval)
    {
      if i < |g| - 1 {
        assert g[i + 1].slot == Max(g[i + 1].now, g[i].slot + g[i].interval);
      }
    }
  }

  /** For call times that do not run backwards, each slot is the later of its call time and the
      previous slot plus the interval then in force. */
  lemma {:induction false} SlotsAreChained(standard: nat, events: seq<Event>, host: string)
    requires Ordered(events)
    ensures Chained(Grants(standard, events, host))
    ensures Remembers(standard, Run(standard, events), Grants(standard, events, host),
                      InForce(standard, events, host), host, Clock(events))
  {
    hide Remembers, Chained, Step, EntryFor, Slot;
    if events == [] {
      NothingGranted(standard, host);
    } else {
      var front, e := events[..|events| - 1], events[|events| - 1];
      SlotsAreChained(standard, front, host);
      assert Clock(front) <= e.now;
      var g := Grants(standard, front, host);
      StepRemembers(standard, Run(standard, front), e, g, InForce(standard, front, host), host, Clock(front));
      if e.Acquire? && e.host == host {
        var b := EntryFor(Run(standard, front), host, e.now, standard);
        ChainGrows(g, Grant(e.now, Slot(b, e.now), b.interval));
      } else {
        assert g + [] == g;
      }
    }
  }

  lemma NothingGranted(standard: nat, host: string)
    ensures Chained([]) && Remembers(standard, map[], [], standard, host, 0)
  {
  }

  /** The interval recorded with a grant is the one last set for the host. */
  lemma GrantUsesIntervalInForce(standard: nat, events: seq<Event>, host: string, now: nat)
    requires Ordered(events + [Acquire(host, now)])
    ensures var g := Grants(standard, events + [Acquire(host, now)], host);
      g != [] && g[|g| - 1].now == now && g[|g| - 1].interval == InForce(standard, events, host)
  {
    var all := events + [Acquire(host, now)];
    assert all[..|all| - 1] == events;
    forall i, j | 0 <= i < j < |events|
      ensures events[i].now <= events[j].now
    {
      assert all[i] == events[i] && all[j] == events[j];
    }
    SlotsAreChained(standard, events, host);
  }

  /** A schedule for the same calls that respects call times and spacing. */
  ghost predicate Feasible(g: seq<Grant>, slots: seq<nat>) {
    && |slots| == |g|
    && (forall i :: 0 <= i < |g| ==> slots[i] >= g[i].now)
    && forall i :: 0 <= i < |g| - 1 ==> slots[i + 1] >= slots[i] + g[i].interval
  }

  function SlotsOf(g: seq<Grant>): seq<nat> {
    seq(|g|, i requires 0 <= i < |g| => g[i].slot)
  }

  /** The granted slots are feasible, and no feasible schedule has any slot earlier. */
  lemma GrantsAreEarliest(standard: nat, events: seq<Event>, host: string, slots: seq<nat>)
    requires Ordered(events)
    ensures var g := Grants(standard, events, host);
      && Feasible(g, SlotsOf(g))
      && (Feasible(g, slots) ==> forall i :: 0 <= i < |g| ==> g[i].slot <= slots[i])
  {
    hide Grants;
    SlotsAreChained(standard, events, host);
    var g := Grants(standard, events, host);
    assert forall i :: 0 <= i < |g| ==> g[i].slot >= g[i].now by {
      forall i | 0 <= i < |g|
        ensures g[i].slot >= g[i].now
      {
        if i > 0 {
          assert g[(i - 1) + 1].slot == Max(g[(i - 1) + 1].now, g[i - 1].slot + g[i - 1].interval);
        }
      }
    }
    if Feasible(g, slots) {
      forall i | 0 <= i < |g|
        ensures g[i].slot <= slots[i]
      {
        EarliestUpTo(g, slots, i);
      }
    }
  }

  lemma {:induction false} EarliestUpTo(g: seq<Grant>, slots: seq<nat>, i: nat)
    requires Chained(g) && Feasible(g, slots) && i < |g|
    ensures g[i].slot <= slots[i]
  {
    if i > 0 {
      EarliestUpTo(g, slots, i - 1);
      assert g[(i - 1) + 1].slot == Max(g[(i - 1) + 1].now, g[i - 1].slot + g[i - 1].interval);
      assert slots[(i - 1) + 1] >= slots[i - 1] + g[i - 1].interval;
    }
  }

  // ---------------------------------------------------------------------------------------
  // Windows
  // ---------------------------------------------------------------------------------------

  /** How many of the first `n` slots lie in the window from `a` to `b`. */
  function CountIn(g: seq<Grant>, n: nat, a: nat, b: nat): nat
    requires n <= |g|
  {
    if n == 0 then 0 else CountIn(g, n - 1, a, b) + if a <= g[n - 1].slot <= b then 1 else 0
  }

  lemma {:induction false} Spaced(g: seq<Grant>, d: nat, i: nat, j: nat)
    requires Chained(g) && (forall k :: 0 <= k < |g| ==> g[k].interval == d) && i <= j < |g|
    ensures g[j].slot >= g[i].slot + (j - i) * d
    decreases j
  {
    if i < j {
      Spaced(g, d, i, j - 1);
      assert g[(j - 1) + 1].slot == Max(g[(j - 1) + 1].now, g[j - 1].slot + g[j - 1].interval);
      assert (j - i) * d == (j - 1 - i) * d + d;
    }
  }

  lemma {:induction false} Ends(g: seq<Grant>, n: nat, a: nat, b: nat) returns (first: nat, last: nat)
    requires n <= |g| && CountIn(g, n, a, b) > 0
    ensures first <= last < n && a <= g[first].slot <= b && a <= g[last].slot <= b
    ensures CountIn(g, n, a, b) <= last - first + 1
    decreases n
  {
    if CountIn(g, n - 1, a, b) == 0 {
      first, last := n - 1, n - 1;
    } else {
      first, last := Ends(g, n - 1, a, b);
      if a <= g[n - 1].slot <= b {
        last := n - 1;
      }
    }
  }

  lemma FewerIntervals(c: nat, m: nat, d: nat, width: nat)
    requires c * d <= width < m * d
    ensures c < m
  {
    if c >= m {
      Widened(m, c, d);
      assert false;
    }
  }

  lemma Widened(c: nat, n: nat, d: nat)
    requires c <= n
    ensures c * d <= n * d
  {
    assert n * d == c * d + (n - c) * d && (n - c) * d >= 0;
  }

  /** With one interval throughout, a window shorter than `m` intervals holds at most `m` slots. */
  lemma WindowHoldsFew(standard: nat, events: seq<Event>, host: string, d: nat, m: nat, a: nat, b: nat)
    requires Ordered(events)
    requires forall k :: 0 <= k < |Grants(standard, events, host)| ==> Grants(standard, events, host)[k].interval == d
    requires a <= b && b - a < m * d
    ensures CountIn(Grants(standard, events, host), |Grants(standard, events, host)|, a, b) <= m
  {
    hide Grants;
    var g := Grants(standard, events, host);
    SlotsAreChained(standard, events, host);
    var c := CountIn(g, |g|, a, b);
    if c > 0 {
      var first, last := Ends(g, |g|, a, b);
      Spaced(g, d, first, last);
      Widened(c - 1, last - first, d);
      FewerIntervals(c - 1, m, d, b - a);
    }
  }

  // ---------------------------------------------------------------------------------------
  // Hosts
  // ---------------------------------------------------------------------------------------

  /** The calls for one host. */
  function Only(events: seq<Event>, host: string): seq<Event> {
    if events == [] then [] else
      Only(events[..|events| - 1], host) + if events[|events| - 1].host == host then [events[|events| - 1]] else []
  }

  function BucketOf(buckets: Buckets, host: string): Option<Bucket> {
    if host in buckets then Some(buckets[host]) else None
  }

  /** Calls for other hosts change nothing for a host. */
  lemma {:induction false} HostsAreIndependent(standard: nat, events: seq<Event>, host: string)
    ensures BucketOf(Run(standard, events), host) == BucketOf(Run(standard, Only(events, host)), host)
    ensures Grants(standard, events, host) == Grants(standard, Only(events, host), host)
  {
    if events != [] {
      var front, e := events[..|events| - 1], events[|events| - 1];
      HostsAreIndependent(standard, front, host);
      if e.host == host {
        assert Only(events, host)[..|Only(events, host)| - 1] == Only(front, host);
      } else {
        assert Only(events, host) == Only(front, host);
      }
    }
  }
}
