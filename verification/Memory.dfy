/** Working memory (a ring per session) and episodic memory (records with a tag index). */
module Memory {
  import opened Wrappers
  import opened JsonValues
  import opened Strings
  import opened Sequences

  datatype Tier = Working | Episodic | Semantic | Procedural

  datatype MemoryEntry = MemoryEntry(tier: Tier, key: string, value: Json, trust: string, tenant: Option<string>,
                                     createdAt: nat)

  function Last<T>(s: seq<T>, k: nat): (r: seq<T>)
    ensures |r| == if k < |s| then k else |s|
  {
    if k < |s| then s[|s| - k..] else s
  }

  function Reversed<T>(s: seq<T>): (r: seq<T>)
    ensures |r| == |s| && forall i :: 0 <= i < |s| ==> r[i] == s[|s| - 1 - i]
  {
    seq(|s|, i requires 0 <= i < |s| => s[|s| - 1 - i])
  }

  // ---------------------------------------------------------------------------------------
  // Working memory
  // ---------------------------------------------------------------------------------------

  datatype Event = Append(session: string, entry: MemoryEntry) | Clear(session: string)

  /** What was appended to a session since it was last cleared. */
  function SinceClear(log: seq<Event>, session: string): seq<MemoryEntry> {
    if log == [] then [] else
      var e := log[|log| - 1];
      if e.session != session then SinceClear(log[..|log| - 1], session)
      else match e
        case Append(_, entry) => SinceClear(log[..|log| - 1], session) + [entry]
        case Clear(_) => []
  }

  lemma OneMoreEvent(log: seq<Event>, e: Event, session: string)
    ensures SinceClear(log + [e], session) ==
            if e.session != session then SinceClear(log, session)
            else if e.Clear? then [] else SinceClear(log, session) + [e.entry]
  {
    assert (log + [e])[..|log|] == log;
  }

  /** What a ring of capacity `cap` keeps. The derived default has capacity zero: a ring is then full
      only while it is empty, so it drops nothing and grows without bound. */
  function Kept<T>(s: seq<T>, cap: nat): (r: seq<T>)
    ensures cap > 0 ==> |r| <= cap
  {
    if cap == 0 then s else Last(s, cap)
  }

  /** A full ring drops its oldest entry; dropping from an empty one does nothing. */
  function DropOldest<T>(q: seq<T>): seq<T> {
    if q == [] then [] else q[1..]
  }

  lemma KeptOfOneMore<T>(s: seq<T>, x: T, cap: nat)
    ensures Kept(s + [x], cap) == (if |Kept(s, cap)| == cap then DropOldest(Kept(s, cap)) else Kept(s, cap)) + [x]
  {
  }

  class WorkingMemory {
    const cap: nat
    var sessions: map<string, seq<MemoryEntry>>
    ghost var log: seq<Event>

    /** Each ring holds the last `cap` appends of its session since its last clear, or all of them
        if `cap` is zero. */
    ghost predicate Valid()
      reads this
    {
      forall s: string :: Ring(s) == Kept(SinceClear(log, s), cap)
    }

    function Ring(session: string): seq<MemoryEntry>
      reads this
    {
      if session in sessions then sessions[session] else []
    }

    constructor (capacity: nat)
      ensures Valid() && log == [] && cap == (if capacity < 1 then 1 else capacity)
    {
      cap := if capacity < 1 then 1 else capacity;
      sessions, log := map[], [];
    }

    /** The derived `Default`. */
    constructor Default()
      ensures Valid() && log == [] && cap == 0
    {
      cap := 0;
      sessions, log := map[], [];
    }

    method AppendEntry(session: string, entry: MemoryEntry)
      requires Valid()
      modifies this
      ensures Valid() && log == old(log) + [Append(session, entry)]
    {
      hide SinceClear, Kept;
      var q := Ring(session);
      KeptOfOneMore(SinceClear(log, session), entry, cap);
      if |q| == cap {
        q := DropOldest(q);
      }
      q := q + [entry];
      sessions := sessions[session := q];
      forall s: string
        ensures Ring(s) == Kept(SinceClear(log + [Append(session, entry)], s), cap)
      {
        assert old(Ring(s)) == Kept(SinceClear(old(log), s), cap);
        OneMoreEvent(log, Append(session, entry), s);
      }
      log := log + [Append(session, entry)];
    }

    /** Newest first. */
    method Recent(session: string, limit: nat) returns (r: seq<MemoryEntry>)
      requires Valid()
      ensures r == Reversed(Last(Kept(SinceClear(log, session), cap), limit))
    {
      var q := Ring(session);
      r := [];
      var i := |q|;
      while i > 0 && |r| < limit
        invariant 0 <= i <= |q| && |r| == |q| - i && |r| <= limit
        invariant forall k :: 0 <= k < |r| ==> r[k] == q[|q| - 1 - k]
      {
        i := i - 1;
        r := r + [q[i]];
      }
    }

    method ClearSession(session: string)
      requires Valid()
      modifies this
      ensures Valid() && log == old(log) + [Clear(session)]
    {
      hide SinceClear;
      sessions := map s | s in sessions && s != session :: sessions[s];
      forall s: string
        ensures Ring(s) == Kept(SinceClear(log + [Clear(session)], s), cap)
      {
        assert old(Ring(s)) == Kept(SinceClear(old(log), s), cap);
        OneMoreEvent(log, Clear(session), s);
      }
      log := log + [Clear(session)];
    }
  }

  // ---------------------------------------------------------------------------------------
  // Episodic memory
  // ---------------------------------------------------------------------------------------

  /** A record as it was made. */
  datatype Record = Record(entry: MemoryEntry, tags: seq<string>)

  /** The index list of a tag: record numbers in order, once for each time the record names it. */
  function Indexed(records: seq<Record>, tag: string): seq<nat> {
    if records == [] then [] else
      Indexed(records[..|records| - 1], tag) + Times<nat>(|records| - 1, Count(records[|records| - 1].tags, tag))
  }

  /** Entries of other tenants are hidden; public entries and unfiltered reads see everything. */
  predicate Visible(e: MemoryEntry, tenant: Option<string>) {
    tenant.None? || e.tenant.None? || e.tenant == tenant
  }

  /** A scan of the records in order, with the multiplicity of the tag. */
  function Scan(records: seq<Record>, tag: string, tenant: Option<string>): seq<MemoryEntry> {
    if records == [] then [] else
      var r := records[|records| - 1];
      Scan(records[..|records| - 1], tag, tenant)
      + if Visible(r.entry, tenant) then Times(r.entry, Count(r.tags, tag)) else []
  }

  /** The plain scan: every visible record that names the tag, once. */
  function PlainScan(records: seq<Record>, tag: string, tenant: Option<string>): seq<MemoryEntry> {
    if records == [] then [] else
      var r := records[|records| - 1];
      PlainScan(records[..|records| - 1], tag, tenant) + if tag in r.tags && Visible(r.entry, tenant) then [r.entry] else []
  }

  lemma OneMoreRecord(records: seq<Record>, r: Record, tag: string)
    ensures Indexed(records + [r], tag) == Indexed(records, tag) + Times<nat>(|records|, Count(r.tags, tag))
  {
    assert (records + [r])[..|records|] == records;
  }

  ghost predicate Below(idxs: seq<nat>, n: nat) {
    forall k :: 0 <= k < |idxs| ==> idxs[k] < n
  }

  lemma {:induction false} TimesBelow(i: nat, k: nat, n: nat)
    requires i < n
    ensures Below(Times<nat>(i, k), n)
  {
    if k > 0 {
      TimesBelow(i, k - 1, n);
    }
  }

  lemma BelowJoins(a: seq<nat>, m: nat, b: seq<nat>, n: nat)
    requires Below(a, m) && Below(b, n) && m <= n
    ensures Below(a + b, n)
  {
  }

  lemma {:induction false} IndexedBelow(records: seq<Record>, tag: string)
    ensures Below(Indexed(records, tag), |records|)
  {
    if records != [] {
      IndexedBelow(records[..|records| - 1], tag);
      TimesBelow(|records| - 1, Count(records[|records| - 1].tags, tag), |records|);
      BelowJoins(Indexed(records[..|records| - 1], tag), |records| - 1,
                 Times<nat>(|records| - 1, Count(records[|records| - 1].tags, tag)), |records|);
    }
  }

  function Entries(records: seq<Record>): seq<MemoryEntry> {
    seq(|records|, i requires 0 <= i < |records| => records[i].entry)
  }

  /** The visible entries at some indices, in order; an index without an entry is skipped. */
  function Picked(entries: seq<MemoryEntry>, idxs: seq<nat>, tenant: Option<string>): seq<MemoryEntry> {
    if idxs == [] then [] else
      Picked(entries, idxs[..|idxs| - 1], tenant) + PickOne(entries, idxs[|idxs| - 1], tenant)
  }

  function PickOne(entries: seq<MemoryEntry>, i: nat, tenant: Option<string>): seq<MemoryEntry> {
    if i < |entries| && Visible(entries[i], tenant) then [entries[i]] else []
  }

  class EpisodicMemory {
    var entries: seq<MemoryEntry>
    var byTag: map<string, seq<nat>>
    ghost var records: seq<Record>

    ghost predicate Valid()
      reads this
    {
      && entries == Entries(records)
      && forall t: string :: IndexOf(t) == Indexed(records, t)
    }

    function IndexOf(tag: string): seq<nat>
      reads this
    {
      if tag in byTag then byTag[tag] else []
    }

    constructor ()
      ensures Valid() && records == []
    {
      entries, byTag, records := [], map[], [];
    }

    method RecordEntry(entry: MemoryEntry, tags: seq<string>) returns (idx: nat)
      requires Valid()
      modifies this
      ensures Valid() && records == old(records) + [Record(entry, tags)] && idx == |old(records)|
    {
      hide Indexed, Count, Times;
      entries := entries + [entry];
      idx := |entries| - 1;
      assert idx == |records|;
      forall t: string
        ensures old(IndexOf(t)) == Indexed(old(records), t) + Times<nat>(idx, Count(tags[..0], t))
      {
        NoTags(idx, t);
        assert tags[..0] == [];
      }
      for i := 0 to |tags|
        invariant entries == old(entries) + [entry] && records == old(records)
        invariant forall t: string :: IndexOf(t) == Indexed(records, t) + Times<nat>(idx, Count(tags[..i], t))
      {
        var t := tags[i];
        forall u: string
          ensures Times<nat>(idx, Count(tags[..i + 1], u)) == Times<nat>(idx, Count(tags[..i], u)) + if u == t then [idx] else []
        {
          OneMoreTag(tags, i, idx, u);
        }
        byTag := byTag[t := IndexOf(t) + [idx]];
      }
      assert tags[..|tags|] == tags;
      forall t: string
        ensures IndexOf(t) == Indexed(records + [Record(entry, tags)], t)
      {
        OneMoreRecord(records, Record(entry, tags), t);
      }
      records := records + [Record(entry, tags)];
    }

    /** The last `limit` visible entries under the tag, in record order. */
    method ByTag(tag: string, tenant: Option<string>, limit: nat) returns (out: seq<MemoryEntry>)
      requires Valid()
      ensures out == Last(Scan(records, tag, tenant), limit)
    {
      hide Scan, Indexed, Last;
      var idxs := IndexOf(tag);
      out := TakeBack(entries, idxs, tenant, limit);
      PickedIsScan(records, tag, tenant);
    }
  }

  lemma NoTags(idx: nat, t: string)
    ensures Times<nat>(idx, Count([], t)) == []
  {
  }

  lemma OneMoreTag(tags: seq<string>, i: nat, idx: nat, u: string)
    requires i < |tags|
    ensures Times<nat>(idx, Count(tags[..i + 1], u)) == Times<nat>(idx, Count(tags[..i], u)) + if u == tags[i] then [idx] else []
  {
    assert tags[..i + 1][..i] == tags[..i];
  }

  lemma PickLast(entries: seq<MemoryEntry>, idxs: seq<nat>, i: nat, tenant: Option<string>)
    ensures Picked(entries, idxs + [i], tenant) == Picked(entries, idxs, tenant) + PickOne(entries, i, tenant)
  {
    assert (idxs + [i])[..|idxs|] == idxs;
  }

  /** From the back: the visible entries, until there are enough, then turned around. */
  method TakeBack(entries: seq<MemoryEntry>, idxs: seq<nat>, tenant: Option<string>,
                  limit: nat) returns (out: seq<MemoryEntry>)
    ensures out == Last(Picked(entries, idxs, tenant), limit)
  {
    hide Picked;
    var back: seq<MemoryEntry>, n := [], |idxs|;
    ghost var all := Picked(entries, idxs, tenant);
    assert idxs[..n] == idxs && all + Reversed(back) == all;
    while n > 0 && |back| < limit
      invariant n <= |idxs| && |back| <= limit
      invariant all == Picked(entries, idxs[..n], tenant) + Reversed(back)
    {
      n := n - 1;
      assert idxs[..n + 1] == idxs[..n] + [idxs[n]];
      PickLast(entries, idxs[..n], idxs[n], tenant);
      if idxs[n] < |entries| && Visible(entries[idxs[n]], tenant) {
        assert Reversed(back + [entries[idxs[n]]]) == [entries[idxs[n]]] + Reversed(back);
        back := back + [entries[idxs[n]]];
      }
    }
    out := Reversed(back);
    if n == 0 {
      NothingPicked(entries, tenant);
      assert [] + out == out;
    }
    SuffixIsLast(Picked(entries, idxs[..n], tenant), out, limit);
  }

  lemma NothingPicked(entries: seq<MemoryEntry>, tenant: Option<string>)
    ensures Picked(entries, [], tenant) == []
  {
  }

  lemma SuffixIsLast<T>(front: seq<T>, back: seq<T>, k: nat)
    requires |back| <= k && (front == [] || |back| == k)
    ensures Last(front + back, k) == back
  {
  }

  lemma {:induction false} PickedTimes(entries: seq<MemoryEntry>, idxs: seq<nat>, i: nat, k: nat,
                                       tenant: Option<string>)
    requires i < |entries|
    ensures Picked(entries, idxs + Times<nat>(i, k), tenant)
            == Picked(entries, idxs, tenant) + if Visible(entries[i], tenant) then Times(entries[i], k) else []
  {
    hide Picked, Visible;
    if k == 0 {
      assert idxs + Times<nat>(i, k) == idxs;
    } else {
      PickedTimes(entries, idxs, i, k - 1, tenant);
      Assoc(idxs, Times<nat>(i, k - 1), [i]);
      PickLast(entries, idxs + Times<nat>(i, k - 1), i, tenant);
      var p := Picked(entries, idxs, tenant);
      Assoc(p, Times(entries[i], k - 1), [entries[i]]);
    }
  }

  lemma {:induction false} PickedPrefix(entries: seq<MemoryEntry>, more: seq<MemoryEntry>, idxs: seq<nat>,
                                        tenant: Option<string>)
    requires Below(idxs, |entries|)
    ensures Picked(entries + more, idxs, tenant) == Picked(entries, idxs, tenant)
  {
    if idxs != [] {
      PickedPrefix(entries, more, idxs[..|idxs| - 1], tenant);
    }
  }

  /** The index gives what a scan of the records gives. */
  lemma {:induction false} PickedIsScan(records: seq<Record>, tag: string, tenant: Option<string>)
    ensures Picked(Entries(records), Indexed(records, tag), tenant) == Scan(records, tag, tenant)
  {
    hide Picked, Times, Count;
    if records == [] {
      NothingPicked([], tenant);
    } else {
      var front, r := records[..|records| - 1], records[|records| - 1];
      IndexedBelow(front, tag);
      PickedIsScan(front, tag, tenant);
      assert Entries(records) == Entries(front) + [r.entry];
      PickedPrefix(Entries(front), [r.entry], Indexed(front, tag), tenant);
      PickedTimes(Entries(records), Indexed(front, tag), |front|, Count(r.tags, tag), tenant);
    }
  }

  lemma {:induction false} CountOnce(tags: seq<string>, tag: string)
    requires Distinct(tags)
    ensures Count(tags, tag) == if tag in tags then 1 else 0
  {
    if tags != [] {
      var front, last := tags[..|tags| - 1], tags[|tags| - 1];
      CountOnce(front, tag);
      assert tags == front + [last] && last !in front;
    }
  }

  /** If no record repeats a tag, the lookup is the plain scan. */
  lemma {:induction false} DistinctTagsScanPlainly(records: seq<Record>, tag: string, tenant: Option<string>)
    requires forall r :: r in records ==> Distinct(r.tags)
    ensures Scan(records, tag, tenant) == PlainScan(records, tag, tenant)
  {
    if records != [] {
      var r := records[|records| - 1];
      DistinctTagsScanPlainly(records[..|records| - 1], tag, tenant);
      assert r in records;
      CountOnce(r.tags, tag);
      assert Times(r.entry, 0) == [] && Times(r.entry, 1) == [] + [r.entry];
    }
  }

  /** A record with the tag whose entry belongs to nobody or to the tenant that asks, or any such record
      if no tenant asks. */
  ghost predicate Readable(r: Record, e: MemoryEntry, tag: string, tenant: Option<string>) {
    r.entry == e && tag in r.tags && (tenant == None || e.tenant == None || e.tenant == tenant)
  }

  /** Exactly the entries of such records are returned: nothing another tenant owns, and nothing less. */
  lemma {:induction false} ScanIsVisible(records: seq<Record>, tag: string, tenant: Option<string>)
    ensures forall e :: e in Scan(records, tag, tenant) <==> exists r :: r in records && Readable(r, e, tag, tenant)
  {
    if records != [] {
      var front, r := records[..|records| - 1], records[|records| - 1];
      ScanIsVisible(front, tag, tenant);
      TimesIsOne(r.entry, Count(r.tags, tag));
      CountPositive(r.tags, tag);
      assert forall q :: q in records <==> q in front || q == r by { assert records == front + [r]; }
      forall e
        ensures e in Scan(records, tag, tenant) <==>
                e in Scan(front, tag, tenant) || Readable(r, e, tag, tenant)
      {
      }
    }
  }

  lemma {:induction false} CountPositive(tags: seq<string>, tag: string)
    ensures Count(tags, tag) > 0 <==> tag in tags
  {
    if tags != [] {
      CountPositive(tags[..|tags| - 1], tag);
      assert tags == tags[..|tags| - 1] + [tags[|tags| - 1]];
    }
  }

  lemma {:induction false} TimesIsOne<T>(x: T, k: nat)
    ensures k > 0 ==> x in Times(x, k)
    ensures forall y :: y in Times(x, k) ==> y == x
  {
    if k > 0 {
      TimesIsOne(x, k - 1);
    }
  }
}
