/** The TTL cache in front of a metadata client, in sequential use. Times are explicit: `now` when
    a call looks into the map, `at` when the inner client's answer is stored. */
module MetadataCache {
  import opened Wrappers
  import Strings

  datatype Key = Key(name: string, language: string)

  datatype Meta = Meta(name: string, details: string)

  datatype Entry = Entry(meta: Meta, cachedAt: nat)

  /** The answer to a bulk call: what was found, and the names of the rest. */
  datatype Bulk = Bulk(functions: seq<Meta>, missing: seq<string>)

  type Entries = map<Key, Entry>

  datatype Cache = Cache(ttl: nat, entries: Entries, hits: nat, misses: nat, evictions: nat)

  /** One call. `reply` is what the inner client answers if it is asked, `None` for an error. */
  datatype Event =
    | One(key: Key, now: nat, reply: Option<Meta>, at: nat)
    | Many(names: seq<string>, language: string, now: nat, bulk: Option<Bulk>, at: nat)
    | InvalidateAll

  // ---------------------------------------------------------------------------------------
  // The calls, on values
  // ---------------------------------------------------------------------------------------

  function GetFresh(ttl: nat, entries: Entries, key: Key, now: nat): Option<Meta> {
    if key !in entries then None
    else if ttl == 0 || now <= entries[key].cachedAt + ttl then Some(entries[key].meta)
    else None
  }

  function Stored(ttl: nat, entries: Entries, key: Key, meta: Meta, at: nat): Entries {
    if ttl == 0 then entries else entries[key := Entry(meta, at)]
  }

  function AskOne(c: Cache, key: Key, now: nat, reply: Option<Meta>, at: nat): (Cache, Option<Meta>) {
    var found := if c.ttl == 0 then None else GetFresh(c.ttl, c.entries, key, now);
    if found.Some? then (c.(hits := c.hits + 1), found)
    else if reply.None? then (c.(misses := c.misses + 1), None)
    else (c.(misses := c.misses + 1, entries := Stored(c.ttl, c.entries, key, reply.value, at)), reply)
  }

  /** What a bulk call finds in the map. */
  function Found(ttl: nat, entries: Entries, names: seq<string>, language: string, now: nat): seq<Meta> {
    if names == [] then [] else
      var r := GetFresh(ttl, entries, Key(names[|names| - 1], language), now);
      Found(ttl, entries, names[..|names| - 1], language, now) + if r.Some? then [r.value] else []
  }

  /** What it has to ask the inner client for. */
  function ToFetch(ttl: nat, entries: Entries, names: seq<string>, language: string, now: nat): seq<string> {
    if names == [] then [] else
      var r := GetFresh(ttl, entries, Key(names[|names| - 1], language), now);
      ToFetch(ttl, entries, names[..|names| - 1], language, now) + if r.Some? then [] else [names[|names| - 1]]
  }

  function AllStored(ttl: nat, entries: Entries, metas: seq<Meta>, language: string, at: nat): Entries {
    if metas == [] then entries else
      var m := metas[|metas| - 1];
      Stored(ttl, AllStored(ttl, entries, metas[..|metas| - 1], language, at), Key(m.name, language), m, at)
  }

  function AskMany(c: Cache, names: seq<string>, language: string, now: nat, bulk: Option<Bulk>,
                   at: nat): (Cache, Option<Bulk>) {
    var hits, toFetch := Found(c.ttl, c.entries, names, language, now), ToFetch(c.ttl, c.entries, names, language, now);
    var counted := c.(hits := c.hits + |hits|, misses := c.misses + |toFetch|);
    if toFetch == [] then (counted, Some(Bulk(hits, [])))
    else if bulk.None? then (counted, None)
    else (counted.(entries := AllStored(c.ttl, c.entries, bulk.value.functions, language, at)),
          Some(Bulk(hits + bulk.value.functions, bulk.value.missing)))
  }

  function Cleared(c: Cache): Cache {
    c.(entries := map[], evictions := c.evictions + |c.entries|)
  }

  // ---------------------------------------------------------------------------------------
  // The object
  // ---------------------------------------------------------------------------------------

  class CachedClient {
    const ttl: nat
    var entries: Entries
    var hits: nat
    var misses: nat
    var evictions: nat

    function Value(): Cache
      reads this
    {
      Cache(ttl, entries, hits, misses, evictions)
    }

    constructor (ttl: nat)
      ensures Value() == Fresh(ttl)
    {
      this.ttl := ttl;
      entries, hits, misses, evictions := map[], 0, 0, 0;
    }

    method OperationMetadata(key: Key, now: nat, reply: Option<Meta>, at: nat) returns (r: Option<Meta>)
      modifies this
      ensures (Value(), r) == AskOne(old(Value()), key, now, reply, at)
    {
      if ttl == 0 {
        misses := misses + 1;
        return reply;
      }
      var found := GetFresh(ttl, entries, key, now);
      if found.Some? {
        hits := hits + 1;
        return found;
      }
      misses := misses + 1;
      if reply.Some? {
        entries := Stored(ttl, entries, key, reply.value, at);
      }
      return reply;
    }

    /** `asked` are the names the inner client is asked for; it is not called for none. */
    method BulkOperationMetadata(names: seq<string>, language: string, now: nat, bulk: Option<Bulk>, at: nat)
      returns (r: Option<Bulk>, asked: seq<string>)
      modifies this
      ensures (Value(), r) == AskMany(old(Value()), names, language, now, bulk, at)
      ensures asked == ToFetch(ttl, old(entries), names, language, now)
    {
      hide GetFresh, Stored;
      var found: seq<Meta>, toFetch: seq<string> := [], [];
      for i := 0 to |names|
        invariant entries == old(entries) && hits == old(hits) && misses == old(misses) && evictions == old(evictions)
        invariant found == Found(ttl, entries, names[..i], language, now)
        invariant toFetch == ToFetch(ttl, entries, names[..i], language, now)
      {
        assert names[..i + 1][..i] == names[..i];
        var meta := GetFresh(ttl, entries, Key(names[i], language), now);
        if meta.Some? {
          found := found + [meta.value];
        } else {
          toFetch := toFetch + [names[i]];
        }
      }
      assert names[..|names|] == names;
      hits, misses := hits + |found|, misses + |toFetch|;
      if toFetch == [] {
        return Some(Bulk(found, [])), [];
      }
      if bulk.None? {
        return None, toFetch;
      }
      var metas := bulk.value.functions;
      for i := 0 to |metas|
        invariant hits == old(hits) + |found| && misses == old(misses) + |toFetch| && evictions == old(evictions)
        invariant entries == AllStored(ttl, old(entries), metas[..i], language, at)
      {
        assert metas[..i + 1][..i] == metas[..i];
        entries := Stored(ttl, entries, Key(metas[i].name, language), metas[i], at);
      }
      assert metas[..|metas|] == metas;
      return Some(Bulk(found + metas, bulk.value.missing)), toFetch;
    }

    method InvalidateAll()
      modifies this
      ensures Value() == Cleared(old(Value()))
    {
      evictions := evictions + |entries|;
      entries := map[];
    }
  }

  // ---------------------------------------------------------------------------------------
  // Runs
  // ---------------------------------------------------------------------------------------

  function Fresh(ttl: nat): Cache {
    Cache(ttl, map[], 0, 0, 0)
  }

  function Apply(c: Cache, e: Event): Cache {
    match e
    case One(key, now, reply, at) => AskOne(c, key, now, reply, at).0
    case Many(names, language, now, bulk, at) => AskMany(c, names, language, now, bulk, at).0
    case InvalidateAll => Cleared(c)
  }

  function Run(ttl: nat, events: seq<Event>): Cache {
    if events == [] then Fresh(ttl) else Apply(Run(ttl, events[..|events| - 1]), events[|events| - 1])
  }

  /** An answer of the inner client, the key it is filed under, and when it was taken in. */
  datatype Answer = Answer(key: Key, meta: Meta, at: nat)

  function FiledAs(metas: seq<Meta>, language: string, at: nat): seq<Answer> {
    seq(|metas|, i requires 0 <= i < |metas| => Answer(Key(metas[i].name, language), metas[i], at))
  }

  /** The answer given last for a key. */
  function LastAnswer(given: seq<Answer>, key: Key): (r: Option<Answer>)
    ensures r.None? <==> forall a :: a in given ==> a.key != key
    ensures r.Some? ==> exists i :: IsLast(given, i, r.value, key)
  {
    if given == [] then None else
      var n := |given| - 1;
      if given[n].key == key then (assert IsLast(given, n, given[n], key); Some(given[n]))
      else
        var r := LastAnswer(given[..n], key);
        assert forall a :: a in given <==> a in given[..n] || a == given[n];
        assert forall i, a :: IsLast(given[..n], i, a, key) ==> IsLast(given, i, a, key);
        r
  }

  ghost predicate IsLast(given: seq<Answer>, i: int, a: Answer, key: Key) {
    && 0 <= i < |given| && given[i] == a && a.key == key
    && forall j :: i < j < |given| ==> given[j].key != key
  }

  /** What a cache that remembers every answer would serve: the last one, if it is no older than the
      TTL. A TTL of zero remembers nothing. */
  function Current(given: seq<Answer>, ttl: nat, key: Key, now: nat): Option<Meta> {
    var last := LastAnswer(given, key);
    if ttl > 0 && last.Some? && now <= last.value.at + ttl then Some(last.value.meta) else None
  }

  /** The requested names split by whether there is such an answer, in order. */
  function Known(given: seq<Answer>, ttl: nat, names: seq<string>, language: string, now: nat): seq<Meta> {
    if names == [] then [] else
      var m := Current(given, ttl, Key(names[0], language), now);
      (if m.Some? then [m.value] else []) + Known(given, ttl, names[1..], language, now)
  }

  function Unknown(given: seq<Answer>, ttl: nat, names: seq<string>, language: string, now: nat): seq<string> {
    if names == [] then [] else
      (if Current(given, ttl, Key(names[0], language), now).Some? then [] else [names[0]])
      + Unknown(given, ttl, names[1..], language, now)
  }

  /** What the inner client answers in one call, if the call reaches it. */
  function Answers(given: seq<Answer>, ttl: nat, e: Event): seq<Answer> {
    match e
    case One(key, now, reply, at) =>
      if reply.None? || Current(given, ttl, key, now).Some? then [] else [Answer(key, reply.value, at)]
    case Many(names, language, now, bulk, at) =>
      if bulk.None? || Unknown(given, ttl, names, language, now) == [] then []
      else FiledAs(bulk.value.functions, language, at)
    case InvalidateAll => []
  }

  /** The answers the inner client gave since the last `InvalidateAll`. */
  function Since(ttl: nat, events: seq<Event>): seq<Answer> {
    if events == [] || events[|events| - 1].InvalidateAll? then [] else
      var before := Since(ttl, events[..|events| - 1]);
      before + Answers(before, ttl, events[|events| - 1])
  }

  // ---------------------------------------------------------------------------------------
  // The map holds the last answers
  // ---------------------------------------------------------------------------------------

  ghost predicate HoldsLast(entries: Entries, given: seq<Answer>, k: Key) {
    var last := LastAnswer(given, k);
    if k in entries then last == Some(Answer(k, entries[k].meta, entries[k].cachedAt)) else last.None?
  }

  /** The map holds the last answer for each key, and with a TTL of zero nothing at all. */
  ghost predicate Mirrors(ttl: nat, entries: Entries, given: seq<Answer>) {
    if ttl == 0 then entries == map[] else forall k :: HoldsLast(entries, given, k)
  }

  lemma StoringOne(ttl: nat, entries: Entries, key: Key, meta: Meta, at: nat, given: seq<Answer>)
    requires Mirrors(ttl, entries, given)
    ensures Mirrors(ttl, Stored(ttl, entries, key, meta, at), given + [Answer(key, meta, at)])
  {
    var all := given + [Answer(key, meta, at)];
    assert all[..|all| - 1] == given;
    forall k | ttl > 0
      ensures HoldsLast(Stored(ttl, entries, key, meta, at), all, k)
    {
      assert HoldsLast(entries, given, k);
    }
  }

  lemma {:induction false} StoringMirrors(ttl: nat, entries: Entries, metas: seq<Meta>, language: string, at: nat,
                                          given: seq<Answer>)
    requires Mirrors(ttl, entries, given)
    ensures Mirrors(ttl, AllStored(ttl, entries, metas, language, at), given + FiledAs(metas, language, at))
  {
    hide Mirrors, Stored;
    var all := given + FiledAs(metas, language, at);
    if metas == [] {
      assert all == given;
    } else {
      var front, m := metas[..|metas| - 1], metas[|metas| - 1];
      StoringMirrors(ttl, entries, front, language, at, given);
      assert all == given + FiledAs(front, language, at) + [Answer(Key(m.name, language), m, at)];
      StoringOne(ttl, AllStored(ttl, entries, front, language, at), Key(m.name, language), m, at,
                 given + FiledAs(front, language, at));
    }
  }

  lemma GetFreshIsCurrent(ttl: nat, entries: Entries, given: seq<Answer>, key: Key, now: nat)
    requires Mirrors(ttl, entries, given)
    ensures GetFresh(ttl, entries, key, now) == Current(given, ttl, key, now)
  {
    if ttl > 0 {
      assert HoldsLast(entries, given, key);
    }
  }

  lemma {:induction false} KnownSnoc(given: seq<Answer>, ttl: nat, names: seq<string>, language: string, now: nat)
    requires names != []
    ensures var (front, m) := (names[..|names| - 1], Current(given, ttl, Key(names[|names| - 1], language), now));
      Known(given, ttl, names, language, now)
        == Known(given, ttl, front, language, now) + (if m.Some? then [m.value] else [])
  {
    hide Current;
    var m := Current(given, ttl, Key(names[|names| - 1], language), now);
    var last := if m.Some? then [m.value] else [];
    if |names| == 1 {
      assert Known(given, ttl, names[1..], language, now) == [];
      assert last + [] == [] + last;
    } else {
      KnownSnoc(given, ttl, names[1..], language, now);
      var front, mid := names[..|names| - 1], names[1..|names| - 1];
      assert names[1..][..|names| - 2] == mid && front[1..] == mid;
      var h := Current(given, ttl, Key(names[0], language), now);
      Strings.Assoc(if h.Some? then [h.value] else [], Known(given, ttl, mid, language, now), last);
    }
  }

  lemma {:induction false} UnknownSnoc(given: seq<Answer>, ttl: nat, names: seq<string>, language: string, now: nat)
    requires names != []
    ensures var (front, m) := (names[..|names| - 1], Current(given, ttl, Key(names[|names| - 1], language), now));
      Unknown(given, ttl, names, language, now)
        == Unknown(given, ttl, front, language, now) + (if m.Some? then [] else [names[|names| - 1]])
  {
    hide Current;
    var m := Current(given, ttl, Key(names[|names| - 1], language), now);
    var last := if m.Some? then [] else [names[|names| - 1]];
    if |names| == 1 {
      assert Unknown(given, ttl, names[1..], language, now) == [];
      assert last + [] == [] + last;
    } else {
      UnknownSnoc(given, ttl, names[1..], language, now);
      var front, mid := names[..|names| - 1], names[1..|names| - 1];
      assert names[1..][..|names| - 2] == mid && front[1..] == mid;
      var h := Current(given, ttl, Key(names[0], language), now);
      Strings.Assoc(if h.Some? then [] else [names[0]], Unknown(given, ttl, mid, language, now), last);
    }
  }

  lemma {:induction false} BulkSplit(ttl: nat, entries: Entries, given: seq<Answer>, names: seq<string>,
                                     language: string, now: nat)
    requires Mirrors(ttl, entries, given)
    ensures Found(ttl, entries, names, language, now) == Known(given, ttl, names, language, now)
    ensures ToFetch(ttl, entries, names, language, now) == Unknown(given, ttl, names, language, now)
  {
    hide GetFresh, Current, Mirrors;
    if names != [] {
      BulkSplit(ttl, entries, given, names[..|names| - 1], language, now);
      GetFreshIsCurrent(ttl, entries, given, Key(names[|names| - 1], language), now);
      KnownSnoc(given, ttl, names, language, now);
      UnknownSnoc(given, ttl, names, language, now);
    }
  }

  lemma StepMirrors(c: Cache, e: Event, given: seq<Answer>)
    requires Mirrors(c.ttl, c.entries, given)
    ensures Apply(c, e).ttl == c.ttl
    ensures Mirrors(c.ttl, Apply(c, e).entries, if e.InvalidateAll? then [] else given + Answers(given, c.ttl, e))
  {
    hide Found, ToFetch, AllStored, Mirrors, GetFresh, Stored, Current, Known, Unknown;
    assert given + [] == given;
    match e {
      case One(key, now, reply, at) =>
        GetFreshIsCurrent(c.ttl, c.entries, given, key, now);
        ZeroIsNone(given, key, now);
        if reply.Some? {
          StoringOne(c.ttl, c.entries, key, reply.value, at, given);
        }
      case Many(names, language, now, bulk, at) =>
        BulkSplit(c.ttl, c.entries, given, names, language, now);
        if bulk.Some? {
          StoringMirrors(c.ttl, c.entries, bulk.value.functions, language, at, given);
        }
      case InvalidateAll =>
        NothingMirrors(c.ttl);
    }
  }

  lemma ZeroIsNone(given: seq<Answer>, key: Key, now: nat)
    ensures Current(given, 0, key, now).None?
  {
  }

  lemma NothingMirrors(ttl: nat)
    ensures Mirrors(ttl, map[], [])
  {
  }

  /** In every run the map holds exactly the last answer for each key since the last `InvalidateAll`. */
  lemma {:induction false} EntriesAreLastAnswers(ttl: nat, events: seq<Event>)
    ensures Run(ttl, events).ttl == ttl && Mirrors(ttl, Run(ttl, events).entries, Since(ttl, events))
  {
    hide Mirrors, Apply, Answers;
    if events == [] {
      NothingMirrors(ttl);
    } else {
      EntriesAreLastAnswers(ttl, events[..|events| - 1]);
      StepMirrors(Run(ttl, events[..|events| - 1]), events[|events| - 1], Since(ttl, events[..|events| - 1]));
    }
  }

  // ---------------------------------------------------------------------------------------
  // What is served
  // ---------------------------------------------------------------------------------------

  /** In any run a lookup is served from the last answer for its key exactly if that is no older than
      the TTL, whatever the inner client would say, and that is a hit; otherwise it is a miss and
      returns what the inner client says. */
  lemma LookupIsExact(ttl: nat, events: seq<Event>, key: Key, now: nat, reply: Option<Meta>, at: nat)
    ensures var (c, last) := (Run(ttl, events), LastAnswer(Since(ttl, events), key));
      var (c', r) := AskOne(c, key, now, reply, at);
      if ttl > 0 && last.Some? && now <= last.value.at + ttl then
        r == Some(last.value.meta) && c' == c.(hits := c.hits + 1)
      else
        r == reply && c'.hits == c.hits && c'.misses == c.misses + 1
  {
    hide Mirrors, Run, Since;
    EntriesAreLastAnswers(ttl, events);
    GetFreshIsCurrent(ttl, Run(ttl, events).entries, Since(ttl, events), key, now);
  }

  /** In any run a bulk call finds exactly the requested names whose last answer is no older than the
      TTL, as hits, and asks for exactly the others, as misses. */
  lemma BulkIsExact(ttl: nat, events: seq<Event>, names: seq<string>, language: string, now: nat,
                    bulk: Option<Bulk>, at: nat)
    ensures var (c, given) := (Run(ttl, events), Since(ttl, events));
      var (c', r) := AskMany(c, names, language, now, bulk, at);
      var (known, unknown) := (Known(given, ttl, names, language, now), Unknown(given, ttl, names, language, now));
      && ToFetch(c.ttl, c.entries, names, language, now) == unknown
      && c'.hits == c.hits + |known| && c'.misses == c.misses + |unknown|
      && (unknown == [] ==> r == Some(Bulk(known, [])))
      && (unknown != [] && bulk.None? ==> r == None && c'.entries == c.entries)
      && (unknown != [] && bulk.Some? ==> r == Some(Bulk(known + bulk.value.functions, bulk.value.missing)))
  {
    hide Mirrors, Run, Since, Found, ToFetch, Known, Unknown, AllStored;
    EntriesAreLastAnswers(ttl, events);
    BulkSplit(ttl, Run(ttl, events).entries, Since(ttl, events), names, language, now);
  }

  /** An `InvalidateAll` forgets every answer, and counts the keys that had one as evicted. */
  lemma InvalidationIsExact(ttl: nat, events: seq<Event>)
    ensures var (c, c') := (Run(ttl, events), Run(ttl, events + [InvalidateAll]));
      && c'.entries == map[] && Since(ttl, events + [InvalidateAll]) == []
      && (ttl > 0 ==> c'.evictions == c.evictions + |set a <- Since(ttl, events) :: a.key|)
      && (ttl == 0 ==> c'.evictions == c.evictions)
  {
    EntriesAreLastAnswers(ttl, events);
    assert (events + [InvalidateAll])[..|events|] == events;
    var entries, given := Run(ttl, events).entries, Since(ttl, events);
    if ttl > 0 {
      KeysAreGiven(ttl, entries, given);
    }
  }

  lemma KeysAreGiven(ttl: nat, entries: Entries, given: seq<Answer>)
    requires ttl > 0 && Mirrors(ttl, entries, given)
    ensures |entries| == |set a <- given :: a.key|
  {
    forall k
      ensures k in entries <==> exists a :: a in given && a.key == k
    {
      assert HoldsLast(entries, given, k);
    }
    assert entries.Keys == set a <- given :: a.key;
  }

  /** An answer given for the key since the last `InvalidateAll`, no earlier than the TTL ago. */
  ghost predicate Recent(given: seq<Answer>, ttl: nat, key: Key, meta: Meta, now: nat) {
    exists a :: a in given && a.key == key && a.meta == meta && now <= a.at + ttl
  }

  lemma CurrentIsRecent(given: seq<Answer>, ttl: nat, key: Key, now: nat)
    ensures var m := Current(given, ttl, key, now); m.Some? ==> Recent(given, ttl, key, m.value, now)
  {
    var last := LastAnswer(given, key);
    if last.Some? {
      var i :| IsLast(given, i, last.value, key);
      assert last.value in given;
    }
  }

  /** In any run, whatever a lookup returns the inner client said, recently enough. */
  lemma LookupIsRecent(ttl: nat, events: seq<Event>, key: Key, now: nat, reply: Option<Meta>, at: nat)
    requires now <= at
    ensures var r := AskOne(Run(ttl, events), key, now, reply, at).1;
      r.Some? ==> Recent(Since(ttl, events + [One(key, now, reply, at)]), ttl, key, r.value, now)
  {
    hide Run, LastAnswer, AskOne;
    var e, given := One(key, now, reply, at), Since(ttl, events);
    LookupIsExact(ttl, events, key, now, reply, at);
    assert (events + [e])[..|events|] == events;
    assert Since(ttl, events + [e]) == given + Answers(given, ttl, e);
    CurrentIsRecent(given, ttl, key, now);
    var r := AskOne(Run(ttl, events), key, now, reply, at).1;
    if r.Some? && Current(given, ttl, key, now).None? {
      assert Answer(key, r.value, at) in Answers(given, ttl, e);
    }
  }

  /** The same for one of the requested names. */
  ghost predicate RecentAmong(given: seq<Answer>, ttl: nat, names: seq<string>, language: string, meta: Meta,
                              now: nat) {
    exists f :: f in names && Recent(given, ttl, Key(f, language), meta, now)
  }

  /** Everything a bulk call finds was said by the inner client recently enough for a requested name,
      or is in the answer of this very call. */
  lemma BulkIsRecent(ttl: nat, events: seq<Event>, names: seq<string>, language: string, now: nat,
                     bulk: Option<Bulk>, at: nat)
    ensures var (r, given) := (AskMany(Run(ttl, events), names, language, now, bulk, at).1, Since(ttl, events));
      r.Some? ==> forall m :: m in r.value.functions ==>
        RecentAmong(given, ttl, names, language, m, now)
        || (Unknown(given, ttl, names, language, now) != [] && bulk.Some? && m in bulk.value.functions)
  {
    hide RecentAmong, Run, Since, AskMany, Known, Unknown;
    BulkIsExact(ttl, events, names, language, now, bulk, at);
    KnownIsRecent(Since(ttl, events), ttl, names, language, now);
  }

  lemma {:induction false} KnownIsRecent(given: seq<Answer>, ttl: nat, names: seq<string>, language: string, now: nat)
    ensures forall m :: m in Known(given, ttl, names, language, now) ==> RecentAmong(given, ttl, names, language, m, now)
  {
    hide Recent, Current;
    if names != [] {
      KnownIsRecent(given, ttl, names[1..], language, now);
      CurrentIsRecent(given, ttl, Key(names[0], language), now);
      forall m | RecentAmong(given, ttl, names[1..], language, m, now)
        ensures RecentAmong(given, ttl, names, language, m, now)
      {
      }
    }
  }

  // ---------------------------------------------------------------------------------------
  // Counting
  // ---------------------------------------------------------------------------------------

  /** How many keys the run asked for. */
  function Asked(events: seq<Event>): nat {
    if events == [] then 0 else
      Asked(events[..|events| - 1]) +
      match events[|events| - 1]
      case One(_, _, _, _) => 1
      case Many(names, _, _, _, _) => |names|
      case InvalidateAll => 0
  }

  lemma {:induction false} EveryNameCounted(ttl: nat, entries: Entries, names: seq<string>, language: string, now: nat)
    ensures |Found(ttl, entries, names, language, now)| + |ToFetch(ttl, entries, names, language, now)| == |names|
  {
    if names != [] {
      EveryNameCounted(ttl, entries, names[..|names| - 1], language, now);
    }
  }

  /** Hits plus misses is the number of keys asked for. */
  lemma {:induction false} HitsPlusMisses(ttl: nat, events: seq<Event>)
    ensures Run(ttl, events).hits + Run(ttl, events).misses == Asked(events)
  {
    hide Found, ToFetch, GetFresh, AllStored, Stored;
    if events != [] {
      HitsPlusMisses(ttl, events[..|events| - 1]);
      var c, e := Run(ttl, events[..|events| - 1]), events[|events| - 1];
      if e.Many? {
        EveryNameCounted(c.ttl, c.entries, e.names, e.language, e.now);
      }
    }
  }

  lemma {:induction false} NothingStored(entries: Entries, metas: seq<Meta>, language: string, at: nat)
    ensures AllStored(0, entries, metas, language, at) == entries
  {
    if metas != [] {
      NothingStored(entries, metas[..|metas| - 1], language, at);
    }
  }

  lemma {:induction false} NothingFound(names: seq<string>, language: string, now: nat)
    ensures Found(0, map[], names, language, now) == [] && ToFetch(0, map[], names, language, now) == names
  {
    if names != [] {
      NothingFound(names[..|names| - 1], language, now);
    }
  }

  /** With a TTL of zero the map stays empty and nothing is ever a hit. */
  lemma {:induction false} ZeroTtlNeverHits(events: seq<Event>)
    ensures Run(0, events).entries == map[] && Run(0, events).hits == 0 && Run(0, events).ttl == 0
  {
    hide Found, ToFetch, AllStored;
    if events != [] {
      ZeroTtlNeverHits(events[..|events| - 1]);
      var e := events[|events| - 1];
      if e.Many? {
        NothingFound(e.names, e.language, e.now);
        if e.bulk.Some? {
          NothingStored(map[], e.bulk.value.functions, e.language, e.at);
        }
      }
    }
  }

  // ---------------------------------------------------------------------------------------
  // A bulk call conserves names
  // ---------------------------------------------------------------------------------------

  function Names(metas: seq<Meta>): seq<string> {
    seq(|metas|, i requires 0 <= i < |metas| => metas[i].name)
  }

  /** Every cached description is of the function it is filed under. */
  ghost predicate ProperlyFiled(entries: Entries) {
    forall k :: k in entries ==> entries[k].meta.name == k.name
  }

  /** The inner client describes what it was asked for, and a bulk answer accounts for every name. */
  ghost predicate Honest(c: Cache, e: Event) {
    match e
    case One(key, _, reply, _) => reply.Some? ==> reply.value.name == key.name
    case Many(names, language, now, bulk, _) =>
      bulk.Some? ==> multiset(Names(bulk.value.functions)) + multiset(bulk.value.missing)
                     == multiset(ToFetch(c.ttl, c.entries, names, language, now))
    case InvalidateAll => true
  }

  ghost predicate HonestRun(ttl: nat, events: seq<Event>) {
    events == [] ||
    (HonestRun(ttl, events[..|events| - 1]) && Honest(Run(ttl, events[..|events| - 1]), events[|events| - 1]))
  }

  lemma {:induction false} StoringIsProper(ttl: nat, entries: Entries, metas: seq<Meta>, language: string, at: nat)
    requires ProperlyFiled(entries)
    ensures ProperlyFiled(AllStored(ttl, entries, metas, language, at))
  {
    if metas != [] {
      StoringIsProper(ttl, entries, metas[..|metas| - 1], language, at);
    }
  }

  lemma {:induction false} HonestRunIsProper(ttl: nat, events: seq<Event>)
    requires HonestRun(ttl, events)
    ensures ProperlyFiled(Run(ttl, events).entries)
  {
    hide Found, ToFetch, AllStored;
    if events != [] {
      HonestRunIsProper(ttl, events[..|events| - 1]);
      var c, e := Run(ttl, events[..|events| - 1]), events[|events| - 1];
      if e.Many? && e.bulk.Some? {
        StoringIsProper(c.ttl, c.entries, e.bulk.value.functions, e.language, e.at);
      }
    }
  }

  ghost predicate Accounts(found: seq<Meta>, missing: seq<string>, names: seq<string>) {
    multiset(Names(found)) + multiset(missing) == multiset(names)
  }

  lemma OneFound(found: seq<Meta>, missing: seq<string>, names: seq<string>, m: Meta)
    requires Accounts(found, missing, names)
    ensures Accounts(found + [m], missing + [], names + [m.name])
  {
    assert Names(found + [m]) == Names(found) + [m.name] && missing + [] == missing;
  }

  lemma OneMissing(found: seq<Meta>, missing: seq<string>, names: seq<string>, name: string)
    requires Accounts(found, missing, names)
    ensures Accounts(found + [], missing + [name], names + [name])
  {
    assert found + [] == found;
  }

  lemma {:induction false} FoundPlusToFetch(ttl: nat, entries: Entries, names: seq<string>, language: string, now: nat)
    requires ProperlyFiled(entries)
    ensures Accounts(Found(ttl, entries, names, language, now), ToFetch(ttl, entries, names, language, now), names)
  {
    if names != [] {
      hide Accounts;
      var front, name := names[..|names| - 1], names[|names| - 1];
      FoundPlusToFetch(ttl, entries, front, language, now);
      var found, missing := Found(ttl, entries, front, language, now), ToFetch(ttl, entries, front, language, now);
      assert names == front + [name];
      var r := GetFresh(ttl, entries, Key(name, language), now);
      if r.Some? {
        OneFound(found, missing, front, r.value);
      } else {
        OneMissing(found, missing, front, name);
      }
    }
  }

  /** A bulk call that succeeds accounts for every requested name, once per request, either among
      the found functions or among the missing names. */
  lemma BulkConservesNames(ttl: nat, events: seq<Event>, names: seq<string>, language: string, now: nat,
                           bulk: Option<Bulk>, at: nat)
    requires HonestRun(ttl, events) && Honest(Run(ttl, events), Many(names, language, now, bulk, at))
    ensures var r := AskMany(Run(ttl, events), names, language, now, bulk, at).1;
      r.Some? ==> multiset(Names(r.value.functions)) + multiset(r.value.missing) == multiset(names)
  {
    hide Run, Found, ToFetch, AllStored;
    var c := Run(ttl, events);
    HonestRunIsProper(ttl, events);
    FoundPlusToFetch(c.ttl, c.entries, names, language, now);
    var hits := Found(c.ttl, c.entries, names, language, now);
    if bulk.Some? {
      assert Names(hits + bulk.value.functions) == Names(hits) + Names(bulk.value.functions);
    }
  }
}
