/** Series keys: a metric name with its label set, rendered as one string. */
module SeriesKeys {
  import opened Strings

  type Label = (string, string)

  // --- string order ----------------------------------------------------------------------

  /** Lexicographic order, as `str` compares. */
  predicate LessEq(a: string, b: string) {
    a == [] || (b != [] && (a[0] < b[0] || (a[0] == b[0] && LessEq(a[1..], b[1..]))))
  }

  lemma {:induction false} Total(a: string, b: string)
    ensures LessEq(a, b) || LessEq(b, a)
  {
    if a != [] && b != [] && a[0] == b[0] {
      Total(a[1..], b[1..]);
    }
  }

  lemma {:induction false} Antisymmetric(a: string, b: string)
    requires LessEq(a, b) && LessEq(b, a)
    ensures a == b
  {
    if a != [] {
      Antisymmetric(a[1..], b[1..]);
      assert a == [a[0]] + a[1..] && b == [b[0]] + b[1..];
    }
  }

  lemma {:induction false} Transitive(a: string, b: string, c: string)
    requires LessEq(a, b) && LessEq(b, c)
    ensures LessEq(a, c)
  {
    if a != [] && a[0] == b[0] == c[0] {
      Transitive(a[1..], b[1..], c[1..]);
    }
  }

  // --- sorting by key --------------------------------------------------------------------

  ghost predicate Ordered(s: seq<Label>) {
    forall i, j :: 0 <= i < j < |s| ==> LessEq(s[i].0, s[j].0)
  }

  function Insert(s: seq<Label>, x: Label): seq<Label> {
    if s != [] && !LessEq(s[|s| - 1].0, x.0) then Insert(s[..|s| - 1], x) + [s[|s| - 1]] else s + [x]
  }

  /** A stable sort by key. */
  function SortByKey(s: seq<Label>): seq<Label> {
    if s == [] then [] else Insert(SortByKey(s[..|s| - 1]), s[|s| - 1])
  }

  lemma {:induction false} InsertKeeps(s: seq<Label>, x: Label)
    ensures multiset(Insert(s, x)) == multiset(s) + multiset{x}
  {
    if s != [] && !LessEq(s[|s| - 1].0, x.0) {
      InsertKeeps(s[..|s| - 1], x);
      assert s == s[..|s| - 1] + [s[|s| - 1]];
    }
  }

  lemma {:induction false} InsertOrders(s: seq<Label>, x: Label)
    requires Ordered(s)
    ensures Ordered(Insert(s, x))
  {
    hide LessEq;
    if s != [] && !LessEq(s[|s| - 1].0, x.0) {
      var front, last := s[..|s| - 1], s[|s| - 1];
      InsertOrders(front, x);
      InsertKeeps(front, x);
      Total(x.0, last.0);
      forall i | 0 <= i < |Insert(front, x)|
        ensures LessEq(Insert(front, x)[i].0, last.0)
      {
        assert Insert(front, x)[i] in multiset(front) + multiset{x};
      }
    } else if s != [] {
      forall i | 0 <= i < |s|
        ensures LessEq(s[i].0, x.0)
      {
        if i < |s| - 1 {
          Transitive(s[i].0, s[|s| - 1].0, x.0);
        }
      }
    }
  }

  lemma NothingOrdered()
    ensures Ordered([])
  {
  }

  lemma {:induction false} SortSorts(s: seq<Label>)
    ensures Ordered(SortByKey(s)) && multiset(SortByKey(s)) == multiset(s)
  {
    hide LessEq, Insert, Ordered;
    if s == [] {
      NothingOrdered();
    } else {
      SortSorts(s[..|s| - 1]);
      InsertOrders(SortByKey(s[..|s| - 1]), s[|s| - 1]);
      InsertKeeps(SortByKey(s[..|s| - 1]), s[|s| - 1]);
      assert s == s[..|s| - 1] + [s[|s| - 1]];
    }
  }

  /** No key occurs twice. */
  ghost predicate DistinctKeys(m: multiset<Label>) {
    (forall x :: m[x] <= 1) && forall x, y :: x in m && y in m && x.0 == y.0 ==> x == y
  }

  /** There is one ordered list of a set of labels with distinct keys. */
  lemma {:induction false} OrderedUnique(a: seq<Label>, b: seq<Label>)
    requires Ordered(a) && Ordered(b) && multiset(a) == multiset(b) && DistinctKeys(multiset(a))
    ensures a == b
    decreases |a|
  {
    hide LessEq, Ordered, DistinctKeys;
    assert |a| == |multiset(a)| == |multiset(b)| == |b|;
    if a != [] {
      SameLast(a, b);
      FrontMultiset(a);
      FrontMultiset(b);
      FrontOrdered(a);
      FrontOrdered(b);
      FrontDistinct(a);
      OrderedUnique(a[..|a| - 1], b[..|b| - 1]);
    }
  }

  lemma FrontOrdered(a: seq<Label>)
    requires Ordered(a) && a != []
    ensures Ordered(a[..|a| - 1])
  {
    hide LessEq;
  }

  lemma FrontDistinct(a: seq<Label>)
    requires DistinctKeys(multiset(a)) && a != []
    ensures DistinctKeys(multiset(a[..|a| - 1]))
  {
    FrontMultiset(a);
  }

  lemma SameLast(a: seq<Label>, b: seq<Label>)
    requires Ordered(a) && Ordered(b) && multiset(a) == multiset(b) && DistinctKeys(multiset(a))
    requires a != [] && b != []
    ensures a[|a| - 1] == b[|b| - 1]
  {
    hide LessEq;
    var x, y := a[|a| - 1], b[|b| - 1];
    assert x in multiset(b) && y in multiset(a);
    LastIsLargest(a, y);
    LastIsLargest(b, x);
    Antisymmetric(x.0, y.0);
  }

  lemma FrontMultiset(a: seq<Label>)
    requires a != []
    ensures a == a[..|a| - 1] + [a[|a| - 1]]
    ensures multiset(a[..|a| - 1]) == multiset(a) - multiset{a[|a| - 1]}
  {
    assert a == a[..|a| - 1] + [a[|a| - 1]];
  }

  lemma LastIsLargest(s: seq<Label>, x: Label)
    requires Ordered(s) && x in s
    ensures LessEq(x.0, s[|s| - 1].0)
  {
    var i :| 0 <= i < |s| && s[i] == x;
    if i == |s| - 1 {
      Total(x.0, x.0);
    }
  }

  // --- escaping --------------------------------------------------------------------------

  /** `str::replace` with a one-character pattern. */
  function Replace(s: string, c: char, with: string): string {
    if s == [] then [] else (if s[0] == c then with else [s[0]]) + Replace(s[1..], c, with)
  }

  function Escape(s: string): string {
    Replace(Replace(Replace(s, '\\', "\\\\"), '"', "\\\""), '\n', "\\n")
  }

  function EscapeChar(c: char): (r: string)
    ensures |r| > 0
  {
    if c == '\\' then "\\\\" else if c == '"' then "\\\"" else if c == '\n' then "\\n" else [c]
  }

  function EscapeAll(s: string): string {
    if s == [] then [] else EscapeChar(s[0]) + EscapeAll(s[1..])
  }

  lemma {:induction false} ReplaceJoins(s: string, t: string, c: char, with: string)
    ensures Replace(s + t, c, with) == Replace(s, c, with) + Replace(t, c, with)
  {
    if s == [] {
      assert s + t == t;
    } else {
      ReplaceJoins(s[1..], t, c, with);
      assert (s + t)[1..] == s[1..] + t;
      Assoc(if s[0] == c then with else [s[0]], Replace(s[1..], c, with), Replace(t, c, with));
    }
  }

  /** The three replacements, one after the other, escape each character once. */
  lemma {:induction false} EscapeIsPerCharacter(s: string)
    ensures Escape(s) == EscapeAll(s)
  {
    if s != [] {
      EscapeIsPerCharacter(s[1..]);
      assert s == [s[0]] + s[1..];
      ReplaceJoins([s[0]], s[1..], '\\', "\\\\");
      var a, a' := Replace([s[0]], '\\', "\\\\"), Replace(s[1..], '\\', "\\\\");
      ReplaceJoins(a, a', '"', "\\\"");
      var b, b' := Replace(a, '"', "\\\""), Replace(a', '"', "\\\"");
      ReplaceJoins(b, b', '\n', "\\n");
      OneCharacter(s[0]);
    }
  }

  lemma ReplaceOne(x: char, c: char, with: string)
    ensures Replace([x], c, with) == if x == c then with else [x]
  {
    assert [x][1..] == [] && with + [] == with;
  }

  lemma OneCharacter(c: char)
    ensures Replace(Replace(Replace([c], '\\', "\\\\"), '"', "\\\""), '\n', "\\n") == EscapeChar(c)
  {
    hide Replace;
    ReplaceOne(c, '\\', "\\\\");
    if c == '\\' {
      assert "\\\\" == ['\\'] + ['\\'];
      ReplaceJoins(['\\'], ['\\'], '"', "\\\"");
      ReplaceJoins(['\\'], ['\\'], '\n', "\\n");
      ReplaceOne('\\', '"', "\\\"");
      ReplaceOne('\\', '\n', "\\n");
    } else if c == '"' {
      assert "\\\"" == ['\\'] + ['"'];
      ReplaceOne('"', '"', "\\\"");
      ReplaceJoins(['\\'], ['"'], '\n', "\\n");
      ReplaceOne('\\', '\n', "\\n");
      ReplaceOne('"', '\n', "\\n");
    } else {
      ReplaceOne(c, '"', "\\\"");
      ReplaceOne(c, '\n', "\\n");
    }
  }

  /** An escaped value ends at the first quote that is not escaped. */
  lemma {:induction false} EscapedEnds(v: string, t: string, v': string, t': string)
    requires EscapeAll(v) + ['"'] + t == EscapeAll(v') + ['"'] + t'
    ensures v == v' && t == t'
    decreases |v| + |v'|
  {
    hide EscapeChar;
    var q, q' := ['"'] + t, ['"'] + t';
    Assoc(EscapeAll(v), ['"'], t);
    Assoc(EscapeAll(v'), ['"'], t');
    if v == [] && v' == [] {
      assert [] + q == q && [] + q' == q';
      assert q[1..] == t && q'[1..] == t';
    } else if v == [] {
      Assoc(EscapeChar(v'[0]), EscapeAll(v'[1..]), q');
      assert [] + q == q;
      NotQuote(v'[0], EscapeAll(v'[1..]) + q');
      assert false;
    } else if v' == [] {
      Assoc(EscapeChar(v[0]), EscapeAll(v[1..]), q);
      assert [] + q' == q';
      NotQuote(v[0], EscapeAll(v[1..]) + q);
      assert false;
    } else {
      Assoc(EscapeChar(v[0]), EscapeAll(v[1..]), q);
      Assoc(EscapeChar(v'[0]), EscapeAll(v'[1..]), q');
      SameEscape(v[0], EscapeAll(v[1..]) + q, v'[0], EscapeAll(v'[1..]) + q');
      Assoc(EscapeAll(v[1..]), ['"'], t);
      Assoc(EscapeAll(v'[1..]), ['"'], t');
      EscapedEnds(v[1..], t, v'[1..], t');
      assert v == [v[0]] + v[1..] && v' == [v'[0]] + v'[1..];
    }
  }

  lemma NotQuote(c: char, t: string)
    ensures (EscapeChar(c) + t)[0] != '"'
  {
  }

  lemma SameEscape(c: char, t: string, c': char, t': string)
    requires EscapeChar(c) + t == EscapeChar(c') + t'
    ensures c == c' && t == t'
  {
    var s, s' := EscapeChar(c) + t, EscapeChar(c') + t';
    assert s[0] == EscapeChar(c)[0] && s'[0] == EscapeChar(c')[0];
    if s[0] == '\\' {
      assert s[1] == EscapeChar(c)[1] && s'[1] == EscapeChar(c')[1];
    }
    DropFront(EscapeChar(c), t);
    DropFront(EscapeChar(c'), t');
  }

  // --- the key ---------------------------------------------------------------------------

  function Part(x: Label): string {
    x.0 + ['='] + (['"'] + Escape(x.1) + ['"'])
  }

  /** `parts.join(",")`. */
  function Join(s: seq<Label>): string
    decreases |s|, 0
  {
    if s == [] then [] else Part(s[0]) + Tail(s[1..])
  }

  function Tail(s: seq<Label>): string
    decreases |s|, 1
  {
    if s == [] then [] else [','] + Join(s)
  }

  function SeriesKey(name: string, labels: seq<Label>): string {
    if labels == [] then name else name + ['{'] + (Join(SortByKey(labels)) + ['}'])
  }

  /** Labels in any order give the same key. */
  lemma KeyIgnoresOrder(name: string, a: seq<Label>, b: seq<Label>)
    requires multiset(a) == multiset(b) && DistinctKeys(multiset(a))
    ensures SeriesKey(name, a) == SeriesKey(name, b)
  {
    assert |a| == |multiset(a)| == |multiset(b)| == |b|;
    SortSorts(a);
    SortSorts(b);
    OrderedUnique(SortByKey(a), SortByKey(b));
  }

  /** No delimiter in the name, none in the keys. Values are unrestricted. */
  ghost predicate Plain(name: string, labels: seq<Label>) {
    '{' !in name && forall x :: x in labels ==> '=' !in x.0
  }

  lemma PartUnique(x: Label, t: string, y: Label, u: string)
    requires '=' !in x.0 && '=' !in y.0 && Part(x) + t == Part(y) + u
    ensures x == y && t == u
  {
    hide Escape;
    var p, q := ['"'] + Escape(x.1) + ['"'], ['"'] + Escape(y.1) + ['"'];
    Assoc(x.0 + ['='], p, t);
    Assoc(y.0 + ['='], q, u);
    UniqueSplit('=', x.0, p + t, y.0, q + u);
    assert p + t == ['"'] + (Escape(x.1) + ['"'] + t);
    assert q + u == ['"'] + (Escape(y.1) + ['"'] + u);
    DropFront(['"'], Escape(x.1) + ['"'] + t);
    DropFront(['"'], Escape(y.1) + ['"'] + u);
    EscapeIsPerCharacter(x.1);
    EscapeIsPerCharacter(y.1);
    EscapedEnds(x.1, t, y.1, u);
  }

  lemma PartNotEmpty(x: Label)
    ensures |Part(x)| > 0
  {
  }

  lemma {:induction false} JoinUnique(a: seq<Label>, b: seq<Label>)
    requires (forall x :: x in a ==> '=' !in x.0) && forall x :: x in b ==> '=' !in x.0
    requires Join(a) == Join(b)
    ensures a == b
    decreases |a|
  {
    hide Part;
    if a != [] && b != [] {
      PartUnique(a[0], Tail(a[1..]), b[0], Tail(b[1..]));
      if a[1..] != [] && b[1..] != [] {
        DropFront([','], Join(a[1..]));
        DropFront([','], Join(b[1..]));
        JoinUnique(a[1..], b[1..]);
      }
      assert a == [a[0]] + a[1..] && b == [b[0]] + b[1..];
    } else if a != [] {
      PartNotEmpty(a[0]);
    } else if b != [] {
      PartNotEmpty(b[0]);
    }
  }

  /** A key determines the name and the label set. */
  lemma KeyInjective(m: string, a: seq<Label>, n: string, b: seq<Label>)
    requires Plain(m, a) && Plain(n, b) && SeriesKey(m, a) == SeriesKey(n, b)
    ensures m == n && multiset(a) == multiset(b)
  {
    hide Join, SortByKey;
    if a != [] && b != [] {
      var p, q := Join(SortByKey(a)), Join(SortByKey(b));
      UniqueSplit('{', m, p + ['}'], n, q + ['}']);
      assert (p + ['}'])[..|p|] == p && (q + ['}'])[..|q|] == q;
      SortSorts(a);
      SortSorts(b);
      forall x | x in SortByKey(a) || x in SortByKey(b)
        ensures '=' !in x.0
      {
        assert x in multiset(a) || x in multiset(b);
      }
      JoinUnique(SortByKey(a), SortByKey(b));
    } else if a != [] {
      HasBrace(m, Join(SortByKey(a)) + ['}']);
    } else if b != [] {
      HasBrace(n, Join(SortByKey(b)) + ['}']);
    }
  }

  lemma HasBrace(name: string, t: string)
    ensures '{' in name + ['{'] + t
  {
    assert (name + ['{'] + t)[|name|] == '{';
  }
}

/** The registry: counters, gauges and cumulative histograms. Values are reals. */
module Metrics {
  import opened Wrappers
  import opened SeriesKeys

  datatype Kind = Counter | Histogram | Gauge

  datatype MetricState = MetricState(kind: Kind, scalar: real, bounds: seq<real>, counts: seq<nat>, sum: real,
                                     count: nat)

  /** One call on the registry. */
  datatype Op =
    | Add(name: string, labels: seq<Label>, value: real)
    | Set(name: string, labels: seq<Label>, value: real)
    | Observe(name: string, labels: seq<Label>, value: real)

  const DEFAULT_BUCKETS: seq<real> :=
    [0.0005, 0.001, 0.005, 0.010, 0.025, 0.050, 0.080, 0.100, 0.250, 0.500, 1.0, 5.0, 30.0]

  /** The first bound that is not below the value; the number of bounds if all are. */
  function FirstBound(bounds: seq<real>, v: real): (i: nat)
    ensures i <= |bounds|
    ensures i < |bounds| ==> v <= bounds[i]
    ensures forall j :: 0 <= j < i ==> bounds[j] < v
  {
    if bounds == [] then 0
    else
      var i := FirstBound(bounds[..|bounds| - 1], v);
      if i < |bounds| - 1 || v <= bounds[|bounds| - 1] then i else |bounds|
  }

  function Bumped(counts: seq<nat>, first: nat): (r: seq<nat>)
    ensures |r| == |counts|
  {
    seq(|counts|, j requires 0 <= j < |counts| => if first <= j then counts[j] + 1 else counts[j])
  }

  /** The state a series starts with, by its first call. */
  function Initial(op: Op): MetricState {
    match op
    case Add(_, _, _) => MetricState(Counter, 0.0, [], [], 0.0, 0)
    case Set(_, _, _) => MetricState(Gauge, 0.0, [], [], 0.0, 0)
    case Observe(_, _, _) =>
      MetricState(Histogram, 0.0, DEFAULT_BUCKETS, seq(|DEFAULT_BUCKETS| + 1, _ => 0), 0.0, 0)
  }

  function Updated(m: MetricState, op: Op): MetricState {
    match op
    case Add(_, _, v) => m.(scalar := m.scalar + v)
    case Set(_, _, v) => m.(scalar := v)
    case Observe(_, _, v) =>
      m.(sum := m.sum + v, count := m.count + 1, counts := Bumped(m.counts, FirstBound(m.bounds, v)))
  }

  type Series = map<string, MetricState>

  function Key(op: Op): string {
    SeriesKey(op.name, op.labels)
  }

  function Get(series: Series, key: string): Option<MetricState> {
    if key in series then Some(series[key]) else None
  }

  function Next(m: Option<MetricState>, op: Op): MetricState {
    Updated(if m.Some? then m.value else Initial(op), op)
  }

  /** The series after a list of calls. */
  function Replay(log: seq<Op>): Series {
    if log == [] then map[] else
      var series, op := Replay(log[..|log| - 1]), log[|log| - 1];
      series[Key(op) := Next(Get(series, Key(op)), op)]
  }

  /** An observation on a series that began as a counter or gauge has no bucket to count in. */
  predicate HasBuckets(m: MetricState) {
    m.counts != []
  }

  ghost predicate Shaped(m: MetricState) {
    |m.counts| == |m.bounds| + 1 || (m.counts == [] && m.bounds == [])
  }

  lemma {:induction false} SeriesShaped(log: seq<Op>)
    ensures forall key :: key in Replay(log) ==> Shaped(Replay(log)[key])
  {
    hide SeriesKey, FirstBound;
    if log != [] {
      SeriesShaped(log[..|log| - 1]);
    }
  }

  class MetricsRegistry {
    var series: Series
    var names: map<string, (Kind, string)>
    /** A call that panics while it holds the write lock poisons it: every later call panics too. */
    var poisoned: bool
    /** The calls that returned. */
    ghost var log: seq<Op>

    ghost predicate Valid()
      reads this
    {
      !poisoned ==> series == Replay(log)
    }

    constructor ()
      ensures Valid() && log == [] && names == map[] && !poisoned
    {
      series, names, log, poisoned := map[], map[], [], false;
    }

    /** Registering a name twice keeps the first kind and help. */
    method Register(name: string, kind: Kind, help: string)
      modifies this`names
      ensures names == if name in old(names) then old(names) else old(names)[name := (kind, help)]
    {
      if name !in names {
        names := names[name := (kind, help)];
      }
    }

    method AddCounter(name: string, labels: seq<Label>, value: real) returns (ok: bool)
      requires Valid()
      modifies this`series, this`log
      ensures Valid() && ok == !poisoned && (!ok ==> series == old(series))
      ensures log == if ok then old(log) + [Add(name, labels, value)] else old(log)
    {
      hide SeriesKey, Replay;
      if poisoned {
        return false;
      }
      var key := SeriesKey(name, labels);
      var entry := if key in series then series[key] else MetricState(Counter, 0.0, [], [], 0.0, 0);
      series := series[key := entry.(scalar := entry.scalar + value)];
      Logged(log, Add(name, labels, value));
      log := log + [Add(name, labels, value)];
      return true;
    }

    method SetGauge(name: string, labels: seq<Label>, value: real) returns (ok: bool)
      requires Valid()
      modifies this`series, this`log
      ensures Valid() && ok == !poisoned && (!ok ==> series == old(series))
      ensures log == if ok then old(log) + [Set(name, labels, value)] else old(log)
    {
      hide SeriesKey, Replay;
      if poisoned {
        return false;
      }
      var key := SeriesKey(name, labels);
      var entry := if key in series then series[key] else MetricState(Gauge, 0.0, [], [], 0.0, 0);
      series := series[key := entry.(scalar := value)];
      Logged(log, Set(name, labels, value));
      log := log + [Set(name, labels, value)];
      return true;
    }

    method ObserveHistogram(name: string, labels: seq<Label>, value: real) returns (ok: bool)
      requires Valid()
      modifies this`series, this`log, this`poisoned
      ensures Valid() && poisoned == !ok
      ensures ok <==> !old(poisoned) && !ObservePanics(old(log), name, labels)
      ensures log == if ok then old(log) + [Observe(name, labels, value)] else old(log)
    {
      hide FirstBound, Replay, SeriesKey, Bumped;
      if poisoned {
        return false;
      }
      SeriesShaped(log);
      var key := SeriesKey(name, labels);
      var entry := if key in series then series[key] else
        MetricState(Histogram, 0.0, DEFAULT_BUCKETS, seq(|DEFAULT_BUCKETS| + 1, _ => 0), 0.0, 0);
      assert Shaped(entry);
      entry := entry.(sum := entry.sum + value, count := entry.count + 1);
      series := series[key := entry];
      var counts;
      ok, counts := Place(entry.bounds, entry.counts, value);
      if !ok {
        poisoned := true;
        return;
      }
      series := series[key := entry.(counts := counts)];
      Logged(log, Observe(name, labels, value));
      log := log + [Observe(name, labels, value)];
    }
  }

  /** The series exists and has no bucket. */
  predicate ObservePanics(log: seq<Op>, name: string, labels: seq<Label>) {
    var key := SeriesKey(name, labels);
    key in Replay(log) && !HasBuckets(Replay(log)[key])
  }

  lemma Logged(log: seq<Op>, op: Op)
    ensures Replay(log + [op]) == Replay(log)[Key(op) := Next(Get(Replay(log), Key(op)), op)]
  {
    assert (log + [op])[..|log|] == log;
  }

  /** Count one value: every bucket from the first that holds it, or else the last. Without any
      bucket the index of the last one underflows. */
  method Place(bounds: seq<real>, before: seq<nat>, value: real) returns (ok: bool, counts: seq<nat>)
    requires |before| == |bounds| + 1 || (before == [] && bounds == [])
    ensures ok <==> before != []
    ensures ok ==> counts == Bumped(before, FirstBound(bounds, value))
  {
    counts := before;
    var placed := false;
    for i := 0 to |bounds|
      invariant !placed && counts == before
      invariant forall j :: 0 <= j < i ==> bounds[j] < value
    {
      if value <= bounds[i] {
        assert FirstBound(bounds, value) == i;
        for j := i to |counts|
          invariant |counts| == |before|
          invariant forall k :: 0 <= k < |counts| ==> counts[k] == if i <= k < j then before[k] + 1 else before[k]
        {
          counts := counts[j := counts[j] + 1];
        }
        placed := true;
        break;
      }
    }
    if !placed {
      if |counts| == 0 {
        return false, counts;
      }
      var last := |counts| - 1;
      counts := counts[last := counts[last] + 1];
    }
    ok := true;
  }

  // ---------------------------------------------------------------------------------------
  // A series depends on its own calls only
  // ---------------------------------------------------------------------------------------

  /** The same metric: equal names, equal label sets. */
  ghost predicate Same(op: Op, name: string, labels: seq<Label>) {
    op.name == name && multiset(op.labels) == multiset(labels)
  }

  ghost function Own(log: seq<Op>, name: string, labels: seq<Label>): seq<Op> {
    if log == [] then [] else
      Own(log[..|log| - 1], name, labels) + if Same(log[|log| - 1], name, labels) then [log[|log| - 1]] else []
  }

  /** The state that a list of calls on one series leaves. */
  function Fold(ops: seq<Op>): Option<MetricState> {
    if ops == [] then None else Some(Next(Fold(ops[..|ops| - 1]), ops[|ops| - 1]))
  }

  ghost predicate WellNamed(name: string, labels: seq<Label>) {
    Plain(name, labels) && DistinctKeys(multiset(labels))
  }

  lemma {:induction false} SeriesIsOwnHistory(log: seq<Op>, name: string, labels: seq<Label>)
    requires (forall op :: op in log ==> WellNamed(op.name, op.labels)) && WellNamed(name, labels)
    ensures Get(Replay(log), SeriesKey(name, labels)) == Fold(Own(log, name, labels))
  {
    hide SeriesKey, Next, WellNamed;
    if log != [] {
      var op := log[|log| - 1];
      SeriesIsOwnHistory(log[..|log| - 1], name, labels);
      SameKey(op, name, labels);
      if Same(op, name, labels) {
        FoldOne(Own(log[..|log| - 1], name, labels), op);
      } else {
        assert Own(log, name, labels) == Own(log[..|log| - 1], name, labels);
      }
    }
  }

  lemma FoldOne(ops: seq<Op>, op: Op)
    ensures Fold(ops + [op]) == Some(Next(Fold(ops), op))
  {
    hide Next;
    assert (ops + [op])[..|ops|] == ops;
  }

  lemma SameKey(op: Op, name: string, labels: seq<Label>)
    requires WellNamed(op.name, op.labels) && WellNamed(name, labels)
    ensures Key(op) == SeriesKey(name, labels) <==> Same(op, name, labels)
  {
    hide SeriesKey;
    if Same(op, name, labels) {
      KeyIgnoresOrder(name, op.labels, labels);
    }
    if Key(op) == SeriesKey(name, labels) {
      KeyInjective(op.name, op.labels, name, labels);
    }
  }

  // ---------------------------------------------------------------------------------------
  // What a histogram shows
  // ---------------------------------------------------------------------------------------

  /** How many of the values are at most `bound`. */
  ghost function AtMost(ops: seq<Op>, bound: real): nat {
    if ops == [] then 0 else
      AtMost(ops[..|ops| - 1], bound) + if ops[|ops| - 1].value <= bound then 1 else 0
  }

  ghost function Total(ops: seq<Op>): real {
    if ops == [] then 0.0 else Total(ops[..|ops| - 1]) + ops[|ops| - 1].value
  }

  ghost function Observations(ops: seq<Op>): seq<Op> {
    if ops == [] then [] else
      Observations(ops[..|ops| - 1]) + if ops[|ops| - 1].Observe? then [ops[|ops| - 1]] else []
  }

  ghost predicate Shows(m: MetricState, ops: seq<Op>) {
    && m.kind == Histogram && m.bounds == DEFAULT_BUCKETS && |m.counts| == |DEFAULT_BUCKETS| + 1
    && (forall j :: 0 <= j < |DEFAULT_BUCKETS| ==> m.counts[j] == AtMost(ops, DEFAULT_BUCKETS[j]))
    && m.counts[|DEFAULT_BUCKETS|] == m.count == |ops| && m.sum == Total(ops)
  }

  /** A series that began as a histogram shows its observations, whatever else was called on it. */
  lemma {:induction false} HistogramShows(ops: seq<Op>)
    requires ops != [] && ops[0].Observe?
    ensures Fold(ops).Some? && Shows(Fold(ops).value, Observations(ops))
  {
    hide Shows;
    var front, op := ops[..|ops| - 1], ops[|ops| - 1];
    assert front + [op] == ops;
    if front == [] {
      InitialShows(op);
      ObserveShows(Initial(op), [], op);
    } else {
      HistogramShows(front);
      if op.Observe? {
        ObserveShows(Fold(front).value, Observations(front), op);
      } else {
        OtherShows(Fold(front).value, Observations(front), op);
        assert Observations(ops) == Observations(front);
      }
    }
  }

  lemma InitialShows(op: Op)
    requires op.Observe?
    ensures Shows(Initial(op), [])
  {
  }

  lemma OtherShows(m: MetricState, ops: seq<Op>, op: Op)
    requires Shows(m, ops) && !op.Observe?
    ensures Shows(Updated(m, op), ops)
  {
  }

  lemma ObserveShows(m: MetricState, ops: seq<Op>, op: Op)
    requires Shows(m, ops) && op.Observe?
    ensures Shows(Updated(m, op), ops + [op])
  {
    hide FirstBound;
    var all := ops + [op];
    assert all[..|all| - 1] == ops && all[|all| - 1] == op;
    var first := FirstBound(m.bounds, op.value);
    forall j | 0 <= j < |DEFAULT_BUCKETS|
      ensures first <= j <==> op.value <= DEFAULT_BUCKETS[j]
    {
      if first <= j {
        BucketsAscend(first, j);
      }
    }
  }

  lemma BucketsAscend(i: nat, j: nat)
    requires i <= j < |DEFAULT_BUCKETS|
    ensures DEFAULT_BUCKETS[i] <= DEFAULT_BUCKETS[j]
  {
  }

  /** After any run, a histogram series counts exactly the observations made under its name and
      label set, in any label order. It is one exactly if its first call is an observation. */
  lemma BucketsCountObservations(log: seq<Op>, name: string, labels: seq<Label>)
    requires (forall op :: op in log ==> WellNamed(op.name, op.labels)) && WellNamed(name, labels)
    requires Own(log, name, labels) != [] && Own(log, name, labels)[0].Observe?
    ensures SeriesKey(name, labels) in Replay(log)
    ensures Shows(Replay(log)[SeriesKey(name, labels)], Observations(Own(log, name, labels)))
  {
    hide Shows, SeriesKey, Fold, Replay, Own, WellNamed;
    SeriesIsOwnHistory(log, name, labels);
    HistogramShows(Own(log, name, labels));
  }

  /** The next observation panics exactly if its series was first made by another call. */
  lemma ObservePanicsExactly(log: seq<Op>, name: string, labels: seq<Label>)
    requires (forall op :: op in log ==> WellNamed(op.name, op.labels)) && WellNamed(name, labels)
    ensures ObservePanics(log, name, labels) <==>
            Own(log, name, labels) != [] && !Own(log, name, labels)[0].Observe?
  {
    hide Shows, SeriesKey, Replay, Own, WellNamed;
    SeriesIsOwnHistory(log, name, labels);
    var own := Own(log, name, labels);
    if own != [] {
      if own[0].Observe? {
        HistogramShows(own);
        ShowsBuckets(Fold(own).value, Observations(own));
      } else {
        OthersLackBuckets(own);
      }
    }
  }

  lemma ShowsBuckets(m: MetricState, ops: seq<Op>)
    requires Shows(m, ops)
    ensures HasBuckets(m)
  {
  }

  lemma {:induction false} OthersLackBuckets(ops: seq<Op>)
    requires ops != [] && !ops[0].Observe?
    ensures Fold(ops).Some? && Fold(ops).value.counts == []
  {
    var front := ops[..|ops| - 1];
    if front != [] {
      OthersLackBuckets(front);
    }
  }

  // ---------------------------------------------------------------------------------------
  // What a counter or gauge shows
  // ---------------------------------------------------------------------------------------

  ghost function Additions(ops: seq<Op>): seq<Op> {
    if ops == [] then [] else
      Additions(ops[..|ops| - 1]) + if ops[|ops| - 1].Add? then [ops[|ops| - 1]] else []
  }

  /** The calls after the last `Set`, and the value it set. */
  ghost function SinceSet(ops: seq<Op>): (r: (real, seq<Op>)) {
    if ops == [] then (0.0, [])
    else if ops[|ops| - 1].Set? then (ops[|ops| - 1].value, [])
    else
      var (v, since) := SinceSet(ops[..|ops| - 1]);
      (v, since + [ops[|ops| - 1]])
  }

  /** The kind of a series is that of its first call. */
  ghost predicate KindOf(m: MetricState, op: Op) {
    (m.kind == Counter <==> op.Add?) && (m.kind == Gauge <==> op.Set?) && (m.kind == Histogram <==> op.Observe?)
  }

  lemma {:induction false} ScalarShows(ops: seq<Op>)
    requires ops != []
    ensures Fold(ops).Some?
    ensures Fold(ops).value.scalar == SinceSet(ops).0 + Total(Additions(SinceSet(ops).1))
    ensures KindOf(Fold(ops).value, ops[0])
  {
    hide Total, Additions;
    var front, op := ops[..|ops| - 1], ops[|ops| - 1];
    if front != [] {
      ScalarShows(front);
    } else {
      NothingAdded();
    }
    if op.Set? {
      NothingAdded();
    } else {
      AddedOne(SinceSet(front).1, op);
    }
  }

  lemma NothingAdded()
    ensures Total(Additions([])) == 0.0
  {
  }

  lemma AddedOne(ops: seq<Op>, op: Op)
    ensures Total(Additions(ops + [op])) == Total(Additions(ops)) + if op.Add? then op.value else 0.0
  {
    var added := Additions(ops);
    assert (ops + [op])[..|ops|] == ops;
    if op.Add? {
      assert (added + [op])[..|added|] == added;
    } else {
      assert added + [] == added;
    }
  }

  /** A series shows the value last set, or zero, and all that was added since under its name and
      label set; its kind is that of its first call. */
  lemma ScalarSumsAdditions(log: seq<Op>, name: string, labels: seq<Label>)
    requires (forall op :: op in log ==> WellNamed(op.name, op.labels)) && WellNamed(name, labels)
    requires Own(log, name, labels) != []
    ensures SeriesKey(name, labels) in Replay(log)
    ensures var (v, since) := SinceSet(Own(log, name, labels));
            Replay(log)[SeriesKey(name, labels)].scalar == v + Total(Additions(since))
    ensures KindOf(Replay(log)[SeriesKey(name, labels)], Own(log, name, labels)[0])
  {
    hide SeriesKey, Fold, Replay, Own, WellNamed;
    SeriesIsOwnHistory(log, name, labels);
    ScalarShows(Own(log, name, labels));
  }

  lemma {:induction false} OwnAreOwn(log: seq<Op>, name: string, labels: seq<Label>)
    ensures forall op :: op in Own(log, name, labels) <==> op in log && Same(op, name, labels)
  {
    if log != [] {
      OwnAreOwn(log[..|log| - 1], name, labels);
      assert log == log[..|log| - 1] + [log[|log| - 1]];
    }
  }

  lemma {:induction false} NeverSet(ops: seq<Op>)
    requires forall op :: op in ops ==> !op.Set?
    ensures SinceSet(ops) == (0.0, ops)
  {
    if ops != [] {
      NeverSet(ops[..|ops| - 1]);
      assert ops == ops[..|ops| - 1] + [ops[|ops| - 1]];
    }
  }

  /** A series that was never set holds the sum of all that was added under its name and label set. */
  lemma CounterSumsAdditions(log: seq<Op>, name: string, labels: seq<Label>)
    requires (forall op :: op in log ==> WellNamed(op.name, op.labels)) && WellNamed(name, labels)
    requires Own(log, name, labels) != []
    requires forall op :: op in log && Same(op, name, labels) ==> !op.Set?
    ensures SeriesKey(name, labels) in Replay(log)
    ensures Replay(log)[SeriesKey(name, labels)].scalar == Total(Additions(Own(log, name, labels)))
  {
    hide SeriesKey, Fold, Replay, Own, WellNamed, SinceSet, Additions;
    ScalarSumsAdditions(log, name, labels);
    OwnAreOwn(log, name, labels);
    NeverSet(Own(log, name, labels));
  }
}
