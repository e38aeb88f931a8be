/** Community detection by repeated local moves over a graph store. Community ids are numbers. */
module Community {
  import opened Wrappers
  import opened GraphStore
  import opened Ranking
  import opened Sequences

  type Membership = map<NodeId, nat>

  datatype Community = Community(id: nat, members: seq<NodeId>)

  datatype Communities = Communities(communities: seq<Community>, membership: Membership)

  const MAX_PASSES: nat := 8

  // ---------------------------------------------------------------------------------------
  // Connected nodes
  // ---------------------------------------------------------------------------------------

  ghost predicate IsWalk(edges: seq<Edge>, p: seq<NodeId>, a: NodeId, b: NodeId) {
    && p != [] && p[0] == a && p[|p| - 1] == b
    && forall i :: 0 <= i < |p| - 1 ==> Adjacent(edges, p[i], p[i + 1])
  }

  ghost predicate Connected(edges: seq<Edge>, a: NodeId, b: NodeId) {
    exists p :: IsWalk(edges, p, a, b)
  }

  lemma ConnectedSelf(edges: seq<Edge>, a: NodeId)
    ensures Connected(edges, a, a)
  {
    assert IsWalk(edges, [a], a, a);
  }

  lemma ConnectedStep(edges: seq<Edge>, a: NodeId, b: NodeId, c: NodeId)
    requires Connected(edges, a, b) && Adjacent(edges, b, c)
    ensures Connected(edges, a, c)
  {
    var p :| IsWalk(edges, p, a, b);
    assert IsWalk(edges, p + [c], a, c);
  }

  lemma {:induction false} ConnectedTrans(edges: seq<Edge>, a: NodeId, b: NodeId, c: NodeId, q: seq<NodeId>)
    requires Connected(edges, a, b) && IsWalk(edges, q, b, c)
    ensures Connected(edges, a, c)
    decreases |q|
  {
    if |q| > 1 {
      assert Adjacent(edges, q[0], q[0 + 1]);
      ConnectedStep(edges, a, b, q[1]);
      var r := q[1..];
      forall i | 0 <= i < |r| - 1
        ensures Adjacent(edges, r[i], r[i + 1])
      {
        assert Adjacent(edges, q[i + 1], q[(i + 1) + 1]);
      }
      ConnectedTrans(edges, a, q[1], c, r);
    }
  }

  lemma {:induction false} WalkBack(edges: seq<Edge>, p: seq<NodeId>, a: NodeId, b: NodeId)
    requires IsWalk(edges, p, a, b)
    ensures Connected(edges, b, a)
    decreases |p|
  {
    if |p| == 1 {
      ConnectedSelf(edges, a);
    } else {
      assert Adjacent(edges, p[0], p[0 + 1]);
      var r := p[1..];
      forall i | 0 <= i < |r| - 1
        ensures Adjacent(edges, r[i], r[i + 1])
      {
        assert Adjacent(edges, p[i + 1], p[(i + 1) + 1]);
      }
      WalkBack(edges, r, p[1], b);
      WeightIsSymmetric(edges, a, p[1]);
      ConnectedStep(edges, b, p[1], a);
    }
  }

  /** Nodes of one community are connected in the graph. */
  ghost predicate Cohesive(edges: seq<Edge>, m: Membership) {
    forall a, b :: a in m && b in m && m[a] == m[b] ==> Connected(edges, a, b)
  }

  /** Moving a node to the community of a neighbour keeps communities connected. */
  lemma MoveKeepsCohesive(edges: seq<Edge>, m: Membership, node: NodeId, n: NodeId)
    requires Cohesive(edges, m) && node in m && n in m && Adjacent(edges, node, n)
    ensures Cohesive(edges, m[node := m[n]])
  {
    hide Adjacent, IsWalk;
    var m' := m[node := m[n]];
    WeightIsSymmetric(edges, node, n);
    ConnectedSelf(edges, node);
    forall a, b | a in m' && b in m' && m'[a] == m'[b]
      ensures Connected(edges, a, b)
    {
      if a != node && b == node {
        ConnectedStep(edges, a, n, node);
      } else if a == node && b != node {
        ConnectedStep(edges, b, n, node);
        var p :| IsWalk(edges, p, b, node);
        WalkBack(edges, p, b, node);
      }
    }
  }

  // ---------------------------------------------------------------------------------------
  // Candidates and their gain
  // ---------------------------------------------------------------------------------------

  /** What one decision looks at: a node, its neighbours with their weights, all nodes with their
      degrees, the current communities, and the total weight. */
  datatype Scene = Scene(node: NodeId, ns: seq<NodeId>, w: map<NodeId, real>,
                         nodes: seq<NodeId>, degree: map<NodeId, real>, m: Membership, total: real) {
    ghost predicate Valid() {
      && node in m && node in degree && total != 0.0
      && (forall n :: n in ns ==> n in w && n in m)
      && (forall n :: n in nodes ==> n in degree && n in m)
    }

    /** Weight from the node to the members of community `c`, over its first `k` neighbours. */
    ghost function ToCommunity(c: nat, k: nat): real
      requires Valid() && k <= |ns|
    {
      if k == 0 then 0.0 else ToCommunity(c, k - 1) + if m[ns[k - 1]] == c then w[ns[k - 1]] else 0.0
    }

    /** Summed degree of community `c` without the node itself, over the first `k` nodes. */
    ghost function Sigma(c: nat, k: nat): real
      requires Valid() && k <= |nodes|
    {
      if k == 0 then 0.0 else
        Sigma(c, k - 1) + if nodes[k - 1] != node && m[nodes[k - 1]] == c then degree[nodes[k - 1]] else 0.0
    }

    /** The estimated gain of moving to community `c`. */
    ghost function GainOf(c: nat): real
      requires Valid()
    {
      Gain(ToCommunity(c, |ns|), Sigma(c, |nodes|), degree[node], total)
    }

    /** A community that some neighbour is in, other than the current one. */
    ghost predicate Candidate(c: nat)
      requires Valid()
    {
      c != m[node] && exists n :: n in ns && m[n] == c
    }

    /** Stay unless some candidate has a positive gain; else the best one, the lowest id on a tie. */
    ghost predicate Best(best: nat)
      requires Valid()
    {
      if best == m[node] then forall c: nat :: Candidate(c) ==> GainOf(c) <= 0.0
      else
        && Candidate(best) && GainOf(best) > 0.0
        && forall c: nat :: Candidate(c) ==> GainOf(c) <= GainOf(best) && (c < best ==> GainOf(c) < GainOf(best))
    }
  }

  /** The gain estimate; the cost of leaving the current community is not in it. */
  function Gain(toC: real, sigma: real, degree: real, total: real): real
    requires total != 0.0
  {
    toC / total - (sigma * degree) / (2.0 * total * total)
  }

  // ---------------------------------------------------------------------------------------
  // Sorted lists
  // ---------------------------------------------------------------------------------------

  ghost predicate Ascending(s: seq<nat>) {
    forall i, j :: 0 <= i < j < |s| ==> s[i] < s[j]
  }

  function InsertNat(s: seq<nat>, x: nat): (r: seq<nat>)
    ensures multiset(r) == multiset(s) + multiset{x}
    ensures forall y :: y in r <==> y in s || y == x
  {
    if s != [] && x < s[|s| - 1] then
      assert s == s[..|s| - 1] + [s[|s| - 1]];
      InsertNat(s[..|s| - 1], x) + [s[|s| - 1]]
    else s + [x]
  }

  lemma {:induction false} InsertAscends(s: seq<nat>, x: nat)
    requires Ascending(s) && x !in s
    ensures Ascending(InsertNat(s, x))
  {
    if s != [] && x < s[|s| - 1] {
      InsertAscends(s[..|s| - 1], x);
      var front := InsertNat(s[..|s| - 1], x);
      forall i | 0 <= i < |front|
        ensures front[i] < s[|s| - 1]
      {
        assert front[i] in front;
      }
      assert s == s[..|s| - 1] + [s[|s| - 1]];
    }
  }

  /** The elements of a set, in order: collected in any order, then sorted. */
  method SortedElements(s: set<nat>) returns (r: seq<nat>)
    ensures Ascending(r) && |r| == |s| && forall x :: x in r <==> x in s
  {
    r := [];
    var rest := s;
    while rest != {}
      invariant rest <= s && Ascending(r) && |r| == |s| - |rest|
      invariant forall x :: x in r <==> x in s && x !in rest
      decreases |rest|
    {
      var x :| x in rest;
      InsertAscends(r, x);
      LengthByMultiset(InsertNat(r, x), r, x);
      r := InsertNat(r, x);
      rest := rest - {x};
    }
  }

  lemma LengthByMultiset(a: seq<nat>, b: seq<nat>, x: nat)
    requires multiset(a) == multiset(b) + multiset{x}
    ensures |a| == |b| + 1
  {
    assert |multiset(a)| == |a| && |multiset(b)| == |b|;
  }

  // ---------------------------------------------------------------------------------------
  // One move
  // ---------------------------------------------------------------------------------------

  /** Sum the weights per community. */
  method Accumulate(s: Scene) returns (toComm: map<nat, real>)
    requires s.Valid()
    ensures forall c :: c in toComm <==> exists n :: n in s.ns && s.m[n] == c
    ensures forall c :: c in toComm ==> toComm[c] == s.ToCommunity(c, |s.ns|)
  {
    toComm := map[];
    for i := 0 to |s.ns|
      invariant forall c :: c in toComm <==> exists j :: 0 <= j < i && s.m[s.ns[j]] == c
      invariant forall c: nat :: (if c in toComm then toComm[c] else 0.0) == s.ToCommunity(c, i)
    {
      var c := s.m[s.ns[i]];
      toComm := toComm[c := (if c in toComm then toComm[c] else 0.0) + s.w[s.ns[i]]];
    }
  }

  method AccumulateOthers(s: Scene) returns (sigma: map<nat, real>)
    requires s.Valid()
    ensures forall c: nat :: (if c in sigma then sigma[c] else 0.0) == s.Sigma(c, |s.nodes|)
  {
    sigma := map[];
    for i := 0 to |s.nodes|
      invariant forall c: nat :: (if c in sigma then sigma[c] else 0.0) == s.Sigma(c, i)
    {
      var n := s.nodes[i];
      if n == s.node {
        continue;
      }
      var c := s.m[n];
      sigma := sigma[c := (if c in sigma then sigma[c] else 0.0) + s.degree[n]];
    }
  }

  method BestCommunity(s: Scene) returns (best: nat)
    requires s.Valid()
    ensures s.Best(best)
  {
    hide Gain, Scene.ToCommunity, Scene.Sigma;
    var cur := s.m[s.node];
    best := cur;
    var bestGain := 0.0;
    var toComm := Accumulate(s);
    var sigma := AccumulateOthers(s);
    var cands := SortedElements(toComm.Keys);
    for i := 0 to |cands|
      invariant best == cur ==> bestGain == 0.0
      invariant best != cur ==> best in cands[..i] && bestGain > 0.0 && s.GainOf(best) == bestGain
      invariant forall j :: 0 <= j < i && cands[j] != cur ==>
                  s.GainOf(cands[j]) <= bestGain && (best != cur && cands[j] < best ==> s.GainOf(cands[j]) < bestGain)
    {
      var cand := cands[i];
      if cand == cur {
        continue;
      }
      var total := if cand in sigma then sigma[cand] else 0.0;
      var gain := Gain(toComm[cand], total, s.degree[s.node], s.total);
      assert gain == s.GainOf(cand);
      if gain > bestGain {
        bestGain := gain;
        best := cand;
      }
    }
    forall c: nat | s.Candidate(c)
      ensures s.GainOf(c) <= bestGain && (best != cur && c < best ==> s.GainOf(c) < bestGain)
    {
      assert c in cands;
    }
    if best != cur {
      assert best in cands && best in toComm;
    }
  }

  // ---------------------------------------------------------------------------------------
  // The passes
  // ---------------------------------------------------------------------------------------

  /** All neighbours of the node are registered. */
  ghost predicate Closed(nodes: seq<NodeId>, edges: seq<Edge>, a: NodeId) {
    forall b: NodeId :: Adjacent(edges, a, b) ==> b in nodes
  }

  /** No edge joins a registered node to one that is not. */
  ghost predicate Registered(nodes: seq<NodeId>, edges: seq<Edge>) {
    forall a :: a in nodes ==> Closed(nodes, edges, a)
  }

  /** Membership covers the nodes, and nodes of one community are connected. */
  ghost predicate Sound(nodes: seq<NodeId>, edges: seq<Edge>, m: Membership) {
    (forall n :: n in m <==> n in nodes) && Cohesive(edges, m)
  }

  /** A scene that shows the graph. */
  ghost predicate Shows(s: Scene, edges: seq<Edge>) {
    s.Valid() && IsNeighbourhood(edges, s.node, s.w) && Ascending(s.ns) && forall n :: n in s.ns <==> n in s.w
  }

  /** One node went to the best community of its scene, or stayed. */
  ghost predicate Moved(s: Scene, edges: seq<Edge>, m': Membership) {
    Shows(s, edges) && exists best: nat :: s.Best(best) && m' == s.m[s.node := best]
  }

  /** What all moves of a detection share: the graph, its nodes in order, their degrees and half of
      the degrees together. */
  datatype Setting = Setting(edges: seq<Edge>, nodes: seq<NodeId>, degree: map<NodeId, real>, total: real)

  ghost function SettingOf(edges: seq<Edge>, nodes: seq<NodeId>): Setting {
    Setting(edges, nodes, map n | n in nodes :: Incident(edges, n), EndsAt(edges, Elements(nodes)) / 2.0)
  }

  /** The setting is one a move can look at. */
  ghost predicate Usable(v: Setting) {
    v.total != 0.0 && forall n :: n in v.degree <==> n in v.nodes
  }

  ghost predicate InScene(s: Scene, v: Setting, node: NodeId, m: Membership) {
    s.node == node && s.nodes == v.nodes && s.degree == v.degree && s.m == m && s.total == v.total
  }

  /** The visit of one node leads from `m` to `m'`. */
  ghost predicate OneMove(v: Setting, node: NodeId, m: Membership, m': Membership) {
    exists s: Scene :: InScene(s, v, node, m) && Moved(s, v.edges, m')
  }

  /** A neighbour that is not registered has no community to look up. */
  method MoveNode(g: InMemoryGraph, v: Setting, node: NodeId, m: Membership) returns (ok: bool, m': Membership)
    requires g.Valid() && v.edges == g.edges && Usable(v) && Sound(v.nodes, v.edges, m) && node in v.nodes
    ensures ok <==> Closed(v.nodes, v.edges, node)
    ensures ok ==> OneMove(v, node, m, m') && Sound(v.nodes, v.edges, m')
  {
    hide Scene.Best, Cohesive, Connected, WeightBetween, Adjacent;
    var w := g.UndirectedNeighbours(node);
    var ns := SortedElements(w.Keys);
    var scene := Scene(node, ns, w, v.nodes, v.degree, m, v.total);
    m' := m;
    assert m[node := m[node]] == m;
    if ns == [] {
      NoCandidates(scene);
      assert InScene(scene, v, node, m);
      return true, m';
    }
    if exists n :: n in ns && n !in m {
      return false, m';
    }
    NeighboursRegistered(g.edges, v.nodes, node, w);
    var best := BestCommunity(scene);
    if best != m[node] {
      var n := BestHasNeighbour(scene, best);
      MoveKeepsCohesive(g.edges, m, node, n);
      m' := m[node := best];
    }
    assert InScene(scene, v, node, m);
    ok := true;
  }

  lemma NeighboursRegistered(edges: seq<Edge>, nodes: seq<NodeId>, node: NodeId, w: map<NodeId, real>)
    requires IsNeighbourhood(edges, node, w) && forall n :: n in w ==> n in nodes
    ensures Closed(nodes, edges, node) && forall n :: n in w ==> Adjacent(edges, node, n)
  {
    hide Adjacent, WeightBetween;
  }

  lemma NoCandidates(s: Scene)
    requires s.Valid() && s.ns == []
    ensures s.Best(s.m[s.node])
  {
  }

  lemma BestHasNeighbour(s: Scene, best: nat) returns (n: NodeId)
    requires s.Valid() && s.Best(best) && best != s.m[s.node]
    ensures n in s.ns && s.m[n] == best
  {
    n :| n in s.ns && s.m[n] == best;
  }

  // --- runs --------------------------------------------------------------------------------

  /** The memberships of one pass, before each visit and after the last. */
  ghost predicate IsPass(v: Setting, ms: seq<Membership>) {
    |ms| == |v.nodes| + 1 && forall i :: 0 <= i < |v.nodes| ==> OneMove(v, v.nodes[i], ms[i], ms[i + 1])
  }

  /** No visit of the pass moved its node. */
  ghost predicate Quiet(ms: seq<Membership>) {
    forall i :: 0 <= i < |ms| ==> ms[i] == ms[0]
  }

  /** The membership after `p` passes. */
  ghost function After(start: Membership, passes: seq<seq<Membership>>, p: nat): Membership
    requires p <= |passes|
  {
    if p == 0 || passes[p - 1] == [] then start else passes[p - 1][|passes[p - 1]| - 1]
  }

  ghost function Final(start: Membership, passes: seq<seq<Membership>>): Membership {
    After(start, passes, |passes|)
  }

  /** Each pass goes on where the one before it ended. */
  ghost predicate IsRun(v: Setting, start: Membership, passes: seq<seq<Membership>>) {
    forall p :: 0 <= p < |passes| ==> IsPass(v, passes[p]) && BeginsAt(passes[p], After(start, passes, p))
  }

  ghost predicate BeginsAt(ms: seq<Membership>, m: Membership) {
    ms != [] && ms[0] == m
  }

  /** A pass follows exactly after one that moved some node, up to the limit. */
  ghost predicate StopsInTime(passes: seq<seq<Membership>>) {
    && 0 < |passes| <= MAX_PASSES
    && (forall p :: 0 <= p < |passes| - 1 ==> !Quiet(passes[p]))
    && (|passes| < MAX_PASSES ==> Quiet(passes[|passes| - 1]))
  }

  ghost predicate IsDetection(v: Setting, start: Membership, passes: seq<seq<Membership>>) {
    IsRun(v, start, passes) && StopsInTime(passes)
  }

  lemma RunGrows(v: Setting, start: Membership, passes: seq<seq<Membership>>, ms: seq<Membership>)
    requires IsRun(v, start, passes) && IsPass(v, ms) && BeginsAt(ms, Final(start, passes))
    ensures IsRun(v, start, passes + [ms]) && Final(start, passes + [ms]) == ms[|ms| - 1]
  {
    hide OneMove, After;
    var all := passes + [ms];
    forall p: nat | p < |all|
      ensures IsPass(v, all[p]) && BeginsAt(all[p], After(start, all, p))
    {
      AfterOfMore(start, passes, ms, p);
      if p == |passes| {
        assert all[p] == ms;
      } else {
        assert all[p] == passes[p];
      }
    }
    AfterLast(start, passes, ms);
  }

  lemma AfterOfMore(start: Membership, passes: seq<seq<Membership>>, ms: seq<Membership>, p: nat)
    requires p <= |passes|
    ensures After(start, passes + [ms], p) == After(start, passes, p)
  {
  }

  lemma AfterLast(start: Membership, passes: seq<seq<Membership>>, ms: seq<Membership>)
    requires ms != []
    ensures Final(start, passes + [ms]) == ms[|ms| - 1]
  {
  }

  /** No candidate is better than the community the node is in. */
  ghost predicate AtRest(v: Setting, node: NodeId, m: Membership) {
    exists s: Scene :: InScene(s, v, node, m) && Shows(s, v.edges) && node in m && s.Best(m[node])
  }

  /** One pass: every node is visited in order. */
  method VisitNodes(g: InMemoryGraph, v: Setting, start: Membership)
    returns (ok: bool, m: Membership, moved: bool, ghost ms: seq<Membership>)
    requires g.Valid() && v.edges == g.edges && Usable(v) && Sound(v.nodes, v.edges, start)
    ensures ok <==> Registered(v.nodes, v.edges)
    ensures ok ==> IsPass(v, ms) && BeginsAt(ms, start) && ms[|ms| - 1] == m && moved == !Quiet(ms)
    ensures ok ==> Sound(v.nodes, v.edges, m)
  {
    hide Closed, Sound, OneMove, Usable, Quiet, InMemoryGraph.Valid;
    m, moved, ms := start, false, [start];
    assert Quiet(ms) by { OneIsQuiet(start); }
    for i := 0 to |v.nodes|
      invariant Sound(v.nodes, v.edges, m)
      invariant forall j :: 0 <= j < i ==> Closed(v.nodes, v.edges, v.nodes[j])
      invariant |ms| == i + 1 && ms[i] == m && ms[0] == start
      invariant forall j :: 0 <= j < i ==> OneMove(v, v.nodes[j], ms[j], ms[j + 1])
      invariant moved == !Quiet(ms)
    {
      var fine, m' := MoveNode(g, v, v.nodes[i], m);
      if !fine {
        return false, m, moved, ms;
      }
      QuietGrows(ms, m');
      if m' != m {
        moved := true;
      }
      m, ms := m', ms + [m'];
    }
    ok := true;
  }

  lemma OneIsQuiet(m: Membership)
    ensures Quiet([m])
  {
  }

  /** Passes over the nodes until one moves nothing, eight at most; after such a pass no node has
      anywhere better to go. The first pass panics exactly if some registered node has a neighbour that
      is not registered. */
  method MovePasses(g: InMemoryGraph, v: Setting, start: Membership)
    returns (ok: bool, m: Membership, passes: nat, ghost run: seq<seq<Membership>>)
    requires g.Valid() && v.edges == g.edges && Usable(v) && Sound(v.nodes, v.edges, start)
    ensures ok <==> Registered(v.nodes, v.edges)
    ensures ok ==> IsDetection(v, start, run) && |run| == passes && m == Final(start, run)
    ensures ok ==> Sound(v.nodes, v.edges, m)
    ensures ok && passes < MAX_PASSES ==> forall n :: n in v.nodes ==> AtRest(v, n, m)
  {
    hide Sound, Usable, AtRest, IsRun, IsPass, Quiet, Registered, InMemoryGraph.Valid;
    m := start;
    var moved := true;
    passes, run := 0, [];
    NoRun(v, start);
    while moved && passes < MAX_PASSES
      invariant Sound(v.nodes, v.edges, m) && passes == |run| <= MAX_PASSES
      invariant if passes == 0 then moved else Registered(v.nodes, v.edges)
      invariant IsRun(v, start, run) && m == Final(start, run)
      invariant forall p :: 0 <= p < |run| - 1 ==> !Quiet(run[p])
      invariant |run| > 0 ==> moved == !Quiet(run[|run| - 1])
      decreases MAX_PASSES - passes
    {
      passes := passes + 1;
      ghost var ms;
      ok, m, moved, ms := VisitNodes(g, v, m);
      if !ok {
        return;
      }
      RunGrows(v, start, run, ms);
      run := run + [ms];
    }
    ok := true;
    if passes < MAX_PASSES {
      LastPass(v, start, run);
      QuietRests(v, run[|run| - 1]);
    }
  }

  lemma NoRun(v: Setting, start: Membership)
    ensures IsRun(v, start, []) && Final(start, []) == start
  {
  }

  lemma LastPass(v: Setting, start: Membership, passes: seq<seq<Membership>>)
    requires IsRun(v, start, passes) && passes != []
    ensures IsPass(v, passes[|passes| - 1]) && passes[|passes| - 1] != []
    ensures Final(start, passes) == passes[|passes| - 1][|passes[|passes| - 1]| - 1]
  {
    hide OneMove;
  }

  lemma QuietGrows(ms: seq<Membership>, m: Membership)
    requires ms != []
    ensures Quiet(ms + [m]) <==> Quiet(ms) && m == ms[|ms| - 1]
  {
    var all := ms + [m];
    if Quiet(all) {
      assert all[|ms|] == all[0] && all[|ms| - 1] == all[0];
      assert forall i :: 0 <= i < |ms| ==> all[i] == ms[i];
    }
  }

  lemma QuietRests(v: Setting, ms: seq<Membership>)
    requires IsPass(v, ms) && Quiet(ms)
    ensures forall n :: n in v.nodes ==> AtRest(v, n, ms[|ms| - 1])
  {
    hide Shows, Scene.Best;
    forall n | n in v.nodes
      ensures AtRest(v, n, ms[|ms| - 1])
    {
      var i :| 0 <= i < |v.nodes| && v.nodes[i] == n;
      assert OneMove(v, n, ms[i], ms[i + 1]);
      StayingRests(v, n, ms[0]);
    }
  }

  lemma StayingRests(v: Setting, node: NodeId, m: Membership)
    requires OneMove(v, node, m, m)
    ensures AtRest(v, node, m)
  {
    hide Scene.Best;
    var s: Scene :| InScene(s, v, node, m) && Moved(s, v.edges, m);
    var best: nat :| s.Best(best) && m == m[node := best];
    assert m[node] == best;
  }

  // ---------------------------------------------------------------------------------------
  // There is one run
  // ---------------------------------------------------------------------------------------

  lemma BestUnique(s: Scene, b: nat, c: nat)
    requires s.Valid() && s.Best(b) && s.Best(c)
    ensures b == c
  {
    hide Gain, Scene.ToCommunity, Scene.Sigma;
  }

  lemma AscendingFront(a: seq<nat>)
    requires Ascending(a) && a != []
    ensures Ascending(a[..|a| - 1]) && a == a[..|a| - 1] + [a[|a| - 1]]
    ensures forall x :: x in a ==> x <= a[|a| - 1]
    ensures forall x :: x in a[..|a| - 1] <==> x in a && x != a[|a| - 1]
  {
    assert a == a[..|a| - 1] + [a[|a| - 1]];
    assert a[|a| - 1] !in a[..|a| - 1];
  }

  ghost predicate SameElements(a: seq<nat>, b: seq<nat>) {
    forall x :: x in a <==> x in b
  }

  lemma SameFront(a: seq<nat>, b: seq<nat>)
    requires Ascending(a) && Ascending(b) && a != [] && b != [] && SameElements(a, b)
    ensures a[|a| - 1] == b[|b| - 1] && SameElements(a[..|a| - 1], b[..|b| - 1])
  {
    hide Ascending;
    AscendingFront(a);
    AscendingFront(b);
    var x, y := a[|a| - 1], b[|b| - 1];
    assert x in b && y in a;
    var f, g := a[..|a| - 1], b[..|b| - 1];
    forall z: nat
      ensures z in f <==> z in g
    {
      assert z in a <==> z in b;
    }
  }

  /** There is one ordered list of a set. */
  lemma {:induction false} AscendingUnique(a: seq<nat>, b: seq<nat>)
    requires Ascending(a) && Ascending(b) && SameElements(a, b)
    ensures a == b
    decreases |a|
  {
    hide Ascending;
    assert a != [] ==> a[0] in b;
    assert b != [] ==> b[0] in a;
    if a != [] {
      AscendingFront(a);
      AscendingFront(b);
      SameFront(a, b);
      AscendingUnique(a[..|a| - 1], b[..|b| - 1]);
    }
  }

  lemma SceneUnique(v: Setting, node: NodeId, m: Membership, s: Scene, r: Scene)
    requires InScene(s, v, node, m) && Shows(s, v.edges) && InScene(r, v, node, m) && Shows(r, v.edges)
    ensures s == r
  {
    hide Adjacent, WeightBetween, Scene.Valid;
    assert s.w == r.w;
    AscendingUnique(s.ns, r.ns);
  }

  lemma MoveUnique(v: Setting, node: NodeId, m: Membership, a: Membership, b: Membership)
    requires OneMove(v, node, m, a) && OneMove(v, node, m, b)
    ensures a == b
  {
    hide Scene.Best, IsNeighbourhood, Ascending;
    var s: Scene :| InScene(s, v, node, m) && Moved(s, v.edges, a);
    var r: Scene :| InScene(r, v, node, m) && Moved(r, v.edges, b);
    SceneUnique(v, node, m, s, r);
    var c: nat :| s.Best(c) && a == m[node := c];
    var d: nat :| r.Best(d) && b == m[node := d];
    BestUnique(s, c, d);
  }

  lemma {:induction false} PassUnique(v: Setting, a: seq<Membership>, b: seq<Membership>, k: nat)
    requires IsPass(v, a) && IsPass(v, b) && a[0] == b[0] && k <= |v.nodes|
    ensures a[..k + 1] == b[..k + 1]
  {
    hide OneMove;
    if k > 0 {
      PassUnique(v, a, b, k - 1);
      var i := k - 1;
      assert a[..k][i] == b[..k][i];
      assert OneMove(v, v.nodes[i], a[i], a[i + 1]) && OneMove(v, v.nodes[i], b[i], b[i + 1]);
      MoveUnique(v, v.nodes[i], a[i], a[k], b[k]);
      assert a[..k + 1] == a[..k] + [a[k]] && b[..k + 1] == b[..k] + [b[k]];
    }
  }

  lemma {:induction false} RunUnique(v: Setting, start: Membership, a: seq<seq<Membership>>, b: seq<seq<Membership>>,
                                     k: nat)
    requires IsRun(v, start, a) && IsRun(v, start, b) && k <= |a| && k <= |b|
    ensures a[..k] == b[..k]
  {
    hide IsPass, After;
    if k > 0 {
      RunUnique(v, start, a, b, k - 1);
      var p := k - 1;
      AfterSame(start, a, b, p);
      assert IsPass(v, a[p]) && IsPass(v, b[p]) && BeginsAt(a[p], After(start, a, p));
      WholePassUnique(v, a[p], b[p]);
      assert a[..k] == a[..p] + [a[p]] && b[..k] == b[..p] + [b[p]];
    }
  }

  lemma AfterSame(start: Membership, a: seq<seq<Membership>>, b: seq<seq<Membership>>, p: nat)
    requires p <= |a| && p <= |b| && a[..p] == b[..p]
    ensures After(start, a, p) == After(start, b, p)
  {
    assert p > 0 ==> a[..p][p - 1] == b[..p][p - 1];
  }

  lemma WholePassUnique(v: Setting, a: seq<Membership>, b: seq<Membership>)
    requires IsPass(v, a) && IsPass(v, b) && a != [] && BeginsAt(b, a[0])
    ensures a == b
  {
    PassUnique(v, a, b, |v.nodes|);
    assert a == a[..|v.nodes| + 1] && b == b[..|v.nodes| + 1];
  }

  /** The passes are determined by the graph and the start, whatever order its maps are walked in. */
  lemma DetectionUnique(v: Setting, start: Membership, a: seq<seq<Membership>>, b: seq<seq<Membership>>)
    requires IsDetection(v, start, a) && IsDetection(v, start, b)
    ensures a == b
  {
    if |a| <= |b| {
      ShorterIsWhole(v, start, a, b);
    } else {
      ShorterIsWhole(v, start, b, a);
    }
  }

  lemma ShorterIsWhole(v: Setting, start: Membership, a: seq<seq<Membership>>, b: seq<seq<Membership>>)
    requires IsDetection(v, start, a) && IsDetection(v, start, b) && |a| <= |b|
    ensures a == b
  {
    hide IsRun, Quiet;
    RunUnique(v, start, a, b, |a|);
    assert a == a[..|a|] == b[..|a|];
    assert a[|a| - 1] == b[|a| - 1];
    if |a| == |b| {
      assert b[..|b|] == b;
    }
  }

  // ---------------------------------------------------------------------------------------
  // Degrees and the total weight
  // ---------------------------------------------------------------------------------------

  method NodeDegree(g: InMemoryGraph, node: NodeId) returns (d: real)
    requires g.Valid()
    ensures d == Incident(g.edges, node)
  {
    hide Incident, Adjacent, WeightBetween;
    var w := g.UndirectedNeighbours(node);
    var ns := SortedElements(w.Keys);
    d := 0.0;
    for i := 0 to |ns|
      invariant d == DegreeTo(g.edges, node, ns, i)
    {
      d := d + w[ns[i]];
    }
    DegreeIsIncident(g.edges, node, ns);
  }

  lemma AscendingIsDistinct(nodes: seq<NodeId>)
    requires Ascending(nodes)
    ensures Distinct(nodes)
  {
  }

  lemma NoIncidents(edges: seq<Edge>, nodes: seq<NodeId>)
    ensures IncidentTo(edges, nodes, 0) == 0.0
  {
  }

  lemma OneMoreIncident(edges: seq<Edge>, nodes: seq<NodeId>, i: nat)
    requires i < |nodes|
    ensures IncidentTo(edges, nodes, i + 1) == IncidentTo(edges, nodes, i) + Incident(edges, nodes[i])
  {
  }

  /** The total is half the degrees: half the weight of the edge ends at the nodes. */
  method Degrees(g: InMemoryGraph, nodes: seq<NodeId>) returns (degree: map<NodeId, real>, total: real)
    requires g.Valid() && Ascending(nodes)
    ensures forall n :: n in degree <==> n in nodes
    ensures forall n :: n in nodes ==> degree[n] == Incident(g.edges, n)
    ensures total == EndsAt(g.edges, Elements(nodes)) / 2.0
    ensures Setting(g.edges, nodes, degree, total) == SettingOf(g.edges, nodes)
  {
    hide Incident, EndsAt, InMemoryGraph.Valid, Ascending, IncidentTo, Distinct;
    assert Distinct(nodes) by { AscendingIsDistinct(nodes); }
    NoIncidents(g.edges, nodes);
    degree := map[];
    var sum := 0.0;
    for i := 0 to |nodes|
      invariant forall n :: n in degree <==> n in nodes[..i]
      invariant forall n :: n in degree ==> degree[n] == Incident(g.edges, n)
      invariant sum == IncidentTo(g.edges, nodes, i)
    {
      var d := NodeDegree(g, nodes[i]);
      assert nodes[..i + 1] == nodes[..i] + [nodes[i]];
      degree := degree[nodes[i] := d];
      OneMoreIncident(g.edges, nodes, i);
      sum := sum + d;
    }
    assert nodes[..|nodes|] == nodes;
    DegreesCountEnds(g.edges, nodes);
    total := sum / 2.0;
  }

  // ---------------------------------------------------------------------------------------
  // Communities from membership
  // ---------------------------------------------------------------------------------------

  ghost predicate IsGroup(m: Membership, c: Community) {
    c.members != [] && Ascending(c.members) && forall n :: n in c.members <==> n in m && m[n] == c.id
  }

  ghost predicate DistinctIds(cs: seq<Community>) {
    forall i, j :: 0 <= i < j < |cs| ==> cs[i].id != cs[j].id
  }

  ghost predicate HasId(cs: seq<Community>, id: nat) {
    exists i :: 0 <= i < |cs| && cs[i].id == id
  }

  /** Communities and membership agree: the communities are the blocks of the membership. */
  ghost predicate Agree(m: Membership, cs: seq<Community>) {
    && (forall i :: 0 <= i < |cs| ==> IsGroup(m, cs[i]))
    && DistinctIds(cs)
    && forall n :: n in m ==> HasId(cs, m[n])
  }

  method SortMembers(s: seq<NodeId>) returns (r: seq<NodeId>)
    requires Distinct(s)
    ensures Ascending(r) && forall n :: n in r <==> n in s
  {
    r := [];
    for i := 0 to |s|
      invariant Ascending(r) && forall n :: n in r <==> n in s[..i]
    {
      assert s[..i + 1] == s[..i] + [s[i]] && s[i] !in s[..i];
      InsertAscends(r, s[i]);
      r := InsertNat(r, s[i]);
    }
    assert s[..|s|] == s;
  }

  ghost predicate Grouped(m: Membership, rest: set<NodeId>, grouped: map<nat, seq<NodeId>>) {
    && (forall c :: c in grouped ==> grouped[c] != [] && Distinct(grouped[c]))
    && (forall c, n :: c in grouped && n in grouped[c] ==> n in m && n !in rest && m[n] == c)
    && (forall n :: n in m && n !in rest ==> m[n] in grouped && n in grouped[m[n]])
  }

  lemma GroupedGrows(m: Membership, rest: set<NodeId>, grouped: map<nat, seq<NodeId>>, id: NodeId)
    requires Grouped(m, rest, grouped) && id in m && id in rest
    ensures var c := m[id];
      Grouped(m, rest - {id}, grouped[c := (if c in grouped then grouped[c] else []) + [id]])
  {
    var c := m[id];
    var s := if c in grouped then grouped[c] else [];
    assert id !in s;
    var g := grouped[c := s + [id]];
    forall n | n in m && n !in rest - {id}
      ensures m[n] in g && n in g[m[n]]
    {
    }
  }

  /** Walks the membership, then the groups, in any order. */
  method BuildCommunities(m: Membership) returns (cs: seq<Community>)
    ensures Agree(m, cs)
  {
    hide Grouped, IsGroup, Ascending, HasId;
    var grouped: map<nat, seq<NodeId>> := map[];
    var rest := m.Keys;
    assert Grouped(m, rest, grouped) by { NothingGrouped(m); }
    while rest != {}
      invariant rest <= m.Keys && Grouped(m, rest, grouped)
      decreases |rest|
    {
      var id :| id in rest;
      var c := m[id];
      GroupedGrows(m, rest, grouped, id);
      grouped := grouped[c := (if c in grouped then grouped[c] else []) + [id]];
      rest := rest - {id};
    }
    cs := [];
    var left := grouped.Keys;
    while left != {}
      invariant left <= grouped.Keys
      invariant forall i :: 0 <= i < |cs| ==> IsGroup(m, cs[i]) && cs[i].id in grouped && cs[i].id !in left
      invariant DistinctIds(cs)
      invariant forall c :: c in grouped && c !in left ==> HasId(cs, c)
      decreases |left|
    {
      var c :| c in left;
      GroupMembers(m, grouped, c);
      var members := SortMembers(grouped[c]);
      GroupIsGroup(m, grouped, c, members);
      HasIdGrows(cs, Community(c, members));
      cs := cs + [Community(c, members)];
      left := left - {c};
    }
    GroupsCover(m, grouped);
  }

  lemma NothingGrouped(m: Membership)
    ensures Grouped(m, m.Keys, map[])
  {
  }

  lemma GroupMembers(m: Membership, grouped: map<nat, seq<NodeId>>, c: nat)
    requires Grouped(m, {}, grouped) && c in grouped
    ensures Distinct(grouped[c])
  {
  }

  lemma GroupsCover(m: Membership, grouped: map<nat, seq<NodeId>>)
    requires Grouped(m, {}, grouped)
    ensures forall n :: n in m ==> m[n] in grouped
  {
  }

  lemma GroupIsGroup(m: Membership, grouped: map<nat, seq<NodeId>>, c: nat, members: seq<NodeId>)
    requires Grouped(m, {}, grouped) && c in grouped
    requires Ascending(members) && forall n :: n in members <==> n in grouped[c]
    ensures IsGroup(m, Community(c, members))
  {
    assert grouped[c][0] in members;
  }

  lemma HasIdGrows(cs: seq<Community>, c: Community)
    ensures forall id :: HasId(cs, id) ==> HasId(cs + [c], id)
    ensures HasId(cs + [c], c.id)
  {
    forall id | HasId(cs, id)
      ensures HasId(cs + [c], id)
    {
      var i :| 0 <= i < |cs| && cs[i].id == id;
      assert (cs + [c])[i] == cs[i];
    }
    assert (cs + [c])[|cs|] == c;
  }

  // ---------------------------------------------------------------------------------------
  // Renumbering
  // ---------------------------------------------------------------------------------------

  function BySize(cs: seq<Community>): seq<Scored<Community>> {
    seq(|cs|, i requires 0 <= i < |cs| => Scored(cs[i], |cs[i].members| as real))
  }

  function Items(s: seq<Scored<Community>>): seq<Community> {
    seq(|s|, i requires 0 <= i < |s| => s[i].item)
  }

  ghost predicate LargestFirst(cs: seq<Community>) {
    forall i, j :: 0 <= i < j < |cs| ==> |cs[i].members| >= |cs[j].members|
  }

  /** Sorting keeps the communities and puts the largest first. */
  lemma SortedBySize(cs: seq<Community>, m: Membership)
    requires Agree(m, cs)
    ensures Agree(m, Items(Sorted(BySize(cs)))) && LargestFirst(Items(Sorted(BySize(cs))))
  {
    hide IsGroup, Sorted, HasId, DistinctIds;
    var s, r := BySize(cs), Sorted(BySize(cs));
    SortedIsRanking(s);
    forall i | 0 <= i < |r|
      ensures r[i].score == |r[i].item.members| as real && r[i].item in cs
    {
      assert r[i] in multiset(s);
    }
    IdsStay(cs, s, r);
    IdsStayDistinct(cs, s, r);
  }

  lemma IdsStay(cs: seq<Community>, s: seq<Scored<Community>>, r: seq<Scored<Community>>)
    requires s == BySize(cs) && multiset(r) == multiset(s)
    ensures forall id :: HasId(cs, id) ==> HasId(Items(r), id)
  {
    forall id | HasId(cs, id)
      ensures HasId(Items(r), id)
    {
      var i :| 0 <= i < |cs| && cs[i].id == id;
      assert s[i] in multiset(r);
      var j :| 0 <= j < |r| && r[j] == s[i];
      assert Items(r)[j].id == id;
    }
  }

  lemma IdsStayDistinct(cs: seq<Community>, s: seq<Scored<Community>>, r: seq<Scored<Community>>)
    requires DistinctIds(cs) && s == BySize(cs) && multiset(r) == multiset(s)
    ensures DistinctIds(Items(r))
  {
    PermutationKeepsDistinct(s, r);
    forall i, j | 0 <= i < j < |r|
      ensures r[i].item.id != r[j].item.id
    {
      assert r[i] in multiset(s) && r[j] in multiset(s);
      var a :| 0 <= a < |s| && s[a] == r[i];
      var b :| 0 <= b < |s| && s[b] == r[j];
      assert a != b;
    }
  }

  /** Same blocks under other ids. */
  ghost predicate SameBlocks(m: Membership, m': Membership) {
    m.Keys == m'.Keys && forall a, b :: a in m && b in m ==> (m[a] == m[b] <==> m'[a] == m'[b])
  }

  /** Ids are the positions. */
  ghost predicate Dense(cs: seq<Community>) {
    forall i :: 0 <= i < |cs| ==> cs[i].id == i
  }

  /** Rewrites the values of the membership, in any order. */
  method Relabel(m: Membership, remap: map<nat, nat>) returns (m': Membership)
    requires forall n :: n in m ==> m[n] in remap
    ensures m'.Keys == m.Keys && forall n :: n in m ==> m'[n] == remap[m[n]]
  {
    m' := m;
    var rest := m.Keys;
    while rest != {}
      invariant rest <= m.Keys && m'.Keys == m.Keys
      invariant forall n :: n in m ==> m'[n] == if n in rest then m[n] else remap[m[n]]
      decreases |rest|
    {
      var n :| n in rest;
      m' := m'[n := remap[m'[n]]];
      rest := rest - {n};
    }
  }

  method Renumber(before: seq<Community>, m: Membership) returns (cs: seq<Community>, m': Membership)
    requires Agree(m, before)
    ensures Agree(m', cs) && Dense(cs) && LargestFirst(cs) && SameBlocks(m, m')
  {
    hide IsGroup;
    SortedBySize(before, m);
    var sorted := Items(Sorted(BySize(before)));
    cs := [];
    var remap: map<nat, nat> := map[];
    for i := 0 to |sorted|
      invariant |cs| == i && forall j :: 0 <= j < i ==> cs[j] == Community(j, sorted[j].members)
      invariant forall j :: 0 <= j < i ==> sorted[j].id in remap && remap[sorted[j].id] == j
    {
      remap := remap[sorted[i].id := i];
      cs := cs + [Community(i, sorted[i].members)];
    }
    IdsMapped(m, sorted, remap);
    m' := Relabel(m, remap);
    Renumbered(m, sorted, remap, m', cs);
  }

  lemma IdsMapped(m: Membership, sorted: seq<Community>, remap: map<nat, nat>)
    requires Agree(m, sorted)
    requires forall j :: 0 <= j < |sorted| ==> sorted[j].id in remap && remap[sorted[j].id] == j
    ensures forall n :: n in m ==> m[n] in remap && remap[m[n]] < |sorted| && sorted[remap[m[n]]].id == m[n]
  {
    hide IsGroup;
    forall n | n in m
      ensures m[n] in remap && remap[m[n]] < |sorted| && sorted[remap[m[n]]].id == m[n]
    {
      assert HasId(sorted, m[n]);
      var i :| 0 <= i < |sorted| && sorted[i].id == m[n];
    }
  }

  lemma Renumbered(m: Membership, sorted: seq<Community>, remap: map<nat, nat>, m': Membership, cs: seq<Community>)
    requires Agree(m, sorted) && |cs| == |sorted|
    requires forall j :: 0 <= j < |sorted| ==> sorted[j].id in remap && remap[sorted[j].id] == j
    requires forall n :: n in m ==> m[n] in remap && remap[m[n]] < |sorted| && sorted[remap[m[n]]].id == m[n]
    requires forall j :: 0 <= j < |cs| ==> cs[j] == Community(j, sorted[j].members)
    requires m'.Keys == m.Keys && forall n :: n in m ==> m'[n] == remap[m[n]]
    ensures Agree(m', cs) && SameBlocks(m, m')
  {
    forall i | 0 <= i < |cs|
      ensures IsGroup(m', cs[i])
    {
      assert IsGroup(m, sorted[i]);
    }
    forall n | n in m'
      ensures HasId(cs, m'[n])
    {
      assert cs[m'[n]].id == m'[n];
    }
  }

  // ---------------------------------------------------------------------------------------
  // The whole detection
  // ---------------------------------------------------------------------------------------

  lemma BlocksStayCohesive(edges: seq<Edge>, m: Membership, m': Membership)
    requires Cohesive(edges, m) && SameBlocks(m, m')
    ensures Cohesive(edges, m')
  {
    hide Connected;
  }

  /** No two nodes share a community. */
  ghost predicate AllAlone(m: Membership) {
    forall a, b :: a in m && b in m && m[a] == m[b] ==> a == b
  }

  lemma AloneIsSound(nodes: seq<NodeId>, edges: seq<Edge>, m: Membership)
    requires forall n :: n in m <==> n in nodes
    requires AllAlone(m)
    ensures Sound(nodes, edges, m)
  {
    hide Connected;
    forall a | a in m
      ensures Connected(edges, a, a)
    {
      ConnectedSelf(edges, a);
    }
  }

  /** Each node on its own, numbered in node order. */
  function Alone(nodes: seq<NodeId>): Membership {
    if nodes == [] then map[] else Alone(nodes[..|nodes| - 1])[nodes[|nodes| - 1] := |nodes| - 1]
  }

  method Singletons(nodes: seq<NodeId>) returns (m: Membership)
    requires Ascending(nodes)
    ensures m == Alone(nodes)
    ensures forall n :: n in m <==> n in nodes
    ensures forall i :: 0 <= i < |nodes| ==> nodes[i] in m && m[nodes[i]] == i
  {
    m := map[];
    for i := 0 to |nodes|
      invariant m == Alone(nodes[..i])
      invariant forall n :: n in m <==> n in nodes[..i]
      invariant forall j :: 0 <= j < i ==> nodes[j] in m && m[nodes[j]] == j
    {
      assert nodes[..i + 1] == nodes[..i] + [nodes[i]] && nodes[..i + 1][..i] == nodes[..i];
      m := m[nodes[i] := i];
    }
    assert nodes[..|nodes|] == nodes;
  }

  /** The ids are exactly the numbers below the number of communities. */
  ghost predicate Numbered(cs: seq<Community>) {
    forall c: nat :: HasId(cs, c) <==> c < |cs|
  }

  lemma DenseIsNumbered(cs: seq<Community>)
    requires Dense(cs)
    ensures Numbered(cs)
  {
    forall c: nat | c < |cs|
      ensures HasId(cs, c)
    {
      assert cs[c].id == c;
    }
  }

  /** Distinct ids that are exactly the numbers below `n` are `n` in number. */
  lemma {:induction false} CountIds(cs: seq<Community>, n: nat)
    requires DistinctIds(cs) && forall c: nat :: HasId(cs, c) <==> c < n
    ensures |cs| == n
    decreases n
  {
    if n == 0 {
      assert cs != [] ==> HasId(cs, cs[0].id);
    } else {
      assert HasId(cs, n - 1);
      var i :| 0 <= i < |cs| && cs[i].id == n - 1;
      var rest := cs[..i] + cs[i + 1..];
      assert forall j :: 0 <= j < |rest| ==> rest[j] == if j < i then cs[j] else cs[j + 1];
      forall c: nat
        ensures HasId(rest, c) <==> c < n - 1
      {
        if HasId(rest, c) {
          var j :| 0 <= j < |rest| && rest[j].id == c;
          assert HasId(cs, c);
        }
        if c < n - 1 {
          assert HasId(cs, c);
          var j :| 0 <= j < |cs| && cs[j].id == c;
          assert rest[if j < i then j else j - 1].id == c;
        }
      }
      CountIds(rest, n - 1);
    }
  }

  /** Nodes on their own, numbered from zero, make communities numbered from zero. */
  lemma SingletonsNumbered(nodes: seq<NodeId>, m: Membership, cs: seq<Community>)
    requires Agree(m, cs) && forall n :: n in m <==> n in nodes
    requires forall i :: 0 <= i < |nodes| ==> m[nodes[i]] == i
    ensures Numbered(cs)
  {
    forall c: nat
      ensures HasId(cs, c) <==> c < |nodes|
    {
      if HasId(cs, c) {
        var i :| 0 <= i < |cs| && cs[i].id == c;
        assert IsGroup(m, cs[i]) && cs[i].members[0] in cs[i].members;
      }
      if c < |nodes| {
        assert nodes[c] in m;
      }
    }
    CountIds(cs, |nodes|);
  }

  /** Half the weight of the edge ends at registered nodes: the weight of all edges, if both ends of
      each are registered (`BothEndsCount`). */
  ghost function Weight(g: InMemoryGraph): real
    reads g
  {
    EndsAt(g.edges, g.nodes.Keys) / 2.0
  }

  /** Some registered node has a neighbour that is not registered. */
  ghost predicate Dangles(g: InMemoryGraph)
    reads g
  {
    exists a, b :: a in g.nodes && b !in g.nodes && Adjacent(g.edges, a, b)
  }

  lemma RegisteredOrDangles(g: InMemoryGraph, nodes: seq<NodeId>)
    requires forall n :: n in nodes <==> n in g.nodes
    ensures Registered(nodes, g.edges) <==> !Dangles(g)
  {
    hide Adjacent;
  }

  /** The nodes in order. */
  ghost predicate InOrder(nodes: seq<NodeId>, keys: set<NodeId>) {
    Ascending(nodes) && Elements(nodes) == keys
  }

  /** `m` has the blocks that the passes over the nodes in order end with, each node starting alone. */
  ghost predicate Detected(edges: seq<Edge>, keys: set<NodeId>, m: Membership) {
    exists nodes: seq<NodeId>, passes :: DetectedBy(edges, keys, nodes, passes, m)
  }

  ghost predicate DetectedBy(edges: seq<Edge>, keys: set<NodeId>, nodes: seq<NodeId>, passes: seq<seq<Membership>>,
                             m: Membership) {
    && InOrder(nodes, keys) && IsDetection(SettingOf(edges, nodes), Alone(nodes), passes)
    && SameBlocks(Final(Alone(nodes), passes), m)
  }

  ghost predicate Untouched(keys: set<NodeId>, m: Membership) {
    exists nodes: seq<NodeId> :: InOrder(nodes, keys) && m == Alone(nodes)
  }

  /** A graph has one set of blocks. */
  lemma BlocksUnique(edges: seq<Edge>, keys: set<NodeId>, m: Membership, m': Membership)
    requires Detected(edges, keys, m) && Detected(edges, keys, m')
    ensures SameBlocks(m, m')
  {
    hide IsDetection, SettingOf, Alone, Final, Ascending;
    var nodes: seq<NodeId>, passes :| DetectedBy(edges, keys, nodes, passes, m);
    var nodes': seq<NodeId>, passes' :| DetectedBy(edges, keys, nodes', passes', m');
    assert forall x :: (x in nodes <==> x in keys) && (x in nodes' <==> x in keys) by {
      assert forall x :: (x in nodes <==> x in Elements(nodes)) && (x in nodes' <==> x in Elements(nodes'));
    }
    AscendingUnique(nodes, nodes');
    DetectionUnique(SettingOf(edges, nodes), Alone(nodes), passes, passes');
  }

  /** What the detection promises of a graph whose weights do not cancel out: the blocks are those the
      passes end with, ids are positions, and the largest community comes first. */
  ghost predicate IsResult(edges: seq<Edge>, keys: set<NodeId>, r: Communities) {
    && r.membership.Keys == keys && Agree(r.membership, r.communities)
    && Detected(edges, keys, r.membership) && Dense(r.communities) && LargestFirst(r.communities)
  }

  /** The result covers the nodes with communities that agree with the membership and stay inside
      one connected component; the ids are the numbers from zero up. If the edge weights do not cancel
      out, the communities are the blocks that the passes end with, in the order of their ids, the
      largest first; if they do, every node keeps the number it started with and the order is any.
      `None` is the panic of looking up a stranger's community. */
  method DetectCommunities(g: InMemoryGraph) returns (r: Option<Communities>)
    requires g.Valid()
    ensures r.None? <==> Weight(g) != 0.0 && Dangles(g)
    ensures r.Some? ==>
              && r.value.membership.Keys == g.nodes.Keys
              && Agree(r.value.membership, r.value.communities) && Cohesive(g.edges, r.value.membership)
              && Numbered(r.value.communities)
              && (Weight(g) != 0.0 ==> IsResult(g.edges, g.nodes.Keys, r.value))
              && (Weight(g) == 0.0 ==> AllAlone(r.value.membership) && Untouched(g.nodes.Keys, r.value.membership))
  {
    hide Agree, Cohesive, EndsAt, Dense, LargestFirst, Numbered, Dangles, Registered, Alone, IsDetection, Sound,
      InMemoryGraph.Valid;
    var nodes := SortedElements(g.nodes.Keys);
    var m := Singletons(nodes);
    AloneIsSound(nodes, g.edges, m);
    SoundParts(nodes, g.edges, m);
    var degree, total := Degrees(g, nodes);
    assert Elements(nodes) == g.nodes.Keys;
    assert InOrder(nodes, g.nodes.Keys);
    RegisteredOrDangles(g, nodes);
    if total == 0.0 {
      var cs := BuildCommunities(m);
      SingletonsNumbered(nodes, m, cs);
      return Some(Communities(cs, m));
    }
    var ok, passes;
    ghost var run;
    ok, m, passes, run := MovePasses(g, Setting(g.edges, nodes, degree, total), m);
    if !ok {
      return None;
    }
    SoundParts(nodes, g.edges, m);
    var built := BuildCommunities(m);
    var cs, m' := Renumber(built, m);
    BlocksStayCohesive(g.edges, m, m');
    DenseIsNumbered(cs);
    assert DetectedBy(g.edges, g.nodes.Keys, nodes, run, m');
    return Some(Communities(cs, m'));
  }

  lemma SoundParts(nodes: seq<NodeId>, edges: seq<Edge>, m: Membership)
    requires Sound(nodes, edges, m)
    ensures Cohesive(edges, m) && m.Keys == Elements(nodes)
  {
  }

  /** The first community with the id of the node. */
  function ForNode(r: Communities, n: NodeId): (c: Option<Community>) {
    if n in r.membership then FindId(r.communities, r.membership[n]) else None
  }

  function FindId(cs: seq<Community>, id: nat): Option<Community> {
    if cs == [] then None else if cs[0].id == id then Some(cs[0]) else FindId(cs[1..], id)
  }

  lemma {:induction false} FindIdFinds(cs: seq<Community>, i: nat)
    requires i < |cs| && DistinctIds(cs)
    ensures FindId(cs, cs[i].id) == Some(cs[i])
  {
    if i > 0 {
      FindIdFinds(cs[1..], i - 1);
    }
  }

  /** Looking a node up gives the one community that lists it, and `None` exactly for strangers. */
  lemma ForNodeFinds(r: Communities, n: NodeId)
    requires Agree(r.membership, r.communities)
    ensures ForNode(r, n).Some? <==> n in r.membership
    ensures ForNode(r, n).Some? ==> ForNode(r, n).value in r.communities
    ensures forall c :: c in r.communities ==> (n in c.members <==> ForNode(r, n) == Some(c))
  {
    if n in r.membership {
      var i :| 0 <= i < |r.communities| && r.communities[i].id == r.membership[n];
      FindIdFinds(r.communities, i);
    }
  }
}
