/** What a move of community detection does to Newman's modularity. */
module Modularity {
  import opened GraphStore
  import opened Sequences
  import opened Community

  /** How much more weight there is between two nodes than their degrees suggest. */
  type Excess = (NodeId, NodeId) -> real

  ghost function ExcessOf(edges: seq<Edge>, total: real): Excess
    requires total != 0.0
  {
    (a: NodeId, b: NodeId) => WeightBetween(edges, a, b) - Expected(Incident(edges, a), Incident(edges, b), total)
  }

  function Expected(j: real, k: real, total: real): real
    requires total != 0.0
  {
    j * k / (2.0 * total)
  }

  // ---------------------------------------------------------------------------------------
  // Sums over pairs of nodes in one community
  // ---------------------------------------------------------------------------------------

  /** Over the first `k` nodes in community `c`. */
  ghost function ToMembers(f: Excess, nodes: seq<NodeId>, m: Membership, a: NodeId, c: nat, k: nat): real
    requires k <= |nodes| && forall n :: n in nodes ==> n in m
  {
    if k == 0 then 0.0 else
      ToMembers(f, nodes, m, a, c, k - 1) + if m[nodes[k - 1]] == c then f(a, nodes[k - 1]) else 0.0
  }

  /** The same without `a` itself. */
  ghost function ToOthers(f: Excess, nodes: seq<NodeId>, m: Membership, a: NodeId, c: nat, k: nat): real
    requires k <= |nodes| && forall n :: n in nodes ==> n in m
  {
    if k == 0 then 0.0 else
      ToOthers(f, nodes, m, a, c, k - 1)
      + if nodes[k - 1] != a && m[nodes[k - 1]] == c then f(a, nodes[k - 1]) else 0.0
  }

  /** All pairs in one community, the first of them among the first `k` nodes. */
  ghost function Pairs(f: Excess, nodes: seq<NodeId>, m: Membership, k: nat): real
    requires k <= |nodes| && forall n :: n in nodes ==> n in m
  {
    if k == 0 then 0.0 else
      Pairs(f, nodes, m, k - 1) + ToMembers(f, nodes, m, nodes[k - 1], m[nodes[k - 1]], |nodes|)
  }

  /** Newman's modularity of a weighted graph; `total` is half the degrees of its nodes. */
  ghost function Modularity(edges: seq<Edge>, total: real, nodes: seq<NodeId>, m: Membership): real
    requires total != 0.0 && forall n :: n in nodes ==> n in m
  {
    Pairs(ExcessOf(edges, total), nodes, m, |nodes|) / (2.0 * total)
  }

  // ---------------------------------------------------------------------------------------
  // One node moves
  // ---------------------------------------------------------------------------------------

  function Only(b: bool, x: real): real {
    if b then x else 0.0
  }

  lemma {:induction false} MembersMove(f: Excess, nodes: seq<NodeId>, m: Membership, x: NodeId, to: nat, a: NodeId,
                                       c: nat, k: nat)
    requires k <= |nodes| && Distinct(nodes) && x in m && forall n :: n in nodes ==> n in m
    ensures ToMembers(f, nodes, m[x := to], a, c, k) == ToMembers(f, nodes, m, a, c, k)
            + Only(x in nodes[..k] && c == to, f(a, x)) - Only(x in nodes[..k] && c == m[x], f(a, x))
  {
    if k > 0 {
      MembersMove(f, nodes, m, x, to, a, c, k - 1);
      assert nodes[..k] == nodes[..k - 1] + [nodes[k - 1]] && nodes[k - 1] !in nodes[..k - 1];
    }
  }

  lemma {:induction false} SelfApart(f: Excess, nodes: seq<NodeId>, m: Membership, a: NodeId, c: nat, k: nat)
    requires k <= |nodes| && Distinct(nodes) && a in m && forall n :: n in nodes ==> n in m
    ensures ToMembers(f, nodes, m, a, c, k) ==
            ToOthers(f, nodes, m, a, c, k) + Only(a in nodes[..k] && m[a] == c, f(a, a))
  {
    if k > 0 {
      SelfApart(f, nodes, m, a, c, k - 1);
      assert nodes[..k] == nodes[..k - 1] + [nodes[k - 1]] && nodes[k - 1] !in nodes[..k - 1];
    }
  }

  lemma {:induction false} PairsMove(f: Excess, nodes: seq<NodeId>, m: Membership, x: NodeId, to: nat, k: nat)
    requires k <= |nodes| && Distinct(nodes) && x in nodes && forall n :: n in nodes ==> n in m
    requires forall a, b :: f(a, b) == f(b, a)
    ensures Pairs(f, nodes, m[x := to], k) == Pairs(f, nodes, m, k)
            + ToOthers(f, nodes, m, x, to, k) - ToOthers(f, nodes, m, x, m[x], k)
            + Only(x in nodes[..k], ToOthers(f, nodes, m, x, to, |nodes|) - ToOthers(f, nodes, m, x, m[x], |nodes|))
  {
    hide ToMembers;
    var n := |nodes|;
    if k > 0 {
      PairsMove(f, nodes, m, x, to, k - 1);
      var a := nodes[k - 1];
      assert nodes[..n] == nodes;
      assert nodes[..k] == nodes[..k - 1] + [a] && a !in nodes[..k - 1];
      if a == x {
        MembersMove(f, nodes, m, x, to, x, to, n);
        SelfApart(f, nodes, m, x, to, n);
        SelfApart(f, nodes, m, x, m[x], n);
      } else {
        MembersMove(f, nodes, m, x, to, a, m[a], n);
        assert f(a, x) == f(x, a);
      }
    }
  }

  // ---------------------------------------------------------------------------------------
  // The gain of a scene
  // ---------------------------------------------------------------------------------------

  /** The scene shows the graph with its degrees, and every neighbour is one of its nodes. */
  ghost predicate ShowsAll(s: Scene, edges: seq<Edge>) {
    && Shows(s, edges) && Ascending(s.nodes) && s.node in s.nodes
    && (forall n :: n in s.ns ==> n in s.nodes)
    && forall n :: n in s.nodes ==> s.degree[n] == Incident(edges, n)
  }

  /** Weight from the node to the other members of community `c`, over its first `k` neighbours. */
  ghost function ToRest(s: Scene, c: nat, k: nat): real
    requires s.Valid() && k <= |s.ns|
  {
    if k == 0 then 0.0 else
      ToRest(s, c, k - 1) + if s.ns[k - 1] != s.node && s.m[s.ns[k - 1]] == c then s.w[s.ns[k - 1]] else 0.0
  }

  /** What the gain estimate gives for community `c`, the node itself apart. */
  ghost function Share(s: Scene, c: nat): real
    requires s.Valid()
  {
    Gain(ToRest(s, c, |s.ns|), s.Sigma(c, |s.nodes|), s.degree[s.node], s.total)
  }

  lemma {:induction false} RestOfAnother(s: Scene, c: nat, k: nat)
    requires s.Valid() && k <= |s.ns| && c != s.m[s.node]
    ensures ToRest(s, c, k) == s.ToCommunity(c, k)
  {
    if k > 0 {
      RestOfAnother(s, c, k - 1);
    }
  }

  lemma ShareIsGain(s: Scene, c: nat)
    requires s.Valid() && c != s.m[s.node]
    ensures Share(s, c) == s.GainOf(c)
  {
    RestOfAnother(s, c, |s.ns|);
  }

  /** Summed over all nodes instead of the neighbours. */
  ghost function WeightToRest(s: Scene, edges: seq<Edge>, c: nat, l: nat): real
    requires s.Valid() && l <= |s.nodes|
  {
    if l == 0 then 0.0 else
      WeightToRest(s, edges, c, l - 1)
      + if s.nodes[l - 1] != s.node && s.m[s.nodes[l - 1]] == c then WeightBetween(edges, s.node, s.nodes[l - 1])
        else 0.0
  }

  /** The first `k` neighbours are the neighbours among the first `l` nodes. */
  ghost predicate Matched(s: Scene, k: nat, l: nat)
    requires k <= |s.ns| && l <= |s.nodes|
  {
    Filtered(s.ns[..k], s.w.Keys, s.nodes[..l])
  }

  /** `a` holds what `b` holds of `w`. */
  ghost predicate Filtered(a: seq<nat>, w: set<nat>, b: seq<nat>) {
    forall x :: x in a <==> x in w && x in b
  }

  lemma FilteredLast(a: seq<nat>, w: set<nat>, b: seq<nat>)
    requires Ascending(a) && Ascending(b) && Filtered(a, w, b) && b != [] && b[|b| - 1] in w
    ensures a != [] && a[|a| - 1] == b[|b| - 1]
    ensures Filtered(a[..|a| - 1], w, b[..|b| - 1])
  {
    hide Ascending;
    var n := b[|b| - 1];
    assert n in a;
    AscendingFront(a);
    AscendingFront(b);
    assert a[|a| - 1] in a && a[|a| - 1] in b;
    var f, g := a[..|a| - 1], b[..|b| - 1];
    forall x: nat
      ensures x in f <==> x in w && x in g
    {
      assert x in a <==> x in w && x in b;
    }
  }

  lemma {:induction false} RestOfNodes(s: Scene, edges: seq<Edge>, c: nat, k: nat, l: nat)
    requires ShowsAll(s, edges) && k <= |s.ns| && l <= |s.nodes| && Matched(s, k, l)
    ensures ToRest(s, c, k) == WeightToRest(s, edges, c, l)
    decreases l
  {
    hide WeightBetween, Adjacent, ShowsAll, Ascending, Matched;
    ShowsParts(s, edges);
    if l > 0 {
      if s.nodes[l - 1] in s.w {
        LastNeighbour(s, k, l);
        RestOfNodes(s, edges, c, k - 1, l - 1);
      } else {
        NotNeighbour(s, k, l);
        RestOfNodes(s, edges, c, k, l - 1);
        NoWeight(edges, s.node, s.nodes[l - 1]);
      }
    } else {
      NoneMatched(s, k);
    }
  }

  lemma NoneMatched(s: Scene, k: nat)
    requires k <= |s.ns| && Matched(s, k, 0)
    ensures k == 0
  {
    FirstListed(s.ns, k);
  }

  lemma FirstListed(ns: seq<NodeId>, k: nat)
    requires k <= |ns|
    ensures k > 0 ==> ns[0] in ns[..k]
  {
    assert k > 0 ==> ns[..k][0] == ns[0];
  }

  lemma NotNeighbour(s: Scene, k: nat, l: nat)
    requires k <= |s.ns| && 0 < l <= |s.nodes| && Matched(s, k, l) && s.nodes[l - 1] !in s.w
    ensures Matched(s, k, l - 1)
  {
    assert s.nodes[..l] == s.nodes[..l - 1] + [s.nodes[l - 1]];
  }

  lemma ShowsParts(s: Scene, edges: seq<Edge>)
    requires ShowsAll(s, edges)
    ensures s.Valid() && Ascending(s.nodes) && Ascending(s.ns)
    ensures forall n: NodeId :: n in s.w <==> Adjacent(edges, s.node, n)
    ensures forall n: NodeId :: n in s.w ==> s.w[n] == WeightBetween(edges, s.node, n)
  {
  }

  /** The last of these nodes, if it is a neighbour, is the last of these neighbours. */
  lemma LastNeighbour(s: Scene, k: nat, l: nat)
    requires k <= |s.ns| && 0 < l <= |s.nodes| && Ascending(s.nodes) && Ascending(s.ns) && s.nodes[l - 1] in s.w
    requires Matched(s, k, l)
    ensures k > 0 && s.ns[k - 1] == s.nodes[l - 1] && Matched(s, k - 1, l - 1)
  {
    FilteredLast(s.ns[..k], s.w.Keys, s.nodes[..l]);
    assert s.ns[..k][..k - 1] == s.ns[..k - 1] && s.nodes[..l][..l - 1] == s.nodes[..l - 1];
  }

  lemma ExpectedAdds(j: real, k: real, l: real, total: real)
    requires total != 0.0
    ensures Expected(j, k + l, total) == Expected(j, k, total) + Expected(j, l, total)
    ensures Expected(j, 0.0, total) == 0.0
    ensures Expected(j, k, total) == Expected(k, j, total)
  {
    assert j * (k + l) == j * k + j * l;
  }

  lemma {:induction false} OthersSplit(s: Scene, edges: seq<Edge>, c: nat, k: nat)
    requires ShowsAll(s, edges) && k <= |s.nodes|
    ensures ToOthers(ExcessOf(edges, s.total), s.nodes, s.m, s.node, c, k) ==
            WeightToRest(s, edges, c, k) - Expected(Incident(edges, s.node), s.Sigma(c, k), s.total)
  {
    hide Incident, WeightBetween, Expected, IsNeighbourhood, Ascending;
    var d, total := Incident(edges, s.node), s.total;
    if k == 0 {
      ExpectedAdds(d, 0.0, 0.0, total);
    } else {
      OthersSplit(s, edges, c, k - 1);
      var n := s.nodes[k - 1];
      ExpectedAdds(d, s.Sigma(c, k - 1), Incident(edges, n), total);
    }
  }

  lemma ExcessSymmetric(edges: seq<Edge>, total: real)
    requires total != 0.0
    ensures forall a, b :: ExcessOf(edges, total)(a, b) == ExcessOf(edges, total)(b, a)
  {
    hide Incident, WeightBetween, Expected;
    forall a: NodeId, b: NodeId
      ensures ExcessOf(edges, total)(a, b) == ExcessOf(edges, total)(b, a)
    {
      WeightIsSymmetric(edges, a, b);
      ExpectedAdds(Incident(edges, a), Incident(edges, b), 0.0, total);
    }
  }

  lemma OthersAreShare(s: Scene, edges: seq<Edge>, c: nat)
    requires ShowsAll(s, edges)
    ensures ToOthers(ExcessOf(edges, s.total), s.nodes, s.m, s.node, c, |s.nodes|) == s.total * Share(s, c)
  {
    hide Incident, WeightBetween, ToOthers, WeightToRest, ToRest, Scene.Sigma, Expected, ExcessOf;
    OthersSplit(s, edges, c, |s.nodes|);
    assert s.ns[..|s.ns|] == s.ns && s.nodes[..|s.nodes|] == s.nodes;
    RestOfNodes(s, edges, c, |s.ns|, |s.nodes|);
    GainScales(ToRest(s, c, |s.ns|), s.Sigma(c, |s.nodes|), s.degree[s.node], s.total);
  }

  lemma GainScales(toC: real, sigma: real, degree: real, total: real)
    requires total != 0.0
    ensures total * Gain(toC, sigma, degree, total) == toC - Expected(degree, sigma, total)
  {
    var x := sigma * degree;
    assert total * (toC / total) == toC;
    HalfOf(x, total);
    assert degree * sigma == x;
    assert total * (toC / total - x / (2.0 * total * total)) == total * (toC / total) - total * (x / (2.0 * total * total));
  }

  lemma HalfOf(x: real, total: real)
    requires total != 0.0
    ensures total * (x / (2.0 * total * total)) == x / (2.0 * total)
  {
    var y := x / (2.0 * total * total);
    assert 2.0 * total * total != 0.0;
    assert y * (2.0 * total * total) == x;
    assert (total * y) * (2.0 * total) == x;
  }

  /** Moving the node of a scene changes modularity by exactly what the estimate gives for the new
      community less what it gives for the old one. */
  lemma MoveChangesModularity(s: Scene, edges: seq<Edge>, to: nat)
    requires ShowsAll(s, edges)
    ensures Modularity(edges, s.total, s.nodes, s.m[s.node := to]) - Modularity(edges, s.total, s.nodes, s.m)
            == Share(s, to) - Share(s, s.m[s.node])
  {
    hide ExcessOf, Pairs, ToOthers, Share, Incident, IsNeighbourhood;
    var n, f, total := |s.nodes|, ExcessOf(edges, s.total), s.total;
    ExcessSymmetric(edges, total);
    PairsMove(f, s.nodes, s.m, s.node, to, n);
    assert s.nodes[..n] == s.nodes;
    OthersAreShare(s, edges, to);
    OthersAreShare(s, edges, s.m[s.node]);
    Quotient(Pairs(f, s.nodes, s.m[s.node := to], n), Pairs(f, s.nodes, s.m, n), total, Share(s, to),
             Share(s, s.m[s.node]));
  }

  lemma Quotient(p: real, q: real, total: real, x: real, y: real)
    requires total != 0.0 && p == q + 2.0 * (total * x - total * y)
    ensures p / (2.0 * total) - q / (2.0 * total) == x - y
  {
    var d := 2.0 * total;
    assert p == q + d * (x - y);
    assert (p / d) * d == p && (q / d) * d == q;
    assert (p / d - q / d - (x - y)) * d == 0.0;
  }

  /** The greedy choice: no move to another neighbouring community gives a higher modularity. It
      raises modularity exactly if its gain exceeds what the estimate gives for the community the node
      leaves, which the code never looks at. */
  lemma GreedyMove(s: Scene, edges: seq<Edge>, best: nat)
    requires ShowsAll(s, edges) && s.Best(best) && best != s.m[s.node]
    ensures forall c: nat :: s.Candidate(c) ==>
              Modularity(edges, s.total, s.nodes, s.m[s.node := c]) <= Modularity(edges, s.total, s.nodes, s.m[s.node := best])
    ensures Modularity(edges, s.total, s.nodes, s.m[s.node := best]) > Modularity(edges, s.total, s.nodes, s.m) <==>
            s.GainOf(best) > Share(s, s.m[s.node])
  {
    hide Modularity, ShowsAll, Gain, Scene.ToCommunity, Scene.Sigma, ToRest;
    assert s.Valid() by { ShowsParts(s, edges); }
    MoveChangesModularity(s, edges, best);
    ShareIsGain(s, best);
    forall c: nat | s.Candidate(c)
      ensures Modularity(edges, s.total, s.nodes, s.m[s.node := c]) <= Modularity(edges, s.total, s.nodes, s.m[s.node := best])
    {
      MoveChangesModularity(s, edges, c);
      ShareIsGain(s, c);
    }
  }

  /** A node that stays: no move to a neighbouring community raises modularity, if the estimate for
      its own community is not negative. */
  lemma RestingNode(s: Scene, edges: seq<Edge>)
    requires ShowsAll(s, edges) && s.Best(s.m[s.node])
    requires Share(s, s.m[s.node]) >= 0.0
    ensures forall c: nat :: s.Candidate(c) ==>
              Modularity(edges, s.total, s.nodes, s.m[s.node := c]) <= Modularity(edges, s.total, s.nodes, s.m)
  {
    hide Modularity, ShowsAll, Gain, Scene.ToCommunity, Scene.Sigma, ToRest;
    assert s.Valid() by { ShowsParts(s, edges); }
    forall c: nat | s.Candidate(c)
      ensures Modularity(edges, s.total, s.nodes, s.m[s.node := c]) <= Modularity(edges, s.total, s.nodes, s.m)
    {
      MoveChangesModularity(s, edges, c);
      ShareIsGain(s, c);
    }
  }

  // ---------------------------------------------------------------------------------------
  // The moves of a detection
  // ---------------------------------------------------------------------------------------

  /** A graph as the detection sees it when it gets past the first pass. */
  ghost predicate Proper(edges: seq<Edge>, nodes: seq<NodeId>) {
    Ascending(nodes) && Registered(nodes, edges) && SettingOf(edges, nodes).total != 0.0
  }

  /** Every scene of a run shows the whole graph. */
  lemma SceneShowsAll(edges: seq<Edge>, nodes: seq<NodeId>, s: Scene, node: NodeId, m: Membership)
    requires Proper(edges, nodes) && node in nodes
    requires InScene(s, SettingOf(edges, nodes), node, m) && Shows(s, edges)
    ensures ShowsAll(s, edges)
  {
    hide Adjacent, WeightBetween, Incident, EndsAt, Ascending;
    assert Closed(nodes, edges, node);
  }

  ghost function QOf(edges: seq<Edge>, nodes: seq<NodeId>, m: Membership): real
    requires SettingOf(edges, nodes).total != 0.0 && forall n :: n in nodes ==> n in m
  {
    Modularity(edges, SettingOf(edges, nodes).total, nodes, m)
  }

  /** The scene of one visit, and what the visit does to modularity. A move is the best of all moves to
      another neighbouring community, and raises modularity exactly if its gain exceeds the estimate for
      the community that is left. A node stays only where no such move has a positive gain. */
  ghost predicate IsGreedy(edges: seq<Edge>, nodes: seq<NodeId>, s: Scene, m: Membership, m': Membership)
    requires SettingOf(edges, nodes).total != 0.0 && forall n :: n in nodes ==> n in m && n in m'
  {
    && ShowsAll(s, edges) && s.m == m && s.nodes == nodes && s.node in m'
    && s.total == SettingOf(edges, nodes).total && m' == m[s.node := m'[s.node]]
    && QOf(edges, nodes, m') - QOf(edges, nodes, m) == Share(s, m'[s.node]) - Share(s, m[s.node])
    && (if m' == m then forall c: nat :: s.Candidate(c) ==> s.GainOf(c) <= 0.0
        else
          && s.GainOf(m'[s.node]) == Share(s, m'[s.node]) > 0.0
          && (QOf(edges, nodes, m') > QOf(edges, nodes, m) <==> s.GainOf(m'[s.node]) > Share(s, m[s.node]))
          && forall c: nat :: s.Candidate(c) ==> QOf(edges, nodes, m[s.node := c]) <= QOf(edges, nodes, m'))
  }

  lemma VisitIsGreedy(edges: seq<Edge>, nodes: seq<NodeId>, node: NodeId, m: Membership, m': Membership)
    requires Proper(edges, nodes) && node in nodes && OneMove(SettingOf(edges, nodes), node, m, m')
    ensures forall n :: n in nodes ==> n in m && n in m'
    ensures exists s: Scene :: s.node == node && IsGreedy(edges, nodes, s, m, m')
  {
    hide Modularity, Share, Gain, Scene.GainOf, Scene.Candidate, IsNeighbourhood, Incident, EndsAt, Ascending, Registered;
    var s: Scene :| InScene(s, SettingOf(edges, nodes), node, m) && Moved(s, edges, m');
    SceneShowsAll(edges, nodes, s, node, m);
    var best: nat :| s.Best(best) && m' == m[node := best];
    MoveChangesModularity(s, edges, best);
    if best == m[node] {
      assert m' == m;
    } else {
      GreedyMove(s, edges, best);
      ShareIsGain(s, best);
    }
    assert IsGreedy(edges, nodes, s, m, m');
  }

  /** Every visit of every pass of a detection is greedy. */
  lemma DetectionIsGreedy(edges: seq<Edge>, nodes: seq<NodeId>, start: Membership, passes: seq<seq<Membership>>,
                          p: nat, i: nat)
    requires Proper(edges, nodes) && IsDetection(SettingOf(edges, nodes), start, passes)
    requires p < |passes| && i < |nodes|
    ensures |passes[p]| == |nodes| + 1
    ensures forall n :: n in nodes ==> n in passes[p][i] && n in passes[p][i + 1]
    ensures exists s: Scene :: s.node == nodes[i] && IsGreedy(edges, nodes, s, passes[p][i], passes[p][i + 1])
  {
    hide Proper, OneMove, IsGreedy, Quiet;
    var v := SettingOf(edges, nodes);
    assert IsPass(v, passes[p]);
    assert OneMove(v, v.nodes[i], passes[p][i], passes[p][i + 1]);
    VisitIsGreedy(edges, nodes, nodes[i], passes[p][i], passes[p][i + 1]);
  }

  // ---------------------------------------------------------------------------------------
  // A move that lowers modularity
  // ---------------------------------------------------------------------------------------

  /** A chain: a heavy edge and a light one. */
  const CHAIN: seq<Edge> := [Edge(0, 1, 0, 10.0), Edge(1, 2, 0, 1.0)]
  const DEGREES: map<NodeId, real> := map[0 := 10.0, 1 := 11.0, 2 := 1.0]

  const CHAIN_NODES: seq<NodeId> := [0, 1, 2]

  const CHAIN_SETTING: Setting := Setting(CHAIN, CHAIN_NODES, DEGREES, 11.0)

  /** The first pass over the chain: before each visit and after the last. */
  const CHAIN_PASS: seq<Membership> :=
    [map[0 := 0, 1 := 1, 2 := 2], map[0 := 1, 1 := 1, 2 := 2], map[0 := 1, 1 := 2, 2 := 2], map[0 := 1, 1 := 2, 2 := 2]]

  /** What the three visits see. */
  const FIRST: Scene := Scene(0, [1], map[1 := 10.0], CHAIN_NODES, DEGREES, CHAIN_PASS[0], 11.0)
  const SECOND: Scene := Scene(1, [0, 2], map[0 := 10.0, 2 := 1.0], CHAIN_NODES, DEGREES, CHAIN_PASS[1], 11.0)
  const THIRD: Scene := Scene(2, [1], map[1 := 1.0], CHAIN_NODES, DEGREES, CHAIN_PASS[2], 11.0)

  lemma ChainSums(a: NodeId, b: NodeId)
    ensures WeightBetween(CHAIN, a, b) == Outward(CHAIN[0], a, b) + Outward(CHAIN[0], b, a)
                                          + Outward(CHAIN[1], a, b) + Outward(CHAIN[1], b, a)
    ensures Adjacent(CHAIN, a, b) <==> (a == 0 && b == 1) || (a == 1 && b == 0) || (a == 1 && b == 2) || (a == 2 && b == 1)
    ensures Incident(CHAIN, a) == (if a == 0 then 10.0 else if a == 1 then 11.0 else if a == 2 then 1.0 else 0.0)
  {
    var front := CHAIN[..1];
    assert front == [CHAIN[0]] && front[..0] == [];
    assert CHAIN[0] in CHAIN && CHAIN[1] in CHAIN;
    assert WeightBetween([], a, b) == 0.0 && Incident([], a) == 0.0;
    assert WeightBetween(front, a, b) == Outward(CHAIN[0], a, b) + Outward(CHAIN[0], b, a);
    assert Incident(front, a) == if a == 0 || a == 1 then 10.0 else 0.0;
  }

  /** Each node has exactly the neighbours of the chain. */
  lemma ChainNeighbours()
    ensures forall a: NodeId, b: NodeId :: Adjacent(CHAIN, a, b) <==>
              (a == 0 && b == 1) || (a == 1 && b == 0) || (a == 1 && b == 2) || (a == 2 && b == 1)
  {
    forall a: NodeId, b: NodeId
      ensures Adjacent(CHAIN, a, b) <==> (a == 0 && b == 1) || (a == 1 && b == 0) || (a == 1 && b == 2) || (a == 2 && b == 1)
    {
      ChainSums(a, b);
    }
  }

  lemma ChainDegrees()
    ensures forall n :: n in CHAIN_NODES ==> DEGREES[n] == Incident(CHAIN, n)
  {
    hide Incident;
    ChainSums(0, 0);
    ChainSums(1, 0);
    ChainSums(2, 0);
  }

  lemma FirstNeighbours()
    ensures IsNeighbourhood(CHAIN, 0, map[1 := 10.0])
  {
    hide Adjacent, WeightBetween;
    ChainNeighbours();
    ChainSums(0, 1);
  }

  lemma SecondNeighbours()
    ensures IsNeighbourhood(CHAIN, 1, map[0 := 10.0, 2 := 1.0])
  {
    hide Adjacent, WeightBetween;
    ChainNeighbours();
    ChainSums(1, 0);
    ChainSums(1, 2);
  }

  lemma ThirdNeighbours()
    ensures IsNeighbourhood(CHAIN, 2, map[1 := 1.0])
  {
    hide Adjacent, WeightBetween;
    ChainNeighbours();
    ChainSums(2, 1);
  }

  lemma FirstShown()
    ensures ShowsAll(FIRST, CHAIN)
  {
    hide IsNeighbourhood, Incident;
    ChainDegrees();
    FirstNeighbours();
  }

  lemma SecondShown()
    ensures ShowsAll(SECOND, CHAIN)
  {
    hide IsNeighbourhood, Incident;
    ChainDegrees();
    SecondNeighbours();
  }

  lemma ThirdShown()
    ensures ShowsAll(THIRD, CHAIN)
  {
    hide IsNeighbourhood, Incident;
    ChainDegrees();
    ThirdNeighbours();
  }

  lemma ThirdStays()
    requires THIRD.Valid()
    ensures THIRD.Best(2)
  {
    assert forall c: nat :: !THIRD.Candidate(c);
  }

  /** The code's degrees and total are those of the scenes. */
  lemma ChainSetting()
    ensures SettingOf(CHAIN, CHAIN_NODES) == CHAIN_SETTING
    ensures Alone(CHAIN_NODES) == CHAIN_PASS[0]
  {
    hide Incident, EndsAt;
    ChainSums(0, 0);
    ChainSums(1, 0);
    ChainSums(2, 0);
    assert SettingOf(CHAIN, CHAIN_NODES).degree == DEGREES;
    ChainEnds();
    assert CHAIN_NODES[..2] == [0, 1] && CHAIN_NODES[..2][..1] == [0] && [0 as NodeId][..0] == [];
    assert Alone([0]) == map[0 := 0] && Alone([0, 1]) == map[0 := 0, 1 := 1];
  }

  lemma ChainEnds()
    ensures EndsAt(CHAIN, Elements(CHAIN_NODES)) == 22.0
  {
    assert forall e :: e in CHAIN ==> e.from in Elements(CHAIN_NODES) && e.to in Elements(CHAIN_NODES);
    BothEndsCount(CHAIN, Elements(CHAIN_NODES));
    assert CHAIN[..1] == [CHAIN[0]] && CHAIN[..1][..0] == [];
    assert TotalWeight(CHAIN[..1]) == 10.0;
  }

  lemma FirstMoves()
    requires FIRST.Valid()
    ensures FIRST.Best(1) && FIRST.m[0 := 1] == SECOND.m
  {
    var s := FIRST;
    assert s.ToCommunity(1, 0) == 0.0 && s.ToCommunity(1, 1) == 10.0;
    assert s.Sigma(1, 0) == 0.0 && s.Sigma(1, 1) == 0.0 && s.Sigma(1, 2) == 11.0 && s.Sigma(1, 3) == 11.0;
    assert s.GainOf(1) == 10.0 / 11.0 - 110.0 / 242.0;
    assert 1 in s.ns && s.m[1] == 1;
    assert forall c: nat :: s.Candidate(c) ==> c == 1;
  }

  lemma SecondMoves()
    requires SECOND.Valid()
    ensures SECOND.Best(2) && SECOND.GainOf(2) == 1.0 / 22.0 && Share(SECOND, 1) == 5.0 / 11.0
  {
    var s := SECOND;
    assert s.ToCommunity(2, 0) == 0.0 && s.ToCommunity(2, 1) == 0.0 && s.ToCommunity(2, 2) == 1.0;
    assert s.Sigma(2, 0) == 0.0 && s.Sigma(2, 1) == 0.0 && s.Sigma(2, 2) == 0.0 && s.Sigma(2, 3) == 1.0;
    assert ToRest(s, 1, 0) == 0.0 && ToRest(s, 1, 1) == 10.0 && ToRest(s, 1, 2) == 10.0;
    assert s.Sigma(1, 0) == 0.0 && s.Sigma(1, 1) == 10.0 && s.Sigma(1, 2) == 10.0 && s.Sigma(1, 3) == 10.0;
    assert 2 in s.ns && s.m[2] == 2;
    assert forall c: nat :: s.Candidate(c) ==> c == 2;
  }

  lemma SceneIsMove(s: Scene, v: Setting, best: nat, m': Membership)
    requires Shows(s, v.edges) && s.nodes == v.nodes && s.degree == v.degree && s.total == v.total
    requires s.Best(best) && m' == s.m[s.node := best]
    ensures OneMove(v, s.node, s.m, m')
  {
    hide Shows, Scene.Best;
    assert InScene(s, v, s.node, s.m) && Moved(s, v.edges, m');
  }

  lemma FirstVisit()
    ensures OneMove(CHAIN_SETTING, 0, CHAIN_PASS[0], CHAIN_PASS[1])
  {
    hide OneMove, Scene.Best, IsNeighbourhood;
    FirstShown();
    FirstMoves();
    SceneIsMove(FIRST, CHAIN_SETTING, 1, CHAIN_PASS[1]);
  }

  lemma SecondVisit()
    ensures OneMove(CHAIN_SETTING, 1, CHAIN_PASS[1], CHAIN_PASS[2])
  {
    hide OneMove, Scene.Best, IsNeighbourhood, Share, Gain;
    SecondShown();
    SecondMoves();
    SceneIsMove(SECOND, CHAIN_SETTING, 2, CHAIN_PASS[2]);
  }

  lemma ThirdVisit()
    ensures OneMove(CHAIN_SETTING, 2, CHAIN_PASS[2], CHAIN_PASS[3])
  {
    hide OneMove, Scene.Best, IsNeighbourhood;
    ThirdShown();
    ThirdStays();
    SceneIsMove(THIRD, CHAIN_SETTING, 2, CHAIN_PASS[3]);
  }

  lemma ChainPass()
    ensures IsPass(SettingOf(CHAIN, CHAIN_NODES), CHAIN_PASS)
  {
    hide OneMove, SettingOf;
    ChainSetting();
    FirstVisit();
    SecondVisit();
    ThirdVisit();
  }

  lemma SecondMoveLowers()
    ensures Modularity(CHAIN, 11.0, CHAIN_NODES, CHAIN_PASS[2]) < Modularity(CHAIN, 11.0, CHAIN_NODES, CHAIN_PASS[1])
  {
    hide Modularity, Share, Gain, Scene.ToCommunity, Scene.Sigma, Scene.Best, ShowsAll;
    SecondShown();
    ShowsParts(SECOND, CHAIN);
    SecondMoves();
    MoveChangesModularity(SECOND, CHAIN, 2);
    ShareIsGain(SECOND, 2);
    assert CHAIN_PASS[1][1 := 2] == CHAIN_PASS[2];
  }

  /** The first pass of any detection on the chain moves node 0 to node 1 and then node 1 to node 2,
      and the second of these moves lowers modularity. */
  lemma MoveLowersModularity()
    ensures SettingOf(CHAIN, CHAIN_NODES).total != 0.0
    ensures forall passes :: IsDetection(SettingOf(CHAIN, CHAIN_NODES), Alone(CHAIN_NODES), passes) ==>
              passes[0] == CHAIN_PASS
    ensures QOf(CHAIN, CHAIN_NODES, CHAIN_PASS[2]) < QOf(CHAIN, CHAIN_NODES, CHAIN_PASS[1])
  {
    hide Modularity, Share, Gain, Scene.ToCommunity, Scene.Sigma, Scene.Best, ShowsAll, IsPass, Quiet, SettingOf, Alone;
    ChainSetting();
    ChainPass();
    var v := SettingOf(CHAIN, CHAIN_NODES);
    forall passes | IsDetection(v, Alone(CHAIN_NODES), passes)
      ensures passes[0] == CHAIN_PASS
    {
      assert IsPass(v, passes[0]) && BeginsAt(passes[0], CHAIN_PASS[0]);
      WholePassUnique(v, CHAIN_PASS, passes[0]);
    }
    SecondMoveLowers();
  }
}
