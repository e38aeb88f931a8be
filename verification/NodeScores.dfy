/** The scores of a multi-hop search by node: what they are does not depend on the order in which the
    hash map lists the nodes. */
module NodeScores {
  import opened GraphStore
  import opened Sequences
  import V = Vectors
  import P = PageRank
  import PI = PowerIteration
  import M = MultiHop

  /** A number for each node. */
  type ByNode = NodeId -> real

  // ---------------------------------------------------------------------------------------
  // Sums over nodes
  // ---------------------------------------------------------------------------------------

  ghost function SumBy(f: ByNode, ns: seq<NodeId>, k: nat): real
    requires k <= |ns|
  {
    if k == 0 then 0.0 else SumBy(f, ns, k - 1) + f(ns[k - 1])
  }

  /** Two lists of the same nodes, each node once. */
  ghost predicate SameNodes(ns: seq<NodeId>, ms: seq<NodeId>) {
    Distinct(ns) && Distinct(ms) && forall n :: n in ns <==> n in ms
  }

  lemma {:induction false} SumOfPrefix(f: ByNode, ns: seq<NodeId>, ms: seq<NodeId>, k: nat)
    requires k <= |ns| && k <= |ms| && ns[..k] == ms[..k]
    ensures SumBy(f, ns, k) == SumBy(f, ms, k)
  {
    if k > 0 {
      assert ns[..k - 1] == ns[..k][..k - 1] && ms[..k - 1] == ms[..k][..k - 1];
      assert ns[k - 1] == ns[..k][k - 1] && ms[k - 1] == ms[..k][k - 1];
      SumOfPrefix(f, ns, ms, k - 1);
    }
  }

  function Without(ns: seq<NodeId>, i: nat): seq<NodeId>
    requires i < |ns|
  {
    ns[..i] + ns[i + 1..]
  }

  lemma {:induction false} SumWithout(f: ByNode, ns: seq<NodeId>, i: nat, k: nat)
    requires i < k <= |ns|
    ensures SumBy(f, ns, k) == SumBy(f, Without(ns, i), k - 1) + f(ns[i])
    decreases k
  {
    var w := Without(ns, i);
    if i == k - 1 {
      assert w[..i] == ns[..i];
      SumOfPrefix(f, w, ns, i);
    } else {
      SumWithout(f, ns, i, k - 1);
      assert w[k - 2] == ns[k - 1];
    }
  }

  lemma WithoutSame(ns: seq<NodeId>, ms: seq<NodeId>, i: nat)
    requires SameNodes(ns, ms) && ns != [] && i < |ms| && ms[i] == ns[|ns| - 1]
    ensures SameNodes(ns[..|ns| - 1], Without(ms, i))
  {
    var x, f, w := ms[i], ns[..|ns| - 1], Without(ms, i);
    assert forall j :: 0 <= j < |w| ==> w[j] == ms[if j < i then j else j + 1];
    forall n
      ensures n in f <==> n in w
    {
      assert n in ns <==> n in f || n == x by { assert ns == f + [x]; }
      assert n in ms <==> n in w || n == x by { assert ms == ms[..i] + [x] + ms[i + 1..]; }
      assert x !in f && x !in w;
    }
  }

  /** A sum over nodes does not depend on their order. */
  lemma {:induction false} SumPermutes(f: ByNode, ns: seq<NodeId>, ms: seq<NodeId>)
    requires SameNodes(ns, ms)
    ensures SumBy(f, ns, |ns|) == SumBy(f, ms, |ms|)
    decreases |ns|
  {
    hide Distinct, Without;
    assert ms != [] ==> ms[0] in ns;
    if ns != [] {
      var x, front := ns[|ns| - 1], ns[..|ns| - 1];
      assert x in ms;
      var i :| 0 <= i < |ms| && ms[i] == x;
      WithoutSame(ns, ms, i);
      SumPermutes(f, front, Without(ms, i));
      SumOfPrefix(f, front, ns, |front|);
      SumWithout(f, ms, i, |ms|);
      WithoutLength(ms, i);
    }
  }

  lemma WithoutLength(ns: seq<NodeId>, i: nat)
    requires i < |ns|
    ensures |Without(ns, i)| == |ns| - 1
  {
  }

  lemma {:induction false} SumCongruent(f: ByNode, g: ByNode, ns: seq<NodeId>, k: nat)
    requires k <= |ns| && forall n :: n in ns ==> f(n) == g(n)
    ensures SumBy(f, ns, k) == SumBy(g, ns, k)
  {
    if k > 0 {
      SumCongruent(f, g, ns, k - 1);
    }
  }

  // ---------------------------------------------------------------------------------------
  // The walk by node
  // ---------------------------------------------------------------------------------------

  /** The weight from `a` to all listed nodes. */
  ghost function Degree(edges: seq<Edge>, ids: seq<NodeId>, a: NodeId): real {
    SumBy((b: NodeId) => WeightBetween(edges, a, b), ids, |ids|)
  }

  /** What `b` receives of the mass of `a`. */
  ghost function Entry(edges: seq<Edge>, ids: seq<NodeId>, t: ByNode, a: NodeId, b: NodeId): real {
    if Degree(edges, ids, a) <= 0.0 then t(b) else WeightBetween(edges, a, b) / Degree(edges, ids, a)
  }

  ghost function Active(edges: seq<Edge>, ids: seq<NodeId>, f: ByNode, a: NodeId): real {
    if Degree(edges, ids, a) <= 0.0 && f(a) < 0.0 then 0.0 else f(a)
  }

  ghost function Sent(edges: seq<Edge>, ids: seq<NodeId>, t: ByNode, f: ByNode, b: NodeId): ByNode {
    (a: NodeId) => Active(edges, ids, f, a) * Entry(edges, ids, t, a, b)
  }

  ghost function Step(edges: seq<Edge>, ids: seq<NodeId>, t: ByNode, alpha: real, f: ByNode): ByNode {
    (b: NodeId) => alpha * t(b) + (1.0 - alpha) * SumBy(Sent(edges, ids, t, f, b), ids, |ids|)
  }

  ghost function After(edges: seq<Edge>, ids: seq<NodeId>, t: ByNode, alpha: real, k: nat): ByNode {
    if k == 0 then t else Step(edges, ids, t, alpha, After(edges, ids, t, alpha, k - 1))
  }

  lemma DegreePermutes(edges: seq<Edge>, ids: seq<NodeId>, jds: seq<NodeId>, a: NodeId)
    requires SameNodes(ids, jds)
    ensures Degree(edges, ids, a) == Degree(edges, jds, a)
  {
    hide WeightBetween;
    SumPermutes((b: NodeId) => WeightBetween(edges, a, b), ids, jds);
  }

  lemma SentPermutes(edges: seq<Edge>, ids: seq<NodeId>, jds: seq<NodeId>, t: ByNode, f: ByNode, g: ByNode, b: NodeId)
    requires SameNodes(ids, jds) && forall n :: f(n) == g(n)
    ensures SumBy(Sent(edges, ids, t, f, b), ids, |ids|) == SumBy(Sent(edges, jds, t, g, b), jds, |jds|)
  {
    hide Degree, SumBy;
    forall a | a in ids
      ensures Sent(edges, ids, t, f, b)(a) == Sent(edges, jds, t, g, b)(a)
    {
      DegreePermutes(edges, ids, jds, a);
    }
    SumCongruent(Sent(edges, ids, t, f, b), Sent(edges, jds, t, g, b), ids, |ids|);
    SumPermutes(Sent(edges, jds, t, g, b), ids, jds);
  }

  /** The scores by node do not depend on the order of the nodes. */
  lemma {:induction false} AfterPermutes(edges: seq<Edge>, ids: seq<NodeId>, jds: seq<NodeId>, t: ByNode, alpha: real,
                                         k: nat)
    requires SameNodes(ids, jds)
    ensures forall n :: After(edges, ids, t, alpha, k)(n) == After(edges, jds, t, alpha, k)(n)
  {
    hide Sent, SumBy, SameNodes;
    if k > 0 {
      AfterPermutes(edges, ids, jds, t, alpha, k - 1);
      var f, g := After(edges, ids, t, alpha, k - 1), After(edges, jds, t, alpha, k - 1);
      forall n
        ensures Step(edges, ids, t, alpha, f)(n) == Step(edges, jds, t, alpha, g)(n)
      {
        SentPermutes(edges, ids, jds, t, f, g, n);
      }
    }
  }

  // ---------------------------------------------------------------------------------------
  // The vectors of the search, by node
  // ---------------------------------------------------------------------------------------

  /** The vector `p` holds the number of each node at its index. */
  ghost predicate Holds(p: V.Vector, ids: seq<NodeId>, f: ByNode) {
    |p| == |ids| && forall i :: 0 <= i < |p| ==> p[i] == f(ids[i])
  }

  lemma WeightOnIsWeight(graph: P.Graph, edges: seq<Edge>, ids: seq<NodeId>, i: nat, j: nat)
    requires M.Shows(graph, edges, ids) && i < |ids| && j < |ids|
    ensures P.WeightOn(graph[i], |graph[i]|, j) == WeightBetween(edges, ids[i], ids[j])
  {
    hide WeightBetween, Adjacent;
    assert M.IsRow(graph[i], edges, ids, ids[i]);
    var es := graph[i];
    P.WeightOnOne(es, |es|, j);
    if M.Mentions(es, j) {
      var e :| e in es && e.to == j;
      var k :| 0 <= k < |es| && es[k] == e;
    } else {
      NoWeight(edges, ids[i], ids[j]);
      assert forall k :: 0 <= k < |es| ==> es[k] in es;
    }
  }

  lemma {:induction false} SumIsSumBy(v: V.Vector, ids: seq<NodeId>, f: ByNode, k: nat)
    requires Holds(v, ids, f) && k <= |v|
    ensures V.SumTo(v, k) == SumBy(f, ids, k)
  {
    if k > 0 {
      SumIsSumBy(v, ids, f, k - 1);
    }
  }

  lemma OutWeightIsDegree(graph: P.Graph, edges: seq<Edge>, ids: seq<NodeId>, i: nat)
    requires M.Shows(graph, edges, ids) && P.ValidGraph(graph) && i < |ids|
    ensures P.OutWeight(graph[i]) == Degree(edges, ids, ids[i])
  {
    hide WeightBetween, SumBy;
    var es, n := graph[i], |ids|;
    P.OutWeightIsSum(es, |es|, n);
    var f := (b: NodeId) => WeightBetween(edges, ids[i], b);
    forall j | 0 <= j < n
      ensures P.WeightsOn(es, |es|, n)[j] == f(ids[j])
    {
      WeightOnIsWeight(graph, edges, ids, i, j);
    }
    SumIsSumBy(P.WeightsOn(es, |es|, n), ids, f, n);
  }

  lemma RowIsEntry(graph: P.Graph, edges: seq<Edge>, ids: seq<NodeId>, t: V.Vector, f: ByNode, i: nat, j: nat)
    requires M.Shows(graph, edges, ids) && P.ValidGraph(graph) && Holds(t, ids, f) && i < |ids| && j < |ids|
    ensures P.Rows(graph, t)[i][j] == Entry(edges, ids, f, ids[i], ids[j])
  {
    hide WeightBetween, Degree, P.Spread, P.OutWeight;
    OutWeightIsDegree(graph, edges, ids, i);
    if !P.Dangling(graph[i]) {
      P.SpreadAt(graph[i], |graph[i]|, P.OutWeight(graph[i]), |ids|, j);
      WeightOnIsWeight(graph, edges, ids, i, j);
    }
  }

  lemma KeptIsActive(graph: P.Graph, edges: seq<Edge>, ids: seq<NodeId>, p: V.Vector, f: ByNode, i: nat)
    requires M.Shows(graph, edges, ids) && P.ValidGraph(graph) && Holds(p, ids, f) && i < |ids|
    ensures P.Kept(graph, p)[i] == Active(edges, ids, f, ids[i])
  {
    hide Degree, P.OutWeight;
    OutWeightIsDegree(graph, edges, ids, i);
  }

  /** What node `j` has received from the first `k` nodes. */
  lemma {:induction false} WalkIsSum(rows: PI.Matrix, q: V.Vector, ids: seq<NodeId>, g: ByNode, j: nat, k: nat)
    requires PI.Square(rows, |q|) && |q| == |ids| && j < |q| && k <= |q|
    requires forall i :: 0 <= i < |q| ==> q[i] * rows[i][j] == g(ids[i])
    ensures PI.Walk(rows, q, k)[j] == SumBy(g, ids, k)
  {
    if k > 0 {
      WalkIsSum(rows, q, ids, g, j, k - 1);
    }
  }

  lemma NextIsStep(graph: P.Graph, edges: seq<Edge>, ids: seq<NodeId>, t: V.Vector, tf: ByNode, alpha: real,
                   p: V.Vector, f: ByNode)
    requires M.Shows(graph, edges, ids) && P.ValidGraph(graph) && Holds(t, ids, tf) && Holds(p, ids, f)
    ensures Holds(PI.Next(P.Rows(graph, t), t, alpha, P.Kept(graph, p)), ids, Step(edges, ids, tf, alpha, f))
  {
    hide P.Rows, P.Kept, PI.Walk, SumBy, Entry, Active, M.Shows;
    ShowsLength(graph, edges, ids);
    var rows, q := P.Rows(graph, t), P.Kept(graph, p);
    forall j | 0 <= j < |ids|
      ensures PI.Next(rows, t, alpha, q)[j] == Step(edges, ids, tf, alpha, f)(ids[j])
    {
      var g := Sent(edges, ids, tf, f, ids[j]);
      forall i | 0 <= i < |ids|
        ensures q[i] * rows[i][j] == g(ids[i])
      {
        KeptIsActive(graph, edges, ids, p, f, i);
        RowIsEntry(graph, edges, ids, t, tf, i, j);
      }
      WalkIsSum(rows, q, ids, g, j, |ids|);
    }
  }

  /** After any number of steps the vector holds the scores by node. */
  lemma {:induction false} ScoresAreAfter(graph: P.Graph, edges: seq<Edge>, ids: seq<NodeId>, t: V.Vector, tf: ByNode,
                                          alpha: real, k: nat)
    requires M.Shows(graph, edges, ids) && P.ValidGraph(graph) && Holds(t, ids, tf)
    ensures Holds(P.Scores(graph, t, alpha, k), ids, After(edges, ids, tf, alpha, k))
  {
    hide Step, P.Rows, P.Kept, PI.Next, M.Shows;
    if k > 0 {
      ScoresAreAfter(graph, edges, ids, t, tf, alpha, k - 1);
      NextIsStep(graph, edges, ids, t, tf, alpha, P.Scores(graph, t, alpha, k - 1), After(edges, ids, tf, alpha, k - 1));
    }
  }

  // ---------------------------------------------------------------------------------------
  // Where the iteration stops
  // ---------------------------------------------------------------------------------------

  ghost function Gap(f: ByNode, g: ByNode): ByNode {
    (n: NodeId) => V.Abs(f(n) - g(n))
  }

  lemma {:induction false} DistIsSum(p: V.Vector, q: V.Vector, ids: seq<NodeId>, f: ByNode, g: ByNode, k: nat)
    requires Holds(p, ids, f) && Holds(q, ids, g) && k <= |ids|
    ensures V.DistTo(p, q, k) == SumBy(Gap(f, g), ids, k)
  {
    if k > 0 {
      DistIsSum(p, q, ids, f, g, k - 1);
    }
  }

  /** Each step moves by the same distance in both orders. */
  lemma MovedPermutes(graph: P.Graph, graph': P.Graph, edges: seq<Edge>, ids: seq<NodeId>, jds: seq<NodeId>,
                      t: V.Vector, u: V.Vector, tf: ByNode, alpha: real, k: nat)
    requires M.Shows(graph, edges, ids) && P.ValidGraph(graph) && Holds(t, ids, tf)
    requires M.Shows(graph', edges, jds) && P.ValidGraph(graph') && Holds(u, jds, tf) && SameNodes(ids, jds)
    ensures P.Moved(graph, t, alpha, k) == P.Moved(graph', u, alpha, k)
  {
    hide P.Scores, After, SumBy, SameNodes, V.DistTo, M.Shows, Holds;
    HoldsLength(t, ids, tf);
    HoldsLength(u, jds, tf);
    ShowsLength(graph, edges, ids);
    ShowsLength(graph', edges, jds);
    var f, g := After(edges, ids, tf, alpha, k), After(edges, ids, tf, alpha, k + 1);
    var f', g' := After(edges, jds, tf, alpha, k), After(edges, jds, tf, alpha, k + 1);
    ScoresAreAfter(graph, edges, ids, t, tf, alpha, k);
    ScoresAreAfter(graph, edges, ids, t, tf, alpha, k + 1);
    ScoresAreAfter(graph', edges, jds, u, tf, alpha, k);
    ScoresAreAfter(graph', edges, jds, u, tf, alpha, k + 1);
    DistIsSum(P.Scores(graph, t, alpha, k), P.Scores(graph, t, alpha, k + 1), ids, f, g, |ids|);
    DistIsSum(P.Scores(graph', u, alpha, k), P.Scores(graph', u, alpha, k + 1), jds, f', g', |jds|);
    AfterPermutes(edges, ids, jds, tf, alpha, k);
    AfterPermutes(edges, ids, jds, tf, alpha, k + 1);
    SumCongruent(Gap(f, g), Gap(f', g'), ids, |ids|);
    SumPermutes(Gap(f', g'), ids, jds);
  }

  lemma HoldsLength(p: V.Vector, ids: seq<NodeId>, f: ByNode)
    requires Holds(p, ids, f)
    ensures |p| == |ids|
  {
  }

  lemma StopUnique(graph: P.Graph, graph': P.Graph, t: V.Vector, u: V.Vector, cfg: M.Config, k: nat, l: nat)
    requires P.ValidGraph(graph) && |t| == |graph| && P.ValidGraph(graph') && |u| == |graph'|
    requires forall i: nat :: P.Moved(graph, t, cfg.alpha, i) == P.Moved(graph', u, cfg.alpha, i)
    requires P.StopsAt(graph, t, cfg.alpha, cfg.maxIterations, cfg.tolerance, k)
    requires P.StopsAt(graph', u, cfg.alpha, cfg.maxIterations, cfg.tolerance, l)
    ensures k == l
  {
    hide P.Moved;
  }

  // ---------------------------------------------------------------------------------------
  // The starts by node
  // ---------------------------------------------------------------------------------------

  ghost function SharesBy(seeds: seq<NodeId>, share: real): ByNode {
    (n: NodeId) => if n in seeds then share else 0.0
  }

  lemma SharesHeld(ids: seq<NodeId>, seeds: seq<NodeId>)
    requires Distinct(ids) && M.Starts(ids, seeds) != []
    ensures var starts := M.Starts(ids, seeds);
      Holds(M.Shares(starts, |ids|), ids, SharesBy(seeds, 1.0 / |starts| as real))
  {
    hide M.Starts;
    M.StartsAreSeeds(ids, seeds);
  }

  lemma {:induction false} StartsCount(ids: seq<NodeId>, jds: seq<NodeId>, seeds: seq<NodeId>)
    requires SameNodes(ids, jds)
    ensures |M.Starts(ids, seeds)| == |M.Starts(jds, seeds)|
  {
    if seeds != [] {
      StartsCount(ids, jds, seeds[..|seeds| - 1]);
    }
  }

  /** Two index graphs of the same store, over any two orders of its nodes: the iteration stops after
      the same number of steps, and every node has the same score. */
  lemma ScoresByNode(graph: P.Graph, graph': P.Graph, edges: seq<Edge>, ids: seq<NodeId>, jds: seq<NodeId>,
                     seeds: seq<NodeId>, cfg: M.Config, p: V.Vector, q: V.Vector, k: nat, l: nat)
    requires M.Shows(graph, edges, ids) && M.Shows(graph', edges, jds) && SameNodes(ids, jds)
    requires M.IsScore(graph, M.Starts(ids, seeds), cfg, p, k) && M.IsScore(graph', M.Starts(jds, seeds), cfg, q, l)
    ensures k == l && |p| == |ids| && |q| == |jds|
    ensures forall i, j :: 0 <= i < |ids| && 0 <= j < |jds| && ids[i] == jds[j] ==> p[i] == q[j]
  {
    hide M.Shows, M.Starts, M.Shares, P.Scores, P.StopsAt, P.Moved, After, Holds;
    var starts, starts' := M.Starts(ids, seeds), M.Starts(jds, seeds);
    var t, u := M.Shares(starts, |graph|), M.Shares(starts', |graph'|);
    ShowsLength(graph, edges, ids);
    ShowsLength(graph', edges, jds);
    StartsCount(ids, jds, seeds);
    SharesHeld(ids, seeds);
    SharesHeld(jds, seeds);
    var tf := SharesBy(seeds, 1.0 / |starts| as real);
    assert Holds(t, ids, tf) && Holds(u, jds, tf);
    forall i: nat
      ensures P.Moved(graph, t, cfg.alpha, i) == P.Moved(graph', u, cfg.alpha, i)
    {
      MovedPermutes(graph, graph', edges, ids, jds, t, u, tf, cfg.alpha, i);
    }
    StopUnique(graph, graph', t, u, cfg, k, l);
    ScoresAreAfter(graph, edges, ids, t, tf, cfg.alpha, k);
    ScoresAreAfter(graph', edges, jds, u, tf, cfg.alpha, k);
    AfterPermutes(edges, ids, jds, tf, cfg.alpha, k);
    HeldAgree(p, q, ids, jds, After(edges, ids, tf, cfg.alpha, k), After(edges, jds, tf, cfg.alpha, k));
  }

  lemma ShowsLength(graph: P.Graph, edges: seq<Edge>, ids: seq<NodeId>)
    requires M.Shows(graph, edges, ids)
    ensures |graph| == |ids|
  {
  }

  lemma HeldAgree(p: V.Vector, q: V.Vector, ids: seq<NodeId>, jds: seq<NodeId>, f: ByNode, g: ByNode)
    requires Holds(p, ids, f) && Holds(q, jds, g) && forall n :: f(n) == g(n)
    ensures |p| == |ids| && |q| == |jds|
    ensures forall i, j :: 0 <= i < |ids| && 0 <= j < |jds| && ids[i] == jds[j] ==> p[i] == q[j]
  {
  }
}
