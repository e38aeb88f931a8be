/** What a multi-hop search answers is determined by the store and the query: the order in which the
    hash map lists the nodes decides between equal scores only. */
module SearchAnswers {
  import opened GraphStore
  import opened Sequences
  import opened Ranking
  import opened NodeScores
  import V = Vectors
  import H = Hops
  import P = PageRank
  import M = MultiHop

  // ---------------------------------------------------------------------------------------
  // Distances by node
  // ---------------------------------------------------------------------------------------

  /** A path over stored edges between listed nodes. */
  ghost predicate NodePath(edges: seq<Edge>, ids: seq<NodeId>, seeds: seq<NodeId>, n: NodeId, q: seq<NodeId>, d: nat) {
    && |q| == d + 1 && q[0] in seeds && q[d] == n
    && (forall k :: 0 <= k <= d ==> q[k] in ids)
    && forall k :: 0 <= k < d ==> Adjacent(edges, q[k], q[k + 1])
  }

  ghost predicate NodeReach(edges: seq<Edge>, ids: seq<NodeId>, seeds: seq<NodeId>, n: NodeId, d: nat) {
    exists q :: NodePath(edges, ids, seeds, n, q, d)
  }

  ghost predicate Joined(adj: H.Adjacency, edges: seq<Edge>, ids: seq<NodeId>) {
    |adj| == |ids| && forall i: nat, j: nat :: i < |ids| && j < |ids| ==> (H.Adjacent(adj, i, j) <==> Adjacent(edges, ids[i], ids[j]))
  }

  lemma GraphJoins(graph: P.Graph, edges: seq<Edge>, ids: seq<NodeId>)
    requires M.Shows(graph, edges, ids)
    ensures Joined(M.Adjacency(graph), edges, ids) && H.ValidAdjacency(M.Adjacency(graph))
  {
    hide Adjacent, M.IsRow, H.Adjacent;
    M.AdjacencyIsValid(graph, edges, ids);
    M.AdjacencyLength(graph);
    forall i: nat, j: nat | i < |ids| && j < |ids|
      ensures H.Adjacent(M.Adjacency(graph), i, j) <==> Adjacent(edges, ids[i], ids[j])
    {
      M.AdjacencyIsEdges(graph, edges, ids, i, j);
    }
  }

  function Named(ids: seq<NodeId>, p: seq<nat>): seq<NodeId>
    requires forall k :: 0 <= k < |p| ==> p[k] < |ids|
  {
    seq(|p|, k requires 0 <= k < |p| => ids[p[k]])
  }

  lemma PathIsNamed(adj: H.Adjacency, edges: seq<Edge>, ids: seq<NodeId>, seeds: seq<NodeId>, v: nat, p: seq<nat>, d: nat)
    requires Joined(adj, edges, ids) && H.ValidAdjacency(adj) && Distinct(ids) && v < |ids|
    requires H.PathFrom(adj, M.Starts(ids, seeds), v, p, d)
    ensures NodeReach(edges, ids, seeds, ids[v], d)
  {
    hide Adjacent, M.Starts;
    M.StartsAreSeeds(ids, seeds);
    forall k | 0 <= k <= d
      ensures p[k] < |ids|
    {
      if k < d {
        assert p[k + 1] in adj[p[k]];
      }
    }
    var q := Named(ids, p);
    forall k | 0 <= k < d
      ensures Adjacent(edges, q[k], q[k + 1])
    {
      assert H.Adjacent(adj, p[k], p[k + 1]);
    }
    assert NodePath(edges, ids, seeds, ids[v], q, d);
  }

  lemma NamedIsPath(adj: H.Adjacency, edges: seq<Edge>, ids: seq<NodeId>, seeds: seq<NodeId>, v: nat, q: seq<NodeId>, d: nat)
    requires Joined(adj, edges, ids) && H.ValidAdjacency(adj) && Distinct(ids) && v < |ids|
    requires NodePath(edges, ids, seeds, ids[v], q, d)
    ensures H.ReachableIn(adj, M.Starts(ids, seeds), v, d)
  {
    hide Adjacent, M.Starts;
    M.StartsAreSeeds(ids, seeds);
    var p := seq(d + 1, k requires 0 <= k < d + 1 => M.IndexOf(ids, q[k]));
    forall k | 0 <= k < d
      ensures p[k + 1] in adj[p[k]]
    {
      assert Adjacent(edges, ids[p[k]], ids[p[k + 1]]);
      assert H.Adjacent(adj, p[k], p[k + 1]);
    }
    assert p[d] == v;
    assert H.PathFrom(adj, M.Starts(ids, seeds), v, p, d);
  }

  lemma ReachIsNodeReach(adj: H.Adjacency, edges: seq<Edge>, ids: seq<NodeId>, seeds: seq<NodeId>, v: nat, d: nat)
    requires Joined(adj, edges, ids) && H.ValidAdjacency(adj) && Distinct(ids) && v < |ids|
    ensures H.ReachableIn(adj, M.Starts(ids, seeds), v, d) <==> NodeReach(edges, ids, seeds, ids[v], d)
  {
    hide H.PathFrom, NodePath, Joined, H.ValidAdjacency, Distinct, M.Starts;
    if p :| H.PathFrom(adj, M.Starts(ids, seeds), v, p, d) {
      PathIsNamed(adj, edges, ids, seeds, v, p, d);
    }
    if q :| NodePath(edges, ids, seeds, ids[v], q, d) {
      NamedIsPath(adj, edges, ids, seeds, v, q, d);
    }
  }

  lemma NodeReachPermutes(edges: seq<Edge>, ids: seq<NodeId>, jds: seq<NodeId>, seeds: seq<NodeId>, n: NodeId, d: nat)
    requires SameNodes(ids, jds) && NodeReach(edges, ids, seeds, n, d)
    ensures NodeReach(edges, jds, seeds, n, d)
  {
    hide Adjacent;
    var q :| NodePath(edges, ids, seeds, n, q, d);
    assert NodePath(edges, jds, seeds, n, q, d);
  }

  /** A node is as far from the seeds in every order. */
  lemma DistancePermutes(adj: H.Adjacency, adj': H.Adjacency, edges: seq<Edge>, ids: seq<NodeId>, jds: seq<NodeId>,
                         seeds: seq<NodeId>, v: nat, w: nat, d: nat)
    requires Joined(adj, edges, ids) && H.ValidAdjacency(adj) && Joined(adj', edges, jds) && H.ValidAdjacency(adj')
    requires SameNodes(ids, jds) && v < |ids| && w < |jds| && ids[v] == jds[w]
    ensures H.Distance(adj, M.Starts(ids, seeds), v, d) <==> H.Distance(adj', M.Starts(jds, seeds), w, d)
  {
    hide H.ReachableIn, NodeReach, Joined, H.ValidAdjacency, M.Starts;
    forall c: nat
      ensures H.ReachableIn(adj, M.Starts(ids, seeds), v, c) <==> H.ReachableIn(adj', M.Starts(jds, seeds), w, c)
    {
      ReachIsNodeReach(adj, edges, ids, seeds, v, c);
      ReachIsNodeReach(adj', edges, jds, seeds, w, c);
      if NodeReach(edges, ids, seeds, ids[v], c) {
        NodeReachPermutes(edges, ids, jds, seeds, ids[v], c);
      }
      if NodeReach(edges, jds, seeds, ids[v], c) {
        NodeReachPermutes(edges, jds, ids, seeds, ids[v], c);
      }
    }
  }

  lemma DistanceUnique(adj: H.Adjacency, starts: seq<nat>, v: nat, c: nat, d: nat)
    requires H.Distance(adj, starts, v, c) && H.Distance(adj, starts, v, d)
    ensures c == d
  {
  }

  /** So it gets the same hop count, and is within the limit in both orders or in none. */
  lemma HopsPermute(adj: H.Adjacency, adj': H.Adjacency, edges: seq<Edge>, ids: seq<NodeId>, jds: seq<NodeId>,
                    seeds: seq<NodeId>, maxHops: nat, v: nat, w: nat, h: nat, l: nat)
    requires Joined(adj, edges, ids) && H.ValidAdjacency(adj) && Joined(adj', edges, jds) && H.ValidAdjacency(adj')
    requires SameNodes(ids, jds) && v < |ids| && w < |jds| && ids[v] == jds[w]
    requires H.HopOf(adj, M.Starts(ids, seeds), maxHops, v, h) && H.HopOf(adj', M.Starts(jds, seeds), maxHops, w, l)
    ensures h == l
    ensures H.Inside(adj, M.Starts(ids, seeds), maxHops, v) <==> H.Inside(adj', M.Starts(jds, seeds), maxHops, w)
  {
    hide H.Distance, SameNodes, M.Starts;
    var s, s' := M.Starts(ids, seeds), M.Starts(jds, seeds);
    forall d: nat
      ensures H.Distance(adj, s, v, d) <==> H.Distance(adj', s', w, d)
    {
      DistancePermutes(adj, adj', edges, ids, jds, seeds, v, w, d);
    }
    if H.Distance(adj, s, v, h) && H.Distance(adj, s, v, l) {
      DistanceUnique(adj, s, v, h, l);
    }
  }

  // ---------------------------------------------------------------------------------------
  // The best of a set of nodes
  // ---------------------------------------------------------------------------------------

  /** At most `topK` nodes, each once, by falling score; nothing better is left out. */
  ghost predicate BestNodes(f: ByNode, inside: set<NodeId>, topK: nat, ns: seq<NodeId>) {
    && |ns| <= topK && Distinct(ns)
    && (forall n :: n in ns ==> n in inside)
    && (forall i, j :: 0 <= i <= j < |ns| ==> f(ns[i]) >= f(ns[j]))
    && forall n :: n in inside && n !in ns ==> |ns| == topK && forall m :: m in ns ==> f(m) >= f(n)
  }

  lemma {:induction false} SubsetCount<T>(a: set<T>, b: set<T>)
    requires a <= b
    ensures |a| <= |b|
    decreases a
  {
    if a != {} {
      var x :| x in a;
      SubsetCount(a - {x}, b - {x});
    }
  }

  /** Different elements do not fit into a shorter list. */
  lemma Fits<T>(a: seq<T>, b: seq<T>)
    requires Distinct(a) && forall x :: x in a ==> x in b
    ensures |a| <= |b|
  {
    P.DistinctCount(a);
    P.DistinctCount(b);
    SubsetCount(Elements(a), Elements(b));
  }

  /** The other list scores no less well at any place. */
  ghost predicate KeepsUp(f: ByNode, ns: seq<NodeId>, ms: seq<NodeId>, i: nat)
    requires i < |ns|
  {
    i < |ms| && f(ms[i]) >= f(ns[i])
  }

  lemma BehindIsEarlier(f: ByNode, inside: set<NodeId>, topK: nat, ns: seq<NodeId>, ms: seq<NodeId>, i: nat, a: nat)
    requires BestNodes(f, inside, topK, ns) && BestNodes(f, inside, topK, ms)
    requires a <= i < |ns| && !KeepsUp(f, ns, ms, i)
    ensures ns[a] in ms[..if i < |ms| then i else |ms|]
  {
    hide Distinct;
    assert ns[a] in inside && f(ns[a]) >= f(ns[i]);
    assert i < |ms| ==> ms[i] in ms;
    assert ns[a] in ms;
    var b :| 0 <= b < |ms| && ms[b] == ns[a];
    assert b < if i < |ms| then i else |ms|;
  }

  lemma BestKeepsUp(f: ByNode, inside: set<NodeId>, topK: nat, ns: seq<NodeId>, ms: seq<NodeId>, i: nat)
    requires BestNodes(f, inside, topK, ns) && BestNodes(f, inside, topK, ms) && i < |ns|
    ensures KeepsUp(f, ns, ms, i)
  {
    hide KeepsUp;
    if !KeepsUp(f, ns, ms, i) {
      var front, k := ns[..i + 1], if i < |ms| then i else |ms|;
      forall x | x in front
        ensures x in ms[..k]
      {
        var a :| 0 <= a < |front| && front[a] == x;
        BehindIsEarlier(f, inside, topK, ns, ms, i, a);
      }
      Fits(front, ms[..k]);
    }
  }

  /** Two best lists have the same scores, place by place. */
  lemma BestScoresAgree(f: ByNode, inside: set<NodeId>, topK: nat, ns: seq<NodeId>, ms: seq<NodeId>)
    requires BestNodes(f, inside, topK, ns) && BestNodes(f, inside, topK, ms)
    ensures |ns| == |ms| && forall i :: 0 <= i < |ns| ==> f(ns[i]) == f(ms[i])
  {
    hide BestNodes;
    if ns != [] {
      BestKeepsUp(f, inside, topK, ns, ms, |ns| - 1);
    }
    if ms != [] {
      BestKeepsUp(f, inside, topK, ms, ns, |ms| - 1);
    }
    forall i | 0 <= i < |ns|
      ensures f(ns[i]) == f(ms[i])
    {
      BestKeepsUp(f, inside, topK, ns, ms, i);
      BestKeepsUp(f, inside, topK, ms, ns, i);
    }
  }

  // ---------------------------------------------------------------------------------------
  // Two answers
  // ---------------------------------------------------------------------------------------

  ghost function ScoreBy(ids: seq<NodeId>, p: V.Vector): ByNode
    requires |p| == |ids|
  {
    (n: NodeId) => if n in ids then p[M.IndexOf(ids, n)] else 0.0
  }

  ghost function InsideBy(adj: H.Adjacency, ids: seq<NodeId>, starts: seq<nat>, maxHops: nat): set<NodeId>
    requires H.ValidAdjacency(adj)
  {
    set n | n in ids && H.Inside(adj, starts, maxHops, M.IndexOf(ids, n))
  }

  ghost function Ids(hits: seq<M.PprHit>): seq<NodeId> {
    seq(|hits|, i requires 0 <= i < |hits| => hits[i].id)
  }

  lemma IndexUnique(ids: seq<NodeId>, i: nat)
    requires Distinct(ids) && i < |ids|
    ensures M.IndexOf(ids, ids[i]) == i
  {
  }

  lemma TopItemsDistinct(p: V.Vector, top: seq<Scored<nat>>, i: nat, j: nat)
    requires (forall x :: multiset(top)[x] <= 1) && forall x :: x in top ==> x.item < |p| && x.score == p[x.item]
    requires i < j < |top|
    ensures top[i].item != top[j].item
  {
    assert top[i] in top && top[j] in top;
    if top[i].item == top[j].item {
      assert top[i] == top[j];
      TwoCopies(top, i, j);
    }
  }

  /** The ranked hits are the best nodes within the limit, with their scores. */
  lemma RankedAreBest(adj: H.Adjacency, ids: seq<NodeId>, starts: seq<nat>, p: V.Vector, hops: seq<nat>, maxHops: nat,
                      topK: nat, top: seq<Scored<nat>>)
    requires H.ValidAdjacency(adj) && |adj| == |ids| == |p| == |hops| && Distinct(ids)
    requires M.BestInside(adj, starts, p, maxHops, topK, top) && forall x :: x in top ==> x.item < |ids|
    ensures var hits := M.HitsOf(ids, hops, top);
      && BestNodes(ScoreBy(ids, p), InsideBy(adj, ids, starts, maxHops), topK, Ids(hits))
      && forall i :: 0 <= i < |hits| ==> hits[i].score == ScoreBy(ids, p)(hits[i].id)
  {
    hide H.Inside, ScoreBy, InsideBy, Distinct, Descending, M.IndexOf;
    var hits := M.HitsOf(ids, hops, top);
    var f, inside, ns := ScoreBy(ids, p), InsideBy(adj, ids, starts, maxHops), Ids(hits);
    forall i | 0 <= i < |top|
      ensures ns[i] in inside && top[i].score == f(ns[i])
    {
      TopEntry(adj, ids, starts, p, maxHops, top, i);
    }
    assert Distinct(ns) by {
      forall i, j | 0 <= i < j < |ns|
        ensures ns[i] != ns[j]
      {
        TopItemsDistinct(p, top, i, j);
        DifferentIds(ids, top[i].item, top[j].item);
      }
      DistinctByIndex(ns);
    }
    forall i, j | 0 <= i <= j < |ns|
      ensures f(ns[i]) >= f(ns[j])
    {
      DescendingAt(top, i, j);
    }
    forall n | n in inside && n !in ns
      ensures |ns| == topK && forall m :: m in ns ==> f(m) >= f(n)
    {
      LeftOut(adj, ids, starts, p, hops, maxHops, topK, top, n);
    }
  }

  lemma DifferentIds(ids: seq<NodeId>, i: nat, j: nat)
    requires Distinct(ids) && i < |ids| && j < |ids| && i != j
    ensures ids[i] != ids[j]
  {
  }

  lemma DistinctByIndex(ns: seq<NodeId>)
    requires forall i, j :: 0 <= i < j < |ns| ==> ns[i] != ns[j]
    ensures Distinct(ns)
  {
  }

  lemma DescendingAt(top: seq<Scored<nat>>, i: nat, j: nat)
    requires Descending(top) && i <= j < |top|
    ensures top[i].score >= top[j].score
  {
  }

  lemma TopEntry(adj: H.Adjacency, ids: seq<NodeId>, starts: seq<nat>, p: V.Vector, maxHops: nat,
                 top: seq<Scored<nat>>, i: nat)
    requires H.ValidAdjacency(adj) && |adj| == |ids| == |p| && Distinct(ids) && i < |top|
    requires forall x :: x in top ==> H.Inside(adj, starts, maxHops, x.item) && x.item < |ids| && x.score == p[x.item]
    ensures top[i] in top && ids[top[i].item] in InsideBy(adj, ids, starts, maxHops)
    ensures top[i].score == ScoreBy(ids, p)(ids[top[i].item])
  {
    hide H.Inside;
    assert top[i] in top;
    IndexUnique(ids, top[i].item);
  }

  lemma LeftOut(adj: H.Adjacency, ids: seq<NodeId>, starts: seq<nat>, p: V.Vector, hops: seq<nat>, maxHops: nat,
                topK: nat, top: seq<Scored<nat>>, n: NodeId)
    requires H.ValidAdjacency(adj) && |adj| == |ids| == |p| == |hops| && Distinct(ids)
    requires M.BestInside(adj, starts, p, maxHops, topK, top) && forall x :: x in top ==> x.item < |ids|
    requires n in InsideBy(adj, ids, starts, maxHops) && n !in Ids(M.HitsOf(ids, hops, top))
    ensures |top| == topK
    ensures forall m :: m in Ids(M.HitsOf(ids, hops, top)) ==> ScoreBy(ids, p)(m) >= ScoreBy(ids, p)(n)
  {
    hide H.Inside;
    var ns, v := Ids(M.HitsOf(ids, hops, top)), M.IndexOf(ids, n);
    forall i | 0 <= i < |top|
      ensures top[i].item != v
    {
      assert ns[i] in ns;
    }
    forall m | m in ns
      ensures ScoreBy(ids, p)(m) >= p[v]
    {
      var i :| 0 <= i < |ns| && ns[i] == m;
      assert top[i] in top;
      IndexUnique(ids, top[i].item);
    }
  }

  /** What one answer rests on. */
  ghost predicate Rests(graph: P.Graph, p: V.Vector, hops: seq<nat>, top: seq<Scored<nat>>, edges: seq<Edge>,
                        ids: seq<NodeId>, seeds: seq<NodeId>, cfg: M.Config, topK: nat, r: M.PprResult) {
    && Distinct(ids) && M.Shows(graph, edges, ids) && M.Starts(ids, seeds) != []
    && M.IsScore(graph, M.Starts(ids, seeds), cfg, p, r.iterations)
    && var adj := M.Adjacency(graph);
       && H.ValidAdjacency(adj) && Joined(adj, edges, ids) && |p| == |ids|
       && M.AreHops(adj, M.Starts(ids, seeds), cfg.maxHops, hops)
       && M.IsTop(adj, M.Starts(ids, seeds), p, hops, cfg.maxHops, topK, top) && M.AreRanked(ids, hops, top, r)
  }

  lemma AnswerRests(edges: seq<Edge>, ids: seq<NodeId>, seeds: seq<NodeId>, cfg: M.Config, topK: nat, r: M.PprResult)
    returns (graph: P.Graph, p: V.Vector, hops: seq<nat>, top: seq<Scored<nat>>)
    requires Distinct(ids) && M.IsAnswer(edges, ids, seeds, cfg, topK, r) && M.Starts(ids, seeds) != []
    ensures Rests(graph, p, hops, top, edges, ids, seeds, cfg, topK, r)
  {
    hide M.Shows, M.IsScore, M.Starts, H.HopOf, M.IsTop, M.AreRanked, V.Distribution, M.Probable, M.Adjacency, Joined,
      H.ValidAdjacency;
    graph, p, hops :| M.Explains(graph, p, hops, edges, ids, seeds, cfg, topK, r);
    M.AdjacencyLength(graph);
    ShowsLength(graph, edges, ids);
    top :| M.IsTop(M.Adjacency(graph), M.Starts(ids, seeds), p, hops, cfg.maxHops, topK, top)
           && M.AreRanked(ids, hops, top, r);
    GraphJoins(graph, edges, ids);
  }

  /** The scores and hop counts of two answers, node by node. */
  lemma RestsAgree(graph: P.Graph, p: V.Vector, hops: seq<nat>, top: seq<Scored<nat>>, ids: seq<NodeId>, r: M.PprResult,
                   graph': P.Graph, p': V.Vector, hops': seq<nat>, top': seq<Scored<nat>>, jds: seq<NodeId>,
                   r': M.PprResult, edges: seq<Edge>, seeds: seq<NodeId>, cfg: M.Config, topK: nat)
    requires Rests(graph, p, hops, top, edges, ids, seeds, cfg, topK, r) && SameNodes(ids, jds)
    requires Rests(graph', p', hops', top', edges, jds, seeds, cfg, topK, r')
    ensures r.iterations == r'.iterations && |hops| == |ids| && |hops'| == |jds|
    ensures forall i, j :: 0 <= i < |ids| && 0 <= j < |jds| && ids[i] == jds[j] ==>
              && p[i] == p'[j] && hops[i] == hops'[j]
              && (H.Inside(M.Adjacency(graph), M.Starts(ids, seeds), cfg.maxHops, i) <==>
                  H.Inside(M.Adjacency(graph'), M.Starts(jds, seeds), cfg.maxHops, j))
  {
    hide M.Shows, M.IsScore, M.Starts, M.IsTop, M.AreRanked, M.Adjacency, H.ValidAdjacency, H.HopOf, H.Inside, SameNodes,
      Joined;
    ShowsLength(graph, edges, ids);
    ShowsLength(graph', edges, jds);
    M.AdjacencyLength(graph);
    M.AdjacencyLength(graph');
    ScoresByNode(graph, graph', edges, ids, jds, seeds, cfg, p, p', r.iterations, r'.iterations);
    forall i: nat, j: nat | i < |ids| && j < |jds| && ids[i] == jds[j]
      ensures hops[i] == hops'[j]
      ensures H.Inside(M.Adjacency(graph), M.Starts(ids, seeds), cfg.maxHops, i) <==>
              H.Inside(M.Adjacency(graph'), M.Starts(jds, seeds), cfg.maxHops, j)
    {
      HopsPermute(M.Adjacency(graph), M.Adjacency(graph'), edges, ids, jds, seeds, cfg.maxHops, i, j, hops[i], hops'[j]);
    }
  }

  lemma BestNodesCongruent(f: ByNode, g: ByNode, inside: set<NodeId>, topK: nat, ns: seq<NodeId>)
    requires BestNodes(f, inside, topK, ns) && forall n :: f(n) == g(n)
    ensures BestNodes(g, inside, topK, ns)
  {
  }

  lemma ScoresByAgree(ids: seq<NodeId>, p: V.Vector, jds: seq<NodeId>, p': V.Vector)
    requires SameNodes(ids, jds) && |p| == |ids| && |p'| == |jds|
    requires forall i, j :: 0 <= i < |ids| && 0 <= j < |jds| && ids[i] == jds[j] ==> p[i] == p'[j]
    ensures forall n :: ScoreBy(ids, p)(n) == ScoreBy(jds, p')(n)
  {
  }

  lemma InsideByAgrees(adj: H.Adjacency, ids: seq<NodeId>, starts: seq<nat>, adj': H.Adjacency, jds: seq<NodeId>,
                       starts': seq<nat>, maxHops: nat)
    requires H.ValidAdjacency(adj) && H.ValidAdjacency(adj') && SameNodes(ids, jds)
    requires forall i, j :: 0 <= i < |ids| && 0 <= j < |jds| && ids[i] == jds[j] ==>
               (H.Inside(adj, starts, maxHops, i) <==> H.Inside(adj', starts', maxHops, j))
    ensures InsideBy(adj, ids, starts, maxHops) == InsideBy(adj', jds, starts', maxHops)
  {
    hide H.Inside;
    forall n
      ensures n in InsideBy(adj, ids, starts, maxHops) <==> n in InsideBy(adj', jds, starts', maxHops)
    {
      if n in ids {
        var i, j := M.IndexOf(ids, n), M.IndexOf(jds, n);
        assert H.Inside(adj, starts, maxHops, i) <==> H.Inside(adj', starts', maxHops, j);
      }
    }
  }

  /** Hits of the same node are the same, and the scores are the same place by place. */
  ghost predicate SameHits(hits: seq<M.PprHit>, hits': seq<M.PprHit>) {
    && |hits| == |hits'|
    && (forall i :: 0 <= i < |hits| ==> hits[i].score == hits'[i].score)
    && forall h, h' :: h in hits && h' in hits' && h.id == h'.id ==> h == h'
  }

  lemma SameNodeSameHit(ids: seq<NodeId>, p: V.Vector, hops: seq<nat>, top: seq<Scored<nat>>,
                        jds: seq<NodeId>, p': V.Vector, hops': seq<nat>, top': seq<Scored<nat>>)
    requires |p| == |hops| == |ids| && |p'| == |hops'| == |jds|
    requires forall i, j :: 0 <= i < |ids| && 0 <= j < |jds| && ids[i] == jds[j] ==> p[i] == p'[j] && hops[i] == hops'[j]
    requires forall x :: x in top ==> x.item < |ids| && x.score == p[x.item]
    requires forall x :: x in top' ==> x.item < |jds| && x.score == p'[x.item]
    ensures forall h, h' :: h in M.HitsOf(ids, hops, top) && h' in M.HitsOf(jds, hops', top') && h.id == h'.id ==> h == h'
  {
    var hits, hits' := M.HitsOf(ids, hops, top), M.HitsOf(jds, hops', top');
    forall h, h' | h in hits && h' in hits' && h.id == h'.id
      ensures h == h'
    {
      var a :| 0 <= a < |hits| && hits[a] == h;
      var b :| 0 <= b < |hits'| && hits'[b] == h';
      assert top[a] in top && top'[b] in top';
    }
  }

  lemma RestsGiveSameHits(graph: P.Graph, p: V.Vector, hops: seq<nat>, top: seq<Scored<nat>>, ids: seq<NodeId>,
                          r: M.PprResult, graph': P.Graph, p': V.Vector, hops': seq<nat>, top': seq<Scored<nat>>,
                          jds: seq<NodeId>, r': M.PprResult, edges: seq<Edge>, seeds: seq<NodeId>, cfg: M.Config,
                          topK: nat)
    requires Rests(graph, p, hops, top, edges, ids, seeds, cfg, topK, r) && SameNodes(ids, jds)
    requires Rests(graph', p', hops', top', edges, jds, seeds, cfg, topK, r')
    ensures r.iterations == r'.iterations && SameHits(r.ranked, r'.ranked)
  {
    hide M.Shows, M.IsScore, M.Starts, M.Adjacency, H.HopOf, H.Inside, Joined, H.TopHits, BestNodes, M.HitsOf,
      ScoreBy, InsideBy, H.ValidAdjacency;
    var adj, adj' := M.Adjacency(graph), M.Adjacency(graph');
    var s, s' := M.Starts(ids, seeds), M.Starts(jds, seeds);
    RestsAgree(graph, p, hops, top, ids, r, graph', p', hops', top', jds, r', edges, seeds, cfg, topK);
    RankedAreBest(adj, ids, s, p, hops, cfg.maxHops, topK, top);
    RankedAreBest(adj', jds, s', p', hops', cfg.maxHops, topK, top');
    ScoresByAgree(ids, p, jds, p');
    InsideByAgrees(adj, ids, s, adj', jds, s', cfg.maxHops);
    var f, inside := ScoreBy(ids, p), InsideBy(adj, ids, s, cfg.maxHops);
    BestNodesCongruent(ScoreBy(jds, p'), f, inside, topK, Ids(r'.ranked));
    BestScoresAgree(f, inside, topK, Ids(r.ranked), Ids(r'.ranked));
    forall i | 0 <= i < |r.ranked|
      ensures r.ranked[i].score == r'.ranked[i].score
    {
      assert Ids(r.ranked)[i] == r.ranked[i].id && Ids(r'.ranked)[i] == r'.ranked[i].id;
      assert ScoreBy(jds, p')(r'.ranked[i].id) == f(r'.ranked[i].id);
    }
    SameNodeSameHit(ids, p, hops, top, jds, p', hops', top');
  }

  /** Two answers to one query over one store, however the nodes are listed: the iteration took as many
      steps, the scores are the same place by place, and a node in both is there with the same score and
      distance. Only which nodes of one score come first, or are cut off, depends on the order. */
  lemma AnswersAgree(edges: seq<Edge>, ids: seq<NodeId>, jds: seq<NodeId>, seeds: seq<NodeId>, cfg: M.Config,
                     topK: nat, r: M.PprResult, r': M.PprResult)
    requires SameNodes(ids, jds)
    requires M.IsAnswer(edges, ids, seeds, cfg, topK, r) && M.IsAnswer(edges, jds, seeds, cfg, topK, r')
    ensures r.iterations == r'.iterations && SameHits(r.ranked, r'.ranked)
  {
    hide M.Starts, Rests, M.Shows, M.IsScore, M.AreHops, M.IsTop, M.AreRanked;
    StartsCount(ids, jds, seeds);
    if M.Starts(ids, seeds) != [] {
      var graph, p, hops, top := AnswerRests(edges, ids, seeds, cfg, topK, r);
      var graph', p', hops', top' := AnswerRests(edges, jds, seeds, cfg, topK, r');
      RestsGiveSameHits(graph, p, hops, top, ids, r, graph', p', hops', top', jds, r', edges, seeds, cfg, topK);
    }
  }

  /** With the nodes listed in one order there is one answer. */
  lemma AnswerUnique(edges: seq<Edge>, ids: seq<NodeId>, seeds: seq<NodeId>, cfg: M.Config, topK: nat, r: M.PprResult,
                     r': M.PprResult)
    requires Distinct(ids)
    requires M.IsAnswer(edges, ids, seeds, cfg, topK, r) && M.IsAnswer(edges, ids, seeds, cfg, topK, r')
    ensures r == r'
  {
    hide M.Starts, M.Shows, M.IsScore, H.HopOf, H.TopHits, M.BestInside, M.HitsOf, Joined, M.Adjacency, H.ValidAdjacency;
    if M.Starts(ids, seeds) != [] {
      var graph, p, hops, top := AnswerRests(edges, ids, seeds, cfg, topK, r);
      var graph', p', hops', top' := AnswerRests(edges, ids, seeds, cfg, topK, r');
      RestsAgree(graph, p, hops, top, ids, r, graph', p', hops', top', ids, r', edges, seeds, cfg, topK);
      assert |p| == |p'| && forall i :: 0 <= i < |p| ==> p[i] == p'[i];
      assert p == p' && hops == hops';
    }
  }
}
