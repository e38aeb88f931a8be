/** Multi-hop search over the graph store: PageRank from the seeds, hop distances, the best hits
    inside the radius. */
module MultiHop {
  import opened Ranking
  import opened Sequences
  import opened GraphStore
  import P = PageRank
  import PI = PowerIteration
  import V = Vectors
  import H = Hops

  datatype PprHit = PprHit(id: NodeId, score: real, hops: nat)

  datatype PprResult = PprResult(seeds: seq<NodeId>, ranked: seq<PprHit>, iterations: nat)

  datatype Config = Config(alpha: real, maxIterations: nat, tolerance: real, maxHops: nat)

  /** No stored weight is negative. */
  ghost predicate NonNegativeWeights(edges: seq<Edge>) {
    forall e :: e in edges ==> e.weight >= 0.0
  }

  lemma {:induction false} WeightsMerge(edges: seq<Edge>, a: NodeId, b: NodeId)
    requires NonNegativeWeights(edges)
    ensures WeightBetween(edges, a, b) >= 0.0
  {
    if edges != [] {
      assert edges[|edges| - 1] in edges;
      assert forall e :: e in edges[..|edges| - 1] ==> e in edges;
      WeightsMerge(edges[..|edges| - 1], a, b);
    }
  }

  /** `ids` lists the nodes of the graph once each, in any order. */
  ghost predicate Lists(ids: seq<NodeId>, g: InMemoryGraph)
    reads g
  {
    Distinct(ids) && forall n :: n in ids <==> n in g.nodes
  }

  /** The list of node `a` holds its neighbours, once each, by index and with merged weights. */
  ghost predicate IsRow(es: seq<P.Edge>, edges: seq<Edge>, ids: seq<NodeId>, a: NodeId) {
    && OncePerTarget(es)
    && (forall e :: e in es ==>
          e.to < |ids| && Adjacent(edges, a, ids[e.to]) && e.weight == WeightBetween(edges, a, ids[e.to]))
    && forall j :: 0 <= j < |ids| && Adjacent(edges, a, ids[j]) ==> Mentions(es, j)
  }

  ghost predicate OncePerTarget(es: seq<P.Edge>) {
    forall d, e :: 0 <= d < e < |es| ==> es[d].to != es[e].to
  }

  ghost predicate Mentions(es: seq<P.Edge>, j: nat) {
    exists e :: e in es && e.to == j
  }

  /** Neighbour lists of all nodes. */
  ghost predicate Shows(graph: P.Graph, edges: seq<Edge>, ids: seq<NodeId>) {
    |graph| == |ids| && forall i :: 0 <= i < |ids| ==> IsRow(graph[i], edges, ids, ids[i])
  }

  method Indices(ids: seq<NodeId>) returns (index: map<NodeId, nat>)
    requires Distinct(ids)
    ensures forall n :: n in index <==> n in ids
    ensures forall i :: 0 <= i < |ids| ==> ids[i] in index && index[ids[i]] == i
    ensures forall n :: n in index ==> index[n] < |ids| && ids[index[n]] == n
  {
    index := map[];
    for i := 0 to |ids|
      invariant forall n :: n in index <==> n in ids[..i]
      invariant forall k :: 0 <= k < i ==> ids[k] in index && index[ids[k]] == k
      invariant forall n :: n in index ==> index[n] < i && ids[index[n]] == n
    {
      assert ids[..i + 1] == ids[..i] + [ids[i]];
      index := index[ids[i] := i];
    }
    assert ids[..|ids|] == ids;
  }

  /** One neighbour list, filled in any order; neighbours that are not registered are skipped. */
  method NeighbourRow(g: InMemoryGraph, ids: seq<NodeId>, index: map<NodeId, nat>, a: NodeId) returns (es: seq<P.Edge>)
    requires g.Valid()
    requires forall n :: n in index <==> n in ids
    requires forall n :: n in index ==> index[n] < |ids| && ids[index[n]] == n
    requires forall i :: 0 <= i < |ids| ==> ids[i] in index && index[ids[i]] == i
    ensures IsRow(es, g.edges, ids, a)
  {
    hide Adjacent, WeightBetween;
    var w := g.UndirectedNeighbours(a);
    es := [];
    var rest := w.Keys;
    while rest != {}
      invariant rest <= w.Keys
      invariant OncePerTarget(es)
      invariant forall e :: e in es ==>
                  e.to < |ids| && ids[e.to] in w && ids[e.to] !in rest && e.weight == w[ids[e.to]]
      invariant forall n :: n in w && n !in rest && n in index ==> Mentions(es, index[n])
      decreases |rest|
    {
      var n :| n in rest;
      rest := rest - {n};
      if n in index {
        MentionsGrows(es, P.Edge(index[n], w[n]));
        es := es + [P.Edge(index[n], w[n])];
      }
    }
    forall j | 0 <= j < |ids| && Adjacent(g.edges, a, ids[j])
      ensures Mentions(es, j)
    {
      assert ids[j] in w && index[ids[j]] == j;
    }
  }

  lemma MentionsGrows(es: seq<P.Edge>, e: P.Edge)
    ensures forall j :: Mentions(es, j) ==> Mentions(es + [e], j)
    ensures Mentions(es + [e], e.to)
  {
    forall j | Mentions(es, j)
      ensures Mentions(es + [e], j)
    {
      var x :| x in es && x.to == j;
      assert x in es + [e];
    }
    assert e in es + [e];
  }

  method BuildNeighbours(g: InMemoryGraph, ids: seq<NodeId>) returns (graph: P.Graph)
    requires g.Valid() && Lists(ids, g)
    ensures Shows(graph, g.edges, ids)
  {
    hide IsRow, InMemoryGraph.Valid;
    var index := Indices(ids);
    graph := [];
    for i := 0 to |ids|
      invariant |graph| == i && forall k :: 0 <= k < i ==> IsRow(graph[k], g.edges, ids, ids[k])
    {
      var es := NeighbourRow(g, ids, index, ids[i]);
      graph := graph + [es];
    }
  }

  lemma ShownIsValid(graph: P.Graph, edges: seq<Edge>, ids: seq<NodeId>)
    requires Shows(graph, edges, ids)
    ensures P.ValidGraph(graph)
    ensures NonNegativeWeights(edges) ==> P.WeightedGraph(graph)
  {
    forall i, e | 0 <= i < |graph| && 0 <= e < |graph[i]|
      ensures graph[i][e].to < |graph| && (NonNegativeWeights(edges) ==> graph[i][e].weight >= 0.0)
    {
      assert graph[i][e] in graph[i];
      assert IsRow(graph[i], edges, ids, ids[i]);
      if NonNegativeWeights(edges) {
        WeightsMerge(edges, ids[i], ids[graph[i][e].to]);
      }
    }
  }

  /** The neighbour indices without weights. */
  function Adjacency(graph: P.Graph): H.Adjacency {
    seq(|graph|, i requires 0 <= i < |graph| =>
      seq(|graph[i]|, e requires 0 <= e < |graph[i]| => graph[i][e].to))
  }

  /** Two nodes are neighbours in the index graph exactly when some stored edge joins them. */
  lemma AdjacencyIsEdges(graph: P.Graph, edges: seq<Edge>, ids: seq<NodeId>, i: nat, j: nat)
    requires Shows(graph, edges, ids) && i < |ids| && j < |ids|
    ensures H.Adjacent(Adjacency(graph), i, j) <==> Adjacent(edges, ids[i], ids[j])
  {
    hide Adjacent, WeightBetween;
    assert IsRow(graph[i], edges, ids, ids[i]);
    var row := Adjacency(graph)[i];
    if Mentions(graph[i], j) {
      var e :| e in graph[i] && e.to == j;
      var k :| 0 <= k < |graph[i]| && graph[i][k] == e;
      assert row[k] == j;
    }
    if j in row {
      var k :| 0 <= k < |row| && row[k] == j;
      assert graph[i][k] in graph[i];
    }
  }

  lemma AdjacencyIsValid(graph: P.Graph, edges: seq<Edge>, ids: seq<NodeId>)
    requires Shows(graph, edges, ids)
    ensures H.ValidAdjacency(Adjacency(graph))
  {
    hide Adjacent, WeightBetween;
    var adj := Adjacency(graph);
    forall i, e | 0 <= i < |adj| && 0 <= e < |adj[i]|
      ensures adj[i][e] < |adj|
    {
      assert graph[i][e] in graph[i];
      assert IsRow(graph[i], edges, ids, ids[i]);
    }
  }

  function IndexOf(ids: seq<NodeId>, n: NodeId): (i: nat)
    requires n in ids
    ensures i < |ids| && ids[i] == n
  {
    if ids[0] == n then 0 else 1 + IndexOf(ids[1..], n)
  }

  /** The seeds that are in the graph, by index, in the order given and as often as given. */
  function Starts(ids: seq<NodeId>, seeds: seq<NodeId>): seq<nat> {
    if seeds == [] then [] else
      var n := seeds[|seeds| - 1];
      Starts(ids, seeds[..|seeds| - 1]) + if n in ids then [IndexOf(ids, n)] else []
  }

  /** Exactly the seeds in the graph; no repetition unless a seed is repeated. */
  lemma {:induction false} StartsAreSeeds(ids: seq<NodeId>, seeds: seq<NodeId>)
    requires Distinct(ids)
    ensures forall s: nat :: s in Starts(ids, seeds) <==> s < |ids| && ids[s] in seeds
    ensures Distinct(seeds) ==> Distinct(Starts(ids, seeds))
  {
    if seeds != [] {
      var front, n := seeds[..|seeds| - 1], seeds[|seeds| - 1];
      assert seeds == front + [n];
      StartsAreSeeds(ids, front);
    }
  }

  method SeedIndices(ids: seq<NodeId>, seeds: seq<NodeId>) returns (found: seq<nat>)
    requires Distinct(ids)
    ensures found == Starts(ids, seeds)
  {
    var index := Indices(ids);
    found := [];
    for k := 0 to |seeds|
      invariant found == Starts(ids, seeds[..k])
    {
      assert seeds[..k + 1][..k] == seeds[..k];
      if seeds[k] in index {
        assert index[seeds[k]] == IndexOf(ids, seeds[k]);
        found := found + [index[seeds[k]]];
      }
    }
    assert seeds[..|seeds|] == seeds;
  }

  /** Equal shares for the starts. */
  ghost function Shares(starts: seq<nat>, n: nat): (t: V.Vector)
    requires starts != []
    ensures |t| == n
  {
    P.Seeded(starts, 1.0 / |starts| as real, n)
  }

  /** `p` is the PageRank of the graph from the given starts, where the iteration stops. */
  ghost predicate IsScore(graph: P.Graph, starts: seq<nat>, cfg: Config, p: V.Vector, k: nat) {
    && P.ValidGraph(graph) && starts != []
    && P.StopsAt(graph, Shares(starts, |graph|), cfg.alpha, cfg.maxIterations, cfg.tolerance, k)
    && p == P.Scores(graph, Shares(starts, |graph|), cfg.alpha, k)
  }

  /** The scores are probabilities: no weight is negative, no seed repeated, and `alpha` is one. */
  ghost predicate Probable(edges: seq<Edge>, seeds: seq<NodeId>, cfg: Config) {
    NonNegativeWeights(edges) && Distinct(seeds) && 0.0 <= cfg.alpha <= 1.0
  }

  ghost predicate AreHops(adj: H.Adjacency, starts: seq<nat>, maxHops: nat, hops: seq<nat>) {
    |hops| == |adj| && forall v :: 0 <= v < |adj| ==> H.HopOf(adj, starts, maxHops, v, hops[v])
  }

  /** The hits as they are returned: by node id, with their hop distance. */
  function HitsOf(ids: seq<NodeId>, hops: seq<nat>, top: seq<Scored<nat>>): seq<PprHit>
    requires |hops| == |ids| && forall x :: x in top ==> x.item < |ids|
  {
    seq(|top|, i requires 0 <= i < |top| =>
      assert top[i] in top;
      PprHit(ids[top[i].item], top[i].score, hops[top[i].item]))
  }

  /** `top` are the best by `p` within reach of the starts, equal scores in node order. */
  ghost predicate IsTop(adj: H.Adjacency, starts: seq<nat>, p: V.Vector, hops: seq<nat>, maxHops: nat, topK: nat,
                        top: seq<Scored<nat>>)
    requires H.ValidAdjacency(adj) && |p| == |hops| == |adj|
  {
    top == H.TopHits(p, hops, maxHops, topK) && BestInside(adj, starts, p, maxHops, topK, top)
  }

  /** `graph` shows the stored edges, `p` is the PageRank from the seeds that are stored, `hops` are
      the hop distances from these, and the hits are the best by `p` within reach. */
  ghost predicate Explains(graph: P.Graph, p: V.Vector, hops: seq<nat>, edges: seq<Edge>, ids: seq<NodeId>,
                           seeds: seq<NodeId>, cfg: Config, topK: nat, r: PprResult) {
    && r.seeds == seeds && Shows(graph, edges, ids) && H.ValidAdjacency(Adjacency(graph))
    && var starts := Starts(ids, seeds);
       if starts == [] then r.ranked == [] && r.iterations == 0
       else
         && |p| == |ids| && IsScore(graph, starts, cfg, p, r.iterations)
         && (Probable(edges, seeds, cfg) ==> V.Distribution(p))
         && AreHops(Adjacency(graph), starts, cfg.maxHops, hops)
         && exists top :: IsTop(Adjacency(graph), starts, p, hops, cfg.maxHops, topK, top) && AreRanked(ids, hops, top, r)
  }

  ghost predicate AreRanked(ids: seq<NodeId>, hops: seq<nat>, top: seq<Scored<nat>>, r: PprResult)
    requires |hops| == |ids|
  {
    (forall x :: x in top ==> x.item < |ids|) && r.ranked == HitsOf(ids, hops, top)
  }

  ghost predicate IsAnswer(edges: seq<Edge>, ids: seq<NodeId>, seeds: seq<NodeId>, cfg: Config, topK: nat, r: PprResult) {
    exists graph, p, hops :: Explains(graph, p, hops, edges, ids, seeds, cfg, topK, r)
  }

  /** The whole search, for any weights, seeds and configuration: the hits are a best-score prefix of
      exactly the nodes within `maxHops` edges of a seed, each with its score and its distance. Without
      negative weights and repeated seeds the scores are a probability distribution over all nodes. */
  method Search(g: InMemoryGraph, ids: seq<NodeId>, seeds: seq<NodeId>, cfg: Config, topK: nat) returns (r: PprResult)
    requires g.Valid() && Lists(ids, g) && cfg.maxHops <= H.UNREACHED
    ensures IsAnswer(g.edges, ids, seeds, cfg, topK, r)
  {
    hide IsRow, InMemoryGraph.Valid, V.Distribution, BestInside, Adjacency, H.TopHits, P.Seeded, P.Rows, PI.Iterate,
      P.Scores, P.StopsAt, Starts, P.NearFixedPoints, P.Moved, P.WeightedGraph, H.HopOf;
    var net := BuildNeighbours(g, ids);
    ShownIsValid(net, g.edges, ids);
    AdjacencyIsValid(net, g.edges, ids);
    ghost var adj := Adjacency(net);
    assert |adj| == |net| by { AdjacencyLength(net); }
    var found := SeedIndices(ids, seeds);
    if found == [] {
      r := PprResult(seeds, [], 0);
      assert Explains(net, [], [], g.edges, ids, seeds, cfg, topK, r);
      return;
    }
    StartsAreSeeds(ids, seeds);
    var t := P.Personalise(found, |ids|);
    P.SeedsMakeDistribution(found, |ids|);
    assert t == Shares(found, |net|);
    var scores, iterations := P.RunPageRank(net, t, cfg.alpha, cfg.maxIterations, cfg.tolerance);
    assert IsScore(net, found, cfg, scores, iterations);
    var hops := H.BfsHops(Adjacency(net), found, cfg.maxHops);
    assert AreHops(adj, found, cfg.maxHops, hops);
    var top := H.TopHits(scores, hops, cfg.maxHops, topK);
    HitsAreBest(adj, found, scores, hops, cfg.maxHops, topK);
    assert IsTop(adj, found, scores, hops, cfg.maxHops, topK, top);
    BestAreNodes(adj, found, scores, cfg.maxHops, topK, top);
    r := PprResult(seeds, HitsOf(ids, hops, top), iterations);
    assert AreRanked(ids, hops, top, r);
    assert Explains(net, scores, hops, g.edges, ids, seeds, cfg, topK, r);
  }

  lemma BestAreNodes(adj: H.Adjacency, starts: seq<nat>, p: V.Vector, maxHops: nat, topK: nat, top: seq<Scored<nat>>)
    requires H.ValidAdjacency(adj) && |p| == |adj| && BestInside(adj, starts, p, maxHops, topK, top)
    ensures forall x :: x in top ==> x.item < |adj|
  {
  }

  lemma AdjacencyLength(graph: P.Graph)
    ensures |Adjacency(graph)| == |graph|
  {
  }

  ghost predicate BestInside(adj: H.Adjacency, starts: seq<nat>, p: V.Vector, maxHops: nat, topK: nat,
                             hits: seq<Scored<nat>>)
    requires H.ValidAdjacency(adj) && |p| == |adj|
  {
    && Descending(hits) && |hits| <= topK
    && (forall x :: multiset(hits)[x] <= 1)
    && (forall x: Scored<nat> :: x in hits ==> H.Inside(adj, starts, maxHops, x.item) && x.score == p[x.item])
    && forall v: nat :: H.Inside(adj, starts, maxHops, v) && Scored(v, p[v]) !in hits ==>
         |hits| == topK && forall x :: x in hits ==> x.score >= p[v]
  }

  lemma HitsAreBest(adj: H.Adjacency, starts: seq<nat>, p: V.Vector, hops: seq<nat>, maxHops: nat, topK: nat)
    requires H.ValidAdjacency(adj) && |p| == |hops| == |adj| && maxHops <= H.UNREACHED
    requires forall v :: 0 <= v < |adj| ==> H.HopOf(adj, starts, maxHops, v, hops[v])
    ensures BestInside(adj, starts, p, maxHops, topK, H.TopHits(p, hops, maxHops, topK))
  {
    hide H.TopHits, H.Inside, H.HopOf;
    H.HitsAreBestInside(adj, starts, p, hops, maxHops, topK);
  }
}
