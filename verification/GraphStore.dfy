/** The graph store: two-sided adjacency over one edge list. Node ids are numbers here: the code
    only compares and orders them. Weights are reals. */
module GraphStore {
  import opened Sequences

  type NodeId = nat

  datatype Entity = Entity(id: NodeId, name: string)

  datatype Edge = Edge(from: NodeId, to: NodeId, kind: nat, weight: real)

  /** One adjacency entry. */
  datatype Link = Link(node: NodeId, kind: nat, weight: real)

  // ---------------------------------------------------------------------------------------
  // What the edge list says
  // ---------------------------------------------------------------------------------------

  function OutLinks(edges: seq<Edge>, n: NodeId): seq<Link> {
    if edges == [] then [] else
      var e := edges[|edges| - 1];
      OutLinks(edges[..|edges| - 1], n) + if e.from == n then [Link(e.to, e.kind, e.weight)] else []
  }

  function InLinks(edges: seq<Edge>, n: NodeId): seq<Link> {
    if edges == [] then [] else
      var e := edges[|edges| - 1];
      InLinks(edges[..|edges| - 1], n) + if e.to == n then [Link(e.from, e.kind, e.weight)] else []
  }

  function Outward(e: Edge, a: NodeId, b: NodeId): real {
    if e.from == a && e.to == b then e.weight else 0.0
  }

  /** Weight between two nodes, both directions merged; a self-loop counts twice. */
  function WeightBetween(edges: seq<Edge>, a: NodeId, b: NodeId): real {
    if edges == [] then 0.0 else
      var e := edges[|edges| - 1];
      WeightBetween(edges[..|edges| - 1], a, b) + Outward(e, a, b) + Outward(e, b, a)
  }

  function TotalWeight(edges: seq<Edge>): real {
    if edges == [] then 0.0 else TotalWeight(edges[..|edges| - 1]) + edges[|edges| - 1].weight
  }

  ghost predicate Adjacent(edges: seq<Edge>, a: NodeId, b: NodeId) {
    exists e :: e in edges && ((e.from == a && e.to == b) || (e.from == b && e.to == a))
  }

  // ---------------------------------------------------------------------------------------
  // The corpus
  // ---------------------------------------------------------------------------------------

  function WithEntities(nodes: map<NodeId, Entity>, corpus: seq<Entity>): map<NodeId, Entity> {
    if corpus == [] then nodes else
      var e := corpus[|corpus| - 1];
      WithEntities(nodes, corpus[..|corpus| - 1])[e.id := e]
  }

  /** An entity that the corpus names is there as named last; the others stay. */
  lemma {:induction false} EntitiesAreLast(nodes: map<NodeId, Entity>, corpus: seq<Entity>, id: NodeId)
    ensures var all := WithEntities(nodes, corpus);
      if exists i :: LastNamed(corpus, i, id) then
        id in all && exists i :: LastNamed(corpus, i, id) && all[id] == corpus[i]
      else
        (id in all <==> id in nodes) && (id in all ==> all[id] == nodes[id]) && forall e :: e in corpus ==> e.id != id
  {
    if corpus != [] {
      var n := |corpus| - 1;
      EntitiesAreLast(nodes, corpus[..n], id);
      if corpus[n].id == id {
        assert LastNamed(corpus, n, id);
      } else {
        assert forall i :: LastNamed(corpus[..n], i, id) <==> LastNamed(corpus, i, id);
        assert corpus == corpus[..n] + [corpus[n]];
      }
    }
  }

  ghost predicate LastNamed(corpus: seq<Entity>, i: int, id: NodeId) {
    0 <= i < |corpus| && corpus[i].id == id && forall j :: i < j < |corpus| ==> corpus[j].id != id
  }

  /** What two edges of the corpus must not share. */
  function KindOf(e: Edge): (NodeId, NodeId, nat) {
    (e.from, e.to, e.kind)
  }

  ghost predicate Listed(edges: seq<Edge>, k: (NodeId, NodeId, nat)) {
    exists i :: 0 <= i < |edges| && KindOf(edges[i]) == k
  }

  ghost function FirstOfKind(edges: seq<Edge>): seq<Edge> {
    if edges == [] then [] else
      var front, e := edges[..|edges| - 1], edges[|edges| - 1];
      FirstOfKind(front) + if Listed(front, KindOf(e)) then [] else [e]
  }

  /** Each kind of the list is kept exactly once, as its first edge. */
  lemma {:induction false} FirstOfKindIsExact(edges: seq<Edge>)
    ensures forall k :: Listed(FirstOfKind(edges), k) <==> Listed(edges, k)
    ensures forall i, j :: 0 <= i < j < |FirstOfKind(edges)| ==>
              KindOf(FirstOfKind(edges)[i]) != KindOf(FirstOfKind(edges)[j])
    ensures forall e :: e in FirstOfKind(edges) ==> FirstIn(edges, e)
  {
    hide KindOf;
    if edges != [] {
      var front, e := edges[..|edges| - 1], edges[|edges| - 1];
      assert edges == front + [e];
      FirstOfKindIsExact(front);
      ListedOneMore(front, e);
      if Listed(front, KindOf(e)) {
        assert FirstOfKind(edges) == FirstOfKind(front);
      } else {
        ListedOneMore(FirstOfKind(front), e);
      }
      forall x | x in FirstOfKind(edges)
        ensures FirstIn(edges, x)
      {
        if x in FirstOfKind(front) {
          var i :| 0 <= i < |front| && front[i] == x && !Listed(front[..i], KindOf(x));
          assert edges[..i] == front[..i] && edges[i] == x;
        } else {
          assert edges[..|front|] == front;
        }
      }
    }
  }

  lemma ListedOneMore(edges: seq<Edge>, e: Edge)
    ensures forall k :: Listed(edges + [e], k) <==> Listed(edges, k) || k == KindOf(e)
  {
    hide KindOf;
    var all := edges + [e];
    forall k | Listed(edges, k) || k == KindOf(e)
      ensures Listed(all, k)
    {
      if Listed(edges, k) {
        var i :| 0 <= i < |edges| && KindOf(edges[i]) == k;
        assert all[i] == edges[i];
      } else {
        assert all[|edges|] == e;
      }
    }
  }

  /** `e` is the first edge of its kind in the list. */
  ghost predicate FirstIn(edges: seq<Edge>, e: Edge) {
    exists i :: 0 <= i < |edges| && edges[i] == e && !Listed(edges[..i], KindOf(e))
  }

  // ---------------------------------------------------------------------------------------
  // The store
  // ---------------------------------------------------------------------------------------

  class InMemoryGraph {
    var nodes: map<NodeId, Entity>
    var outEdges: map<NodeId, seq<Link>>
    var inEdges: map<NodeId, seq<Link>>
    var edges: seq<Edge>

    ghost predicate Valid()
      reads this
    {
      && (forall n: NodeId :: Outbound(n) == OutLinks(edges, n))
      && (forall n: NodeId :: Inbound(n) == InLinks(edges, n))
      && (forall n :: n in nodes ==> nodes[n].id == n)
    }

    function Outbound(n: NodeId): seq<Link>
      reads this
    {
      if n in outEdges then outEdges[n] else []
    }

    function Inbound(n: NodeId): seq<Link>
      reads this
    {
      if n in inEdges then inEdges[n] else []
    }

    constructor ()
      ensures Valid() && nodes == map[] && edges == []
    {
      nodes, outEdges, inEdges, edges := map[], map[], map[], [];
    }

    method AddEntity(e: Entity)
      requires Valid()
      modifies this`nodes
      ensures Valid() && nodes == old(nodes)[e.id := e]
    {
      nodes := nodes[e.id := e];
    }

    /** Both adjacency maps follow the edge list. */
    method AddEdge(e: Edge)
      requires Valid()
      modifies this`outEdges, this`inEdges, this`edges
      ensures Valid() && edges == old(edges) + [e]
    {
      hide OutLinks, InLinks;
      ghost var before := edges;
      outEdges := outEdges[e.from := Outbound(e.from) + [Link(e.to, e.kind, e.weight)]];
      inEdges := inEdges[e.to := Inbound(e.to) + [Link(e.from, e.kind, e.weight)]];
      edges := edges + [e];
      forall n: NodeId
        ensures Outbound(n) == OutLinks(edges, n) && Inbound(n) == InLinks(edges, n)
      {
        assert old(Outbound(n)) == OutLinks(before, n) && old(Inbound(n)) == InLinks(before, n);
        LinksOfOneMore(before, e, n);
      }
    }

    /** The built-in corpus: all its entities, and of the edges with equal ends and kind the first. */
    method Seed(corpus: seq<Entity>, list: seq<Edge>)
      requires Valid()
      modifies this
      ensures Valid() && edges == old(edges) + FirstOfKind(list)
      ensures nodes == WithEntities(old(nodes), corpus)
    {
      hide Valid, OutLinks, InLinks;
      for i := 0 to |corpus|
        invariant Valid() && edges == old(edges) && nodes == WithEntities(old(nodes), corpus[..i])
      {
        assert corpus[..i + 1][..i] == corpus[..i];
        AddEntity(corpus[i]);
      }
      assert corpus[..|corpus|] == corpus;
      var seen: set<(NodeId, NodeId, nat)> := {};
      assert edges == old(edges) + FirstOfKind(list[..0]);
      for i := 0 to |list|
        invariant Valid() && nodes == WithEntities(old(nodes), corpus)
        invariant edges == old(edges) + FirstOfKind(list[..i])
        invariant forall k :: k in seen <==> Listed(list[..i], k)
      {
        assert list[..i + 1][..i] == list[..i] && list[..i + 1] == list[..i] + [list[i]];
        if KindOf(list[i]) !in seen {
          seen := seen + {KindOf(list[i])};
          AddEdge(list[i]);
        }
      }
      assert list[..|list|] == list;
    }

    /** Neighbours in either direction, with the weights of parallel and opposite edges merged. */
    method UndirectedNeighbours(a: NodeId) returns (seen: map<NodeId, real>)
      requires Valid()
      ensures IsNeighbourhood(edges, a, seen)
    {
      hide OutLinks, InLinks, IsNeighbourhood, Merged;
      NothingMerged();
      seen := AddLinks([], map[], Outbound(a));
      seen := AddLinks([] + Outbound(a), seen, Inbound(a));
      assert [] + Outbound(a) == Outbound(a);
      MergedIsNeighbourhood(edges, a);
    }
  }

  method AddLinks(ghost before: seq<Link>, start: map<NodeId, real>, links: seq<Link>) returns (seen: map<NodeId, real>)
    requires start == Merged(before)
    ensures seen == Merged(before + links)
  {
    hide Merged;
    seen := start;
    assert before + links[..0] == before;
    for i := 0 to |links|
      invariant seen == Merged(before + links[..i])
    {
      MergeLast(before + links[..i], links[i]);
      assert before + links[..i + 1] == before + links[..i] + [links[i]];
      var n := links[i].node;
      seen := seen[n := (if n in seen then seen[n] else 0.0) + links[i].weight];
    }
    assert links[..|links|] == links;
  }

  /** Weights by neighbour, and no one else. */
  ghost predicate IsNeighbourhood(edges: seq<Edge>, a: NodeId, seen: map<NodeId, real>) {
    forall b: NodeId :: (b in seen <==> Adjacent(edges, a, b)) && (b in seen ==> seen[b] == WeightBetween(edges, a, b))
  }

  // ---------------------------------------------------------------------------------------
  // Merging
  // ---------------------------------------------------------------------------------------

  function Merged(links: seq<Link>): map<NodeId, real> {
    if links == [] then map[] else
      var m, l := Merged(links[..|links| - 1]), links[|links| - 1];
      m[l.node := (if l.node in m then m[l.node] else 0.0) + l.weight]
  }

  lemma LinksOfOneMore(edges: seq<Edge>, e: Edge, n: NodeId)
    ensures OutLinks(edges + [e], n) == OutLinks(edges, n) + if e.from == n then [Link(e.to, e.kind, e.weight)] else []
    ensures InLinks(edges + [e], n) == InLinks(edges, n) + if e.to == n then [Link(e.from, e.kind, e.weight)] else []
  {
    assert (edges + [e])[..|edges|] == edges;
  }

  lemma NothingMerged()
    ensures Merged([]) == map[]
  {
  }

  lemma MergeLast(links: seq<Link>, l: Link)
    ensures var m := Merged(links);
      Merged(links + [l]) == m[l.node := (if l.node in m then m[l.node] else 0.0) + l.weight]
  {
    assert (links + [l])[..|links|] == links;
  }

  function LinkWeight(links: seq<Link>, b: NodeId): real {
    if links == [] then 0.0 else
      LinkWeight(links[..|links| - 1], b) + if links[|links| - 1].node == b then links[|links| - 1].weight else 0.0
  }

  ghost predicate LinksTo(links: seq<Link>, b: NodeId) {
    exists l :: l in links && l.node == b
  }

  lemma {:induction false} MergedWeights(links: seq<Link>, b: NodeId)
    ensures b in Merged(links) <==> LinksTo(links, b)
    ensures b in Merged(links) ==> Merged(links)[b] == LinkWeight(links, b)
    ensures b !in Merged(links) ==> LinkWeight(links, b) == 0.0
  {
    if links != [] {
      MergedWeights(links[..|links| - 1], b);
      assert links == links[..|links| - 1] + [links[|links| - 1]];
    }
  }

  lemma {:induction false} LinkWeightJoins(a: seq<Link>, b: seq<Link>, n: NodeId)
    ensures LinkWeight(a + b, n) == LinkWeight(a, n) + LinkWeight(b, n)
    decreases |b|
  {
    if b == [] {
      assert a + b == a;
    } else {
      LinkWeightJoins(a, b[..|b| - 1], n);
      assert (a + b)[..|a + b| - 1] == a + b[..|b| - 1];
    }
  }

  lemma {:induction false} LinksMatchEdges(edges: seq<Edge>, a: NodeId, b: NodeId)
    ensures LinksTo(OutLinks(edges, a), b) || LinksTo(InLinks(edges, a), b) <==> Adjacent(edges, a, b)
    ensures LinkWeight(OutLinks(edges, a), b) + LinkWeight(InLinks(edges, a), b) == WeightBetween(edges, a, b)
  {
    hide LinksTo, LinkWeight, Adjacent;
    if edges == [] {
      NoLinks(a, b);
    } else {
      var front, e := edges[..|edges| - 1], edges[|edges| - 1];
      assert edges == front + [e];
      LinksMatchEdges(front, a, b);
      AdjacentGrows(front, e, a, b);
      LinkAppended(OutLinks(front, a), Link(e.to, e.kind, e.weight), b);
      LinkAppended(InLinks(front, a), Link(e.from, e.kind, e.weight), b);
    }
  }

  lemma NoLinks(a: NodeId, b: NodeId)
    ensures !LinksTo([], b) && !Adjacent([], a, b) && LinkWeight([], b) == 0.0
  {
  }

  lemma AdjacentGrows(edges: seq<Edge>, e: Edge, a: NodeId, b: NodeId)
    ensures Adjacent(edges + [e], a, b) <==>
            Adjacent(edges, a, b) || (e.from == a && e.to == b) || (e.from == b && e.to == a)
  {
    assert e in edges + [e];
  }

  lemma LinkAppended(links: seq<Link>, l: Link, b: NodeId)
    ensures LinkWeight(links + [l], b) == LinkWeight(links, b) + if l.node == b then l.weight else 0.0
    ensures LinksTo(links + [l], b) <==> LinksTo(links, b) || l.node == b
    ensures links + [] == links
  {
    assert (links + [l])[..|links|] == links;
    assert l in links + [l];
  }

  lemma MergedIsNeighbourhood(edges: seq<Edge>, a: NodeId)
    ensures IsNeighbourhood(edges, a, Merged(OutLinks(edges, a) + InLinks(edges, a)))
  {
    hide OutLinks, InLinks, Merged, LinkWeight, WeightBetween, Adjacent;
    var out, back := OutLinks(edges, a), InLinks(edges, a);
    forall b: NodeId
      ensures b in Merged(out + back) <==> Adjacent(edges, a, b)
      ensures b in Merged(out + back) ==> Merged(out + back)[b] == WeightBetween(edges, a, b)
    {
      MergedWeights(out + back, b);
      LinkWeightJoins(out, back, b);
      LinksMatchEdges(edges, a, b);
      assert forall l :: l in out + back <==> l in out || l in back;
    }
  }

  // ---------------------------------------------------------------------------------------
  // Transpose, symmetry, handshake
  // ---------------------------------------------------------------------------------------

  lemma CountLast<T>(s: seq<T>, x: T, y: T)
    ensures multiset(s + [x])[y] == multiset(s)[y] + if x == y then 1 else 0
    ensures s + [] == s
  {
  }

  lemma {:induction false} OutHoldsEdges(edges: seq<Edge>, a: NodeId, l: Link)
    ensures multiset(OutLinks(edges, a))[l] == multiset(edges)[Edge(a, l.node, l.kind, l.weight)]
  {
    if edges != [] {
      var front, e := edges[..|edges| - 1], edges[|edges| - 1];
      OutHoldsEdges(front, a, l);
      assert edges == front + [e];
      CountLast(front, e, Edge(a, l.node, l.kind, l.weight));
      CountLast(OutLinks(front, a), Link(e.to, e.kind, e.weight), l);
    }
  }

  lemma {:induction false} InHoldsEdges(edges: seq<Edge>, b: NodeId, l: Link)
    ensures multiset(InLinks(edges, b))[l] == multiset(edges)[Edge(l.node, b, l.kind, l.weight)]
  {
    if edges != [] {
      var front, e := edges[..|edges| - 1], edges[|edges| - 1];
      InHoldsEdges(front, b, l);
      assert edges == front + [e];
      CountLast(front, e, Edge(l.node, b, l.kind, l.weight));
      CountLast(InLinks(front, b), Link(e.from, e.kind, e.weight), l);
    }
  }

  /** Every edge is once in each adjacency, at both of its ends: the in-adjacency is the transpose
      of the out-adjacency, and both hold the edge list as a multiset. */
  lemma AdjacencyIsEdgeList(edges: seq<Edge>, a: NodeId, b: NodeId, kind: nat, w: real)
    ensures multiset(OutLinks(edges, a))[Link(b, kind, w)] == multiset(edges)[Edge(a, b, kind, w)]
    ensures multiset(InLinks(edges, b))[Link(a, kind, w)] == multiset(edges)[Edge(a, b, kind, w)]
  {
    OutHoldsEdges(edges, a, Link(b, kind, w));
    InHoldsEdges(edges, b, Link(a, kind, w));
  }

  lemma {:induction false} NoWeight(edges: seq<Edge>, a: NodeId, b: NodeId)
    requires !Adjacent(edges, a, b)
    ensures WeightBetween(edges, a, b) == 0.0
  {
    if edges != [] {
      var front, e := edges[..|edges| - 1], edges[|edges| - 1];
      assert edges == front + [e];
      AdjacentGrows(front, e, a, b);
      NoWeight(front, a, b);
    }
  }

  lemma {:induction false} WeightIsSymmetric(edges: seq<Edge>, a: NodeId, b: NodeId)
    ensures WeightBetween(edges, a, b) == WeightBetween(edges, b, a)
    ensures Adjacent(edges, a, b) <==> Adjacent(edges, b, a)
  {
    if edges != [] {
      WeightIsSymmetric(edges[..|edges| - 1], a, b);
    }
  }

  /** Weighted degree: the weights between `a` and the first `k` of `ns`. */
  function DegreeTo(edges: seq<Edge>, a: NodeId, ns: seq<NodeId>, k: nat): real
    requires k <= |ns|
  {
    if k == 0 then 0.0 else DegreeTo(edges, a, ns, k - 1) + WeightBetween(edges, a, ns[k - 1])
  }

  /** The same by edge ends: a self-loop has two ends at `a`. */
  function Incident(edges: seq<Edge>, a: NodeId): real {
    if edges == [] then 0.0 else
      var e := edges[|edges| - 1];
      Incident(edges[..|edges| - 1], a) + (if e.from == a then e.weight else 0.0) + if e.to == a then e.weight else 0.0
  }

  lemma {:induction false} NoEdgesNoDegree(a: NodeId, ns: seq<NodeId>, k: nat)
    requires k <= |ns|
    ensures DegreeTo([], a, ns, k) == 0.0
  {
    if k > 0 {
      NoEdgesNoDegree(a, ns, k - 1);
    }
  }

  /** What one edge adds. */
  lemma {:induction false} DegreeOfOneMore(edges: seq<Edge>, e: Edge, a: NodeId, ns: seq<NodeId>, k: nat)
    requires k <= |ns| && Distinct(ns)
    ensures DegreeTo(edges + [e], a, ns, k) == DegreeTo(edges, a, ns, k)
            + (if e.from == a && e.to in ns[..k] then e.weight else 0.0)
            + if e.to == a && e.from in ns[..k] then e.weight else 0.0
  {
    if k > 0 {
      DegreeOfOneMore(edges, e, a, ns, k - 1);
      assert (edges + [e])[..|edges|] == edges;
      assert ns[..k] == ns[..k - 1] + [ns[k - 1]];
      assert ns[k - 1] !in ns[..k - 1];
    }
  }

  /** Summing over all neighbours counts every edge end once. */
  lemma {:induction false} DegreeIsIncident(edges: seq<Edge>, a: NodeId, ns: seq<NodeId>)
    requires Distinct(ns) && forall b :: Adjacent(edges, a, b) ==> b in ns
    ensures DegreeTo(edges, a, ns, |ns|) == Incident(edges, a)
  {
    if edges == [] {
      NoEdgesNoDegree(a, ns, |ns|);
    } else {
      var front, e := edges[..|edges| - 1], edges[|edges| - 1];
      assert edges == front + [e] && ns[..|ns|] == ns;
      assert e.from == a ==> Adjacent(edges, a, e.to);
      assert e.to == a ==> Adjacent(edges, a, e.from);
      assert forall b :: Adjacent(front, a, b) ==> Adjacent(edges, a, b);
      DegreeIsIncident(front, a, ns);
      DegreeOfOneMore(front, e, a, ns, |ns|);
    }
  }

  function IncidentTo(edges: seq<Edge>, ns: seq<NodeId>, k: nat): real
    requires k <= |ns|
  {
    if k == 0 then 0.0 else IncidentTo(edges, ns, k - 1) + Incident(edges, ns[k - 1])
  }

  lemma {:induction false} NoEdgesNoEnds(ns: seq<NodeId>, k: nat)
    requires k <= |ns|
    ensures IncidentTo([], ns, k) == 0.0
  {
    if k > 0 {
      NoEdgesNoEnds(ns, k - 1);
    }
  }

  lemma {:induction false} EndsOfOneMore(edges: seq<Edge>, e: Edge, ns: seq<NodeId>, k: nat)
    requires k <= |ns| && Distinct(ns)
    ensures IncidentTo(edges + [e], ns, k) == IncidentTo(edges, ns, k)
            + (if e.from in ns[..k] then e.weight else 0.0) + if e.to in ns[..k] then e.weight else 0.0
  {
    if k > 0 {
      EndsOfOneMore(edges, e, ns, k - 1);
      assert (edges + [e])[..|edges|] == edges;
      assert ns[..k] == ns[..k - 1] + [ns[k - 1]];
      assert ns[k - 1] !in ns[..k - 1];
    }
  }

  /** The weight of all edge ends at nodes of `ns`. */
  function EndsAt(edges: seq<Edge>, ns: set<NodeId>): real {
    if edges == [] then 0.0 else
      var e := edges[|edges| - 1];
      EndsAt(edges[..|edges| - 1], ns)
      + (if e.from in ns then e.weight else 0.0) + if e.to in ns then e.weight else 0.0
  }

  /** The degrees of some nodes add up to the weight of the edge ends at them. */
  lemma {:induction false} DegreesCountEnds(edges: seq<Edge>, ns: seq<NodeId>)
    requires Distinct(ns)
    ensures IncidentTo(edges, ns, |ns|) == EndsAt(edges, Elements(ns))
  {
    if edges == [] {
      NoEdgesNoEnds(ns, |ns|);
    } else {
      var front, e := edges[..|edges| - 1], edges[|edges| - 1];
      assert edges == front + [e] && ns[..|ns|] == ns;
      DegreesCountEnds(front, ns);
      EndsOfOneMore(front, e, ns, |ns|);
    }
  }

  lemma {:induction false} BothEndsCount(edges: seq<Edge>, ns: set<NodeId>)
    requires forall e :: e in edges ==> e.from in ns && e.to in ns
    ensures EndsAt(edges, ns) == 2.0 * TotalWeight(edges)
  {
    if edges != [] {
      assert edges == edges[..|edges| - 1] + [edges[|edges| - 1]];
      BothEndsCount(edges[..|edges| - 1], ns);
    }
  }

  /** Handshake: the degrees of all nodes add up to twice the edge weight. */
  lemma Handshake(edges: seq<Edge>, ns: seq<NodeId>)
    requires Distinct(ns) && forall e :: e in edges ==> e.from in ns && e.to in ns
    ensures IncidentTo(edges, ns, |ns|) == 2.0 * TotalWeight(edges)
  {
    hide IncidentTo, EndsAt, TotalWeight;
    DegreesCountEnds(edges, ns);
    BothEndsCount(edges, Elements(ns));
  }
}
