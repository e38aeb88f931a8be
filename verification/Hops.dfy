/** Hop distances by breadth-first search, and the hop budget of a multi-hop search. */
module Hops {
  import opened Ranking

  /** Indices of the neighbours of each node. */
  type Adjacency = seq<seq<nat>>

  const UNREACHED: nat := 0xFFFF_FFFF

  ghost predicate ValidAdjacency(adj: Adjacency) {
    forall i, e :: 0 <= i < |adj| && 0 <= e < |adj[i]| ==> adj[i][e] < |adj|
  }

  // ---------------------------------------------------------------------------------------
  // Distances, by paths
  // ---------------------------------------------------------------------------------------

  ghost predicate IsPath(adj: Adjacency, p: seq<nat>) {
    && p != [] && p[0] < |adj|
    && forall k :: 0 <= k < |p| - 1 ==> p[k] < |adj| && p[k + 1] in adj[p[k]]
  }

  /** A path of `d` edges from some seed to `v`. */
  ghost predicate PathFrom(adj: Adjacency, seeds: seq<nat>, v: nat, p: seq<nat>, d: nat) {
    IsPath(adj, p) && p[0] in seeds && p[|p| - 1] == v && |p| == d + 1
  }

  ghost predicate ReachableIn(adj: Adjacency, seeds: seq<nat>, v: nat, d: nat) {
    exists p :: PathFrom(adj, seeds, v, p, d)
  }

  /** `d` is the length of a shortest path from a seed to `v`. */
  ghost predicate Distance(adj: Adjacency, seeds: seq<nat>, v: nat, d: nat) {
    ReachableIn(adj, seeds, v, d) && forall c: nat :: c < d ==> !ReachableIn(adj, seeds, v, c)
  }

  /** What the search must return for `v`. */
  ghost predicate HopOf(adj: Adjacency, seeds: seq<nat>, maxHops: nat, v: nat, h: nat) {
    if exists d: nat :: d <= maxHops && Distance(adj, seeds, v, d)
    then h <= maxHops && Distance(adj, seeds, v, h)
    else h == UNREACHED
  }

  // ---------------------------------------------------------------------------------------
  // Distances, by layers
  // ---------------------------------------------------------------------------------------

  ghost predicate Adjacent(adj: Adjacency, u: nat, v: nat) {
    u < |adj| && v in adj[u]
  }

  ghost predicate Within(adj: Adjacency, seeds: seq<nat>, d: nat, v: nat) {
    if d == 0 then v in seeds
    else Within(adj, seeds, d - 1, v) || exists u: nat :: u < |adj| && Within(adj, seeds, d - 1, u) && Adjacent(adj, u, v)
  }

  lemma {:induction false} PathIsWithin(adj: Adjacency, seeds: seq<nat>, v: nat, p: seq<nat>, d: nat)
    requires ValidAdjacency(adj) && PathFrom(adj, seeds, v, p, d)
    ensures Within(adj, seeds, d, v)
    decreases d
  {
    if d > 0 {
      var u := p[d - 1];
      assert PathFrom(adj, seeds, u, p[..d], d - 1);
      PathIsWithin(adj, seeds, u, p[..d], d - 1);
      assert p[(d - 1) + 1] in adj[p[d - 1]];
      assert Adjacent(adj, u, v);
    }
  }

  lemma {:induction false} WithinHasPath(adj: Adjacency, seeds: seq<nat>, v: nat, d: nat) returns (p: seq<nat>, c: nat)
    requires ValidAdjacency(adj) && (forall s :: s in seeds ==> s < |adj|) && Within(adj, seeds, d, v)
    ensures c <= d && PathFrom(adj, seeds, v, p, c)
    decreases d
  {
    if d == 0 {
      p, c := [v], 0;
    } else if Within(adj, seeds, d - 1, v) {
      p, c := WithinHasPath(adj, seeds, v, d - 1);
    } else {
      var u: nat :| u < |adj| && Within(adj, seeds, d - 1, u) && Adjacent(adj, u, v);
      var q, e := WithinHasPath(adj, seeds, u, d - 1);
      p, c := q + [v], e + 1;
    }
  }

  lemma {:induction false} WithinGrows(adj: Adjacency, seeds: seq<nat>, c: nat, d: nat, v: nat)
    requires c <= d && Within(adj, seeds, c, v)
    ensures Within(adj, seeds, d, v)
    decreases d
  {
    if c < d {
      WithinGrows(adj, seeds, c, d - 1, v);
    }
  }

  /** The first layer that holds `v` is its distance. */
  lemma FirstLayerIsDistance(adj: Adjacency, seeds: seq<nat>, v: nat, d: nat)
    requires ValidAdjacency(adj) && forall s :: s in seeds ==> s < |adj|
    ensures Distance(adj, seeds, v, d) <==> Within(adj, seeds, d, v) && (d > 0 ==> !Within(adj, seeds, d - 1, v))
  {
    if Within(adj, seeds, d, v) && (d > 0 ==> !Within(adj, seeds, d - 1, v)) {
      var p, c := WithinHasPath(adj, seeds, v, d);
      PathIsWithin(adj, seeds, v, p, c);
      if c < d {
        WithinGrows(adj, seeds, c, d - 1, v);
      }
      forall e: nat | e < d
        ensures !ReachableIn(adj, seeds, v, e)
      {
        if q :| PathFrom(adj, seeds, v, q, e) {
          PathIsWithin(adj, seeds, v, q, e);
          WithinGrows(adj, seeds, e, d - 1, v);
        }
      }
    }
    if Distance(adj, seeds, v, d) {
      var p :| PathFrom(adj, seeds, v, p, d);
      PathIsWithin(adj, seeds, v, p, d);
      if d > 0 && Within(adj, seeds, d - 1, v) {
        var q, c := WithinHasPath(adj, seeds, v, d - 1);
        assert ReachableIn(adj, seeds, v, c);
      }
    }
  }

  // ---------------------------------------------------------------------------------------
  // The search
  // ---------------------------------------------------------------------------------------

  /** Hops settled up to depth `d`, everything else untouched. */
  ghost predicate Settled(hops: seq<nat>, adj: Adjacency, seeds: seq<nat>, d: nat) {
    && |hops| == |adj|
    && forall v :: 0 <= v < |adj| ==>
         if Within(adj, seeds, d, v) then hops[v] <= d && Distance(adj, seeds, v, hops[v])
         else hops[v] == UNREACHED
  }

  /** The frontier holds exactly the nodes at distance `d`. */
  ghost predicate IsFrontier(frontier: seq<nat>, adj: Adjacency, seeds: seq<nat>, d: nat) {
    && (forall v :: v in frontier ==> v < |adj|)
    && (forall v :: 0 <= v < |adj| ==> (v in frontier <==> Distance(adj, seeds, v, d)))
  }

  /** `v` is adjacent to one of the first `k` frontier nodes. */
  ghost predicate Touched(adj: Adjacency, frontier: seq<nat>, k: nat, v: nat)
    requires k <= |frontier|
  {
    exists i :: 0 <= i < k && Adjacent(adj, frontier[i], v)
  }

  /** In the middle of a layer: new nodes have been found among the neighbours seen so far. */
  ghost predicate Expanding(hops: seq<nat>, next: seq<nat>, adj: Adjacency, seeds: seq<nat>, d: nat, seen: iset<nat>) {
    && |hops| == |adj|
    && (forall v :: v in next ==> v < |adj|)
    && forall v :: 0 <= v < |adj| ==>
         && (v in next <==> !Within(adj, seeds, d, v) && v in seen)
         && (if Within(adj, seeds, d, v) then hops[v] <= d && Distance(adj, seeds, v, hops[v])
             else hops[v] == if v in seen then d + 1 else UNREACHED)
  }

  /** `max_hops` is a `u32`: it may be the marker itself. */
  method BfsHops(adj: Adjacency, seeds: seq<nat>, maxHops: nat) returns (hops: seq<nat>)
    requires ValidAdjacency(adj) && (forall s :: s in seeds ==> s < |adj|) && maxHops <= UNREACHED
    ensures |hops| == |adj|
    ensures forall v :: 0 <= v < |adj| ==> HopOf(adj, seeds, maxHops, v, hops[v])
  {
    hops := seq(|adj|, _ => UNREACHED);
    var frontier: seq<nat> := [];
    for k := 0 to |seeds|
      invariant |hops| == |adj| && frontier == seeds[..k]
      invariant forall v :: 0 <= v < |adj| ==> hops[v] == if v in seeds[..k] then 0 else UNREACHED
    {
      assert seeds[k] in seeds && seeds[..k + 1] == seeds[..k] + [seeds[k]];
      hops := hops[seeds[k] := 0];
      frontier := frontier + [seeds[k]];
    }
    assert seeds[..|seeds|] == seeds;
    StartSettled(hops, adj, seeds);
    var depth := 0;
    while frontier != [] && depth < maxHops
      invariant depth <= maxHops
      invariant Settled(hops, adj, seeds, depth) && IsFrontier(frontier, adj, seeds, depth)
      decreases maxHops - depth
    {
      hops, frontier := ExpandLayer(hops, frontier, adj, seeds, depth);
      depth := depth + 1;
    }
    forall v | 0 <= v < |adj|
      ensures HopOf(adj, seeds, maxHops, v, hops[v])
    {
      SettledIsHop(hops, adj, seeds, depth, maxHops, frontier, v);
    }
  }

  lemma StartSettled(hops: seq<nat>, adj: Adjacency, seeds: seq<nat>)
    requires ValidAdjacency(adj) && (forall s :: s in seeds ==> s < |adj|) && |hops| == |adj|
    requires forall v :: 0 <= v < |adj| ==> hops[v] == if v in seeds then 0 else UNREACHED
    ensures Settled(hops, adj, seeds, 0) && IsFrontier(seeds, adj, seeds, 0)
  {
    forall v: nat
      ensures Distance(adj, seeds, v, 0) <==> v in seeds
    {
      FirstLayerIsDistance(adj, seeds, v, 0);
    }
  }

  /** One layer: all unvisited neighbours of the frontier are one hop further. */
  method ExpandLayer(hops: seq<nat>, frontier: seq<nat>, adj: Adjacency, ghost seeds: seq<nat>, depth: nat)
    returns (hops': seq<nat>, next: seq<nat>)
    requires ValidAdjacency(adj) && (forall s :: s in seeds ==> s < |adj|) && depth + 1 <= UNREACHED
    requires Settled(hops, adj, seeds, depth) && IsFrontier(frontier, adj, seeds, depth)
    ensures Settled(hops', adj, seeds, depth + 1) && IsFrontier(next, adj, seeds, depth + 1)
  {
    hops', next := hops, [];
    ghost var seen: iset<nat> := iset{};
    for k := 0 to |frontier|
      invariant Expanding(hops', next, adj, seeds, depth, seen)
      invariant forall v :: v in seen <==> Touched(adj, frontier, k, v)
    {
      var i := frontier[k];
      assert i in frontier;
      ghost var before := seen;
      for e := 0 to |adj[i]|
        invariant Expanding(hops', next, adj, seeds, depth, seen)
        invariant seen == before + iset v | v in adj[i][..e]
      {
        var j := adj[i][e];
        assert adj[i][..e + 1] == adj[i][..e] + [j];
        if hops'[j] == UNREACHED {
          hops' := hops'[j := depth + 1];
          next := next + [j];
        }
        seen := seen + iset{j};
      }
      assert adj[i][..|adj[i]|] == adj[i];
    }
    LayerDone(hops', next, frontier, adj, seeds, depth, seen);
  }

  lemma LayerDone(hops: seq<nat>, next: seq<nat>, frontier: seq<nat>, adj: Adjacency, seeds: seq<nat>, d: nat,
                  seen: iset<nat>)
    requires ValidAdjacency(adj) && (forall s :: s in seeds ==> s < |adj|) && d + 1 <= UNREACHED
    requires IsFrontier(frontier, adj, seeds, d) && Expanding(hops, next, adj, seeds, d, seen)
    requires forall v :: v in seen <==> Touched(adj, frontier, |frontier|, v)
    ensures Settled(hops, adj, seeds, d + 1) && IsFrontier(next, adj, seeds, d + 1)
  {
    forall v | 0 <= v < |adj|
      ensures Within(adj, seeds, d + 1, v) <==> Within(adj, seeds, d, v) || v in seen
      ensures Distance(adj, seeds, v, d + 1) <==> Within(adj, seeds, d + 1, v) && !Within(adj, seeds, d, v)
    {
      FirstLayerIsDistance(adj, seeds, v, d + 1);
      NewNodesTouchFrontier(adj, seeds, frontier, d, v);
    }
  }

  lemma NewNodesTouchFrontier(adj: Adjacency, seeds: seq<nat>, frontier: seq<nat>, d: nat, v: nat)
    requires ValidAdjacency(adj) && (forall s :: s in seeds ==> s < |adj|) && v < |adj|
    requires IsFrontier(frontier, adj, seeds, d)
    ensures Within(adj, seeds, d + 1, v) <==> Within(adj, seeds, d, v) || Touched(adj, frontier, |frontier|, v)
  {
    if Touched(adj, frontier, |frontier|, v) {
      var i :| 0 <= i < |frontier| && Adjacent(adj, frontier[i], v);
      assert frontier[i] in frontier;
      FirstLayerIsDistance(adj, seeds, frontier[i], d);
    }
    if Within(adj, seeds, d + 1, v) && !Within(adj, seeds, d, v) {
      var u: nat :| u < |adj| && Within(adj, seeds, d, u) && Adjacent(adj, u, v);
      if d > 0 && Within(adj, seeds, d - 1, u) {
        assert false;
      }
      FirstLayerIsDistance(adj, seeds, u, d);
      assert u in frontier;
    }
  }

  lemma SettledIsHop(hops: seq<nat>, adj: Adjacency, seeds: seq<nat>, d: nat, maxHops: nat, frontier: seq<nat>, v: nat)
    requires ValidAdjacency(adj) && (forall s :: s in seeds ==> s < |adj|) && v < |adj| && d <= maxHops <= UNREACHED
    requires Settled(hops, adj, seeds, d) && IsFrontier(frontier, adj, seeds, d)
    requires frontier == [] || d == maxHops
    ensures HopOf(adj, seeds, maxHops, v, hops[v])
  {
    forall c: nat | c <= maxHops && Distance(adj, seeds, v, c)
      ensures Within(adj, seeds, d, v)
    {
      FirstLayerIsDistance(adj, seeds, v, c);
      if c <= d {
        WithinGrows(adj, seeds, c, d, v);
      } else {
        NothingBeyond(adj, seeds, d, c, v);
      }
    }
  }

  /** Once a layer is empty, no later layer has anything new. */
  lemma {:induction false} NothingBeyond(adj: Adjacency, seeds: seq<nat>, d: nat, c: nat, v: nat)
    requires ValidAdjacency(adj) && (forall s :: s in seeds ==> s < |adj|) && v < |adj| && d <= c
    requires forall u :: 0 <= u < |adj| ==> !Distance(adj, seeds, u, d)
    requires Within(adj, seeds, c, v)
    ensures Within(adj, seeds, d, v)
    decreases c
  {
    if c > d && !Within(adj, seeds, c - 1, v) {
      var u: nat :| u < |adj| && Within(adj, seeds, c - 1, u) && Adjacent(adj, u, v);
      NothingBeyond(adj, seeds, d, c - 1, u);
      FirstLayerIsDistance(adj, seeds, u, d);
      if d > 0 {
        assert Within(adj, seeds, d - 1, u);
      }
    } else if c > d {
      NothingBeyond(adj, seeds, d, c - 1, v);
    }
  }

  // ---------------------------------------------------------------------------------------
  // The hits of a multi-hop search
  // ---------------------------------------------------------------------------------------

  /** `ranked.retain(|h| h.hops <= max_hops)`. */
  function Retain(ranked: seq<Scored<nat>>, hops: seq<nat>, maxHops: nat): seq<Scored<nat>>
    requires forall x :: x in ranked ==> x.item < |hops|
  {
    if ranked == [] then [] else
      Retain(ranked[..|ranked| - 1], hops, maxHops)
      + if hops[ranked[|ranked| - 1].item] <= maxHops then [ranked[|ranked| - 1]] else []
  }

  lemma {:induction false} RetainIsFilter(ranked: seq<Scored<nat>>, hops: seq<nat>, maxHops: nat)
    requires forall x :: x in ranked ==> x.item < |hops|
    ensures forall x: Scored<nat> :: x in Retain(ranked, hops, maxHops) <==> x in ranked && hops[x.item] <= maxHops
    ensures multiset(Retain(ranked, hops, maxHops)) <= multiset(ranked)
    ensures Descending(ranked) ==> Descending(Retain(ranked, hops, maxHops))
  {
    if ranked != [] {
      var front, last := ranked[..|ranked| - 1], ranked[|ranked| - 1];
      assert ranked == front + [last];
      RetainIsFilter(front, hops, maxHops);
    }
  }

  /** Rank all nodes by score, keep those inside the radius, keep the first `topK`. */
  function TopHits(scores: seq<real>, hops: seq<nat>, maxHops: nat, topK: nat): seq<Scored<nat>>
    requires |hops| == |scores|
  {
    AllNodes(scores);
    Truncate(Retain(Sorted(Listed(scores)), hops, maxHops), topK)
  }

  lemma AllNodes(scores: seq<real>)
    ensures forall x: Scored<nat> :: x in Sorted(Listed(scores)) <==> x.item < |scores| && x.score == scores[x.item]
  {
    var s := Listed(scores);
    SortedIsRanking(s);
    forall x: Scored<nat>
      ensures x in Sorted(s) <==> x.item < |scores| && x.score == scores[x.item]
    {
      assert x in Sorted(s) <==> x in multiset(Sorted(s));
      if x.item < |scores| && x.score == scores[x.item] {
        assert s[x.item] == x;
      }
    }
  }

  /** A prefix keeps no more copies than the whole. */
  lemma PrefixKeepsCount<T>(s: seq<T>, k: nat)
    ensures multiset(Truncate(s, k)) <= multiset(s)
  {
    var r := Truncate(s, k);
    assert s == r + s[|r|..];
  }

  lemma {:induction false} DistinctOnce<T>(s: seq<T>)
    requires forall i, j :: 0 <= i < j < |s| ==> s[i] != s[j]
    ensures forall x :: multiset(s)[x] <= 1
  {
    if s != [] {
      var front, last := s[..|s| - 1], s[|s| - 1];
      DistinctOnce(front);
      assert s == front + [last];
      assert last !in front;
    }
  }

  /** What `retain` keeps: the nodes within the limit, and with the limit at the marker for nodes not
      reached, all nodes. */
  ghost predicate Inside(adj: Adjacency, seeds: seq<nat>, maxHops: nat, v: nat)
    requires ValidAdjacency(adj)
  {
    v < |adj| && (maxHops == UNREACHED || exists d: nat :: d <= maxHops && Distance(adj, seeds, v, d))
  }

  /** The retained hits are a best-score prefix of exactly the nodes inside the radius. */
  lemma HitsAreBestInside(adj: Adjacency, seeds: seq<nat>, scores: seq<real>, hops: seq<nat>, maxHops: nat, topK: nat)
    requires ValidAdjacency(adj)
    requires |scores| == |hops| == |adj| && maxHops <= UNREACHED
    requires forall v :: 0 <= v < |adj| ==> HopOf(adj, seeds, maxHops, v, hops[v])
    ensures Descending(TopHits(scores, hops, maxHops, topK))
    ensures |TopHits(scores, hops, maxHops, topK)| <= topK
    ensures forall x :: multiset(TopHits(scores, hops, maxHops, topK))[x] <= 1
    ensures forall x: Scored<nat> :: x in TopHits(scores, hops, maxHops, topK) ==>
              Inside(adj, seeds, maxHops, x.item) && x.score == scores[x.item]
    ensures forall v: nat :: Inside(adj, seeds, maxHops, v) && Scored(v, scores[v]) !in TopHits(scores, hops, maxHops, topK) ==>
              |TopHits(scores, hops, maxHops, topK)| == topK
              && forall x :: x in TopHits(scores, hops, maxHops, topK) ==> x.score >= scores[v]
  {
    AllNodes(scores);
    var ranked := Sorted(Listed(scores));
    SortedIsRanking(Listed(scores));
    RetainIsFilter(ranked, hops, maxHops);
    var inside := Retain(ranked, hops, maxHops);
    PrefixKeepsCount(inside, topK);
    DistinctOnce(Listed(scores));
    BestPrefix(inside, topK);
    forall v: nat | Inside(adj, seeds, maxHops, v)
      ensures Scored(v, scores[v]) in inside
    {
      assert Scored(v, scores[v]) in ranked;
    }
  }

  lemma BestPrefix(s: seq<Scored<nat>>, k: nat)
    requires Descending(s)
    ensures Descending(Truncate(s, k))
    ensures forall x :: x in s && x !in Truncate(s, k) ==>
              |Truncate(s, k)| == k && forall y :: y in Truncate(s, k) ==> y.score >= x.score
  {
  }
}
