/** Reranking: both rerankers order all candidates, and the pipeline maps the order back. */
module Rerank {
  import opened Ranking
  import opened Fusion

  /** One item per candidate index, with the score it is ranked by. */
  type Order = seq<Scored<nat>>

  /** What the rerank endpoint answers: indices with scores, or nothing usable. */
  datatype EndpointReply = Failure | Results(items: seq<(nat, real)>)

  /** Scores of the endpoint mapped onto the base scores; indices out of range are ignored, and the
      last score for an index counts. */
  function Mapped(scores: seq<real>, items: seq<(nat, real)>): (r: seq<real>)
    ensures |r| == |scores|
  {
    if items == [] then scores else
      var before, x := Mapped(scores, items[..|items| - 1]), items[|items| - 1];
      if x.0 < |before| then before[x.0 := x.1] else before
  }

  /** The order a reply leads to: the base order if it is of no use. */
  function HttpOrder(base: seq<real>, reply: EndpointReply): Order {
    if reply.Failure? then Listed(base) else Sorted(Listed(Mapped(base, reply.items)))
  }

  method HttpRerank(base: seq<real>, reply: EndpointReply) returns (out: Order)
    ensures out == HttpOrder(base, reply)
  {
    if base == [] {
      assert Listed(base) == [];
      NothingMapped(reply);
      return [];
    }
    if reply.Failure? {
      return Listed(base);
    }
    var scores := base;
    for i := 0 to |reply.items|
      invariant scores == Mapped(base, reply.items[..i])
    {
      assert reply.items[..i + 1][..i] == reply.items[..i];
      var (index, score) := reply.items[i];
      if index < |scores| {
        scores := scores[index := score];
      }
    }
    assert reply.items[..|reply.items|] == reply.items;
    out := Sorted(Listed(scores));
  }

  lemma NothingMapped(reply: EndpointReply)
    ensures reply.Results? ==> Sorted(Listed(Mapped([], reply.items))) == []
  {
    if reply.Results? {
      assert |Mapped([], reply.items)| == 0;
      assert Listed(Mapped([], reply.items)) == [];
    }
  }

  /** What a search can be configured with. */
  datatype Reranker = NoReranker | Local(relevance: Relevance) | Endpoint(reply: EndpointReply)

  /** The order a reranker puts the fused hits in. */
  function OrderOf(fused: seq<Scored<Hit>>, reranker: Reranker): Order {
    match reranker
    case NoReranker => Listed(Scores(fused))
    case Local(relevance) => Sorted(Listed(MockScores(fused, relevance)))
    case Endpoint(reply) => HttpOrder(Scores(fused), reply)
  }

  // ---------------------------------------------------------------------------------------
  // Each index once
  // ---------------------------------------------------------------------------------------

  /** Every index below `n` exactly once, and no other. */
  ghost predicate EachOnce(order: Order, n: nat) {
    && |order| == n
    && (forall i :: 0 <= i < n ==> order[i].item < n)
    && (forall i, j :: 0 <= i < j < n ==> order[i].item != order[j].item)
    && forall k: nat :: k < n ==> Holds(order, k)
  }

  ghost predicate Holds(order: Order, k: nat) {
    exists i :: 0 <= i < |order| && order[i].item == k
  }

  lemma ListedHoldsEachOnce(scores: seq<real>)
    ensures EachOnce(Listed(scores), |scores|)
  {
    forall k: nat | k < |scores|
      ensures Holds(Listed(scores), k)
    {
      assert Listed(scores)[k].item == k;
    }
  }

  lemma PermutedHoldsEachOnce(s: Order, r: Order, n: nat)
    requires EachOnce(s, n) && multiset(r) == multiset(s)
    ensures EachOnce(r, n)
  {
    assert |r| == |multiset(r)| == |multiset(s)| == |s|;
    PermutationKeepsDistinct(s, r);
    forall i | 0 <= i < n
      ensures r[i] in s
    {
      assert r[i] in multiset(s);
    }
    forall i, j | 0 <= i < j < n
      ensures r[i].item != r[j].item
    {
      var a :| 0 <= a < n && s[a] == r[i];
      var b :| 0 <= b < n && s[b] == r[j];
      assert a != b;
    }
    forall k: nat | k < n
      ensures Holds(r, k)
    {
      assert Holds(s, k);
      var i :| 0 <= i < n && s[i].item == k;
      assert s[i] in multiset(r);
    }
  }

  /** Sorting a list of scores names each index once, in score order. */
  lemma SortedHoldsEachOnce(scores: seq<real>)
    ensures EachOnce(Sorted(Listed(scores)), |scores|) && Descending(Sorted(Listed(scores)))
  {
    hide EachOnce;
    SortedIsRanking(Listed(scores));
    ListedHoldsEachOnce(scores);
    PermutedHoldsEachOnce(Listed(scores), Sorted(Listed(scores)), |scores|);
  }

  // ---------------------------------------------------------------------------------------
  // The local reranker
  // ---------------------------------------------------------------------------------------

  /** How much a body has in common with the query: term overlap and identifier bonus. */
  type Relevance = string -> real

  /** What the local reranker gives candidate `i`: a tenth of its base score and a decay by position
      are added to its relevance. */
  function MockScore(fused: seq<Scored<Hit>>, relevance: Relevance, i: nat): real
    requires i < |fused|
  {
    relevance(fused[i].item.body) + 0.1 * fused[i].score + 1.0 / (1.0 + i as real * 0.05)
  }

  function MockScores(fused: seq<Scored<Hit>>, relevance: Relevance): seq<real> {
    seq(|fused|, i requires 0 <= i < |fused| => MockScore(fused, relevance, i))
  }

  method MockRerank(fused: seq<Scored<Hit>>, relevance: Relevance) returns (out: Order)
    ensures EachOnce(out, |fused|) && Descending(out)
    ensures forall x :: x in out ==> IsMockScored(fused, relevance, x)
    ensures out == OrderOf(fused, Local(relevance))
  {
    hide EachOnce, MockScore, IsMockScored;
    var scored: Order := [];
    for i := 0 to |fused|
      invariant scored == Listed(MockScores(fused, relevance)[..i])
    {
      scored := scored + [Scored(i, MockScore(fused, relevance, i))];
    }
    var scores := MockScores(fused, relevance);
    assert scores[..|fused|] == scores;
    out := Sorted(scored);
    SortedHoldsEachOnce(scores);
    SortedIsRanking(Listed(scores));
    ListedScores(fused, relevance, out);
  }

  /** Relevance, a tenth of the base score, and a decay that halves over the first twenty places. */
  ghost predicate IsMockScored(fused: seq<Scored<Hit>>, relevance: Relevance, x: Scored<nat>) {
    && x.item < |fused|
    && x.score == relevance(fused[x.item].item.body) + fused[x.item].score / 10.0 + 20.0 / (20 + x.item) as real
  }

  lemma ListedScores(fused: seq<Scored<Hit>>, relevance: Relevance, out: Order)
    requires multiset(out) == multiset(Listed(MockScores(fused, relevance)))
    ensures forall x :: x in out ==> IsMockScored(fused, relevance, x)
  {
    hide MockScore, IsMockScored;
    forall x | x in out
      ensures IsMockScored(fused, relevance, x)
    {
      assert x in multiset(Listed(MockScores(fused, relevance)));
      MockScoreIs(fused, relevance, x.item);
    }
  }

  lemma MockScoreIs(fused: seq<Scored<Hit>>, relevance: Relevance, i: nat)
    requires i < |fused|
    ensures IsMockScored(fused, relevance, Scored(i, MockScore(fused, relevance, i)))
  {
    var x, y := 1.0 + i as real * 0.05, (20 + i) as real;
    var a, b := 1.0 / x, 20.0 / y;
    assert 20.0 * x == y && x * a == 1.0 && y * b == 20.0;
    SameQuotient(x, a, b);
  }

  lemma SameQuotient(x: real, a: real, b: real)
    requires x > 0.0 && x * a == 1.0 && 20.0 * x * b == 20.0
    ensures a == b
  {
    assert x * a == x * b;
  }

  ghost predicate Before(order: Order, i: nat, j: nat) {
    exists a, b :: 0 <= a < b < |order| && order[a].item == i && order[b].item == j
  }

  /** A candidate stays ahead of every later one that is not more relevant: position and base score
      only ever speak for the base order. */
  lemma MockKeepsBaseOrder(fused: seq<Scored<Hit>>, relevance: Relevance, i: nat, j: nat)
    requires Descending(fused) && i < j < |fused|
    requires relevance(fused[i].item.body) >= relevance(fused[j].item.body)
    ensures Before(OrderOf(fused, Local(relevance)), i, j)
  {
    hide Descending;
    var scores := MockScores(fused, relevance);
    var order := Sorted(Listed(scores));
    MockScoresFall(fused, relevance, i, j);
    SortedHoldsEachOnce(scores);
    SortedIsRanking(Listed(scores));
    var a := PlaceOf(scores, order, i);
    var b := PlaceOf(scores, order, j);
    HigherIsEarlier(order, a, b);
  }

  lemma PlaceOf(scores: seq<real>, order: Order, i: nat) returns (a: nat)
    requires multiset(order) == multiset(Listed(scores)) && i < |scores|
    ensures a < |order| && order[a] == Scored(i, scores[i])
  {
    var x := Listed(scores)[i];
    assert x in multiset(order);
    a :| a < |order| && order[a] == x;
  }

  lemma HigherIsEarlier(order: Order, a: nat, b: nat)
    requires Descending(order) && a < |order| && b < |order| && order[a].score > order[b].score
    ensures a < b
  {
  }

  lemma MockScoresFall(fused: seq<Scored<Hit>>, relevance: Relevance, i: nat, j: nat)
    requires Descending(fused) && i < j < |fused|
    requires relevance(fused[i].item.body) >= relevance(fused[j].item.body)
    ensures MockScore(fused, relevance, i) > MockScore(fused, relevance, j)
  {
    DecayFalls(1.0 + i as real * 0.05, 1.0 + j as real * 0.05);
  }

  lemma DecayFalls(x: real, y: real)
    requires 0.0 < x < y
    ensures 1.0 / x > 1.0 / y
  {
    var a, b := 1.0 / x, 1.0 / y;
    ReciprocalOrder(x, y);
    assert x * a == 1.0 && y * b == 1.0;
    if a == b {
      Times(b, x, y);
      assert false;
    }
  }

  /** The base score, unless the endpoint gave one. */
  ghost predicate KeepsBase(base: seq<real>, reply: EndpointReply, x: Scored<nat>) {
    x.item < |base| && (reply.Failure? || Unscored(reply.items, x.item) ==> x.score == base[x.item])
  }

  /** Whatever the endpoint replies, each index is returned once; what it omits keeps its base score. */
  lemma HttpReturnsEachOnce(base: seq<real>, reply: EndpointReply)
    ensures EachOnce(HttpOrder(base, reply), |base|)
    ensures forall x :: x in HttpOrder(base, reply) ==> KeepsBase(base, reply, x)
    ensures reply.Failure? ==> forall i :: 0 <= i < |base| ==> HttpOrder(base, reply)[i] == Scored(i, base[i])
    ensures reply.Results? ==> Descending(HttpOrder(base, reply))
  {
    hide EachOnce, Unscored;
    if reply.Failure? {
      ListedHoldsEachOnce(base);
    } else {
      var scores := Mapped(base, reply.items);
      SortedHoldsEachOnce(scores);
      SortedIsRanking(Listed(scores));
      forall x | x in Sorted(Listed(scores))
        ensures KeepsBase(base, reply, x)
      {
        assert x in multiset(Listed(scores));
        if Unscored(reply.items, x.item) {
          OmittedKeepsBase(base, reply.items, x.item);
        }
      }
    }
  }

  ghost predicate Unscored(items: seq<(nat, real)>, k: nat) {
    forall i :: 0 <= i < |items| ==> items[i].0 != k
  }

  lemma {:induction false} OmittedKeepsBase(base: seq<real>, items: seq<(nat, real)>, k: nat)
    requires k < |base| && Unscored(items, k)
    ensures Mapped(base, items)[k] == base[k]
  {
    if items != [] {
      OmittedKeepsBase(base, items[..|items| - 1], k);
    }
  }

  /** Of several scores for an index in range the last one counts. */
  lemma {:induction false} LastScoreCounts(base: seq<real>, items: seq<(nat, real)>, at: nat)
    requires at < |items| && items[at].0 < |base| && Unscored(items[at + 1..], items[at].0)
    ensures Mapped(base, items)[items[at].0] == items[at].1
    decreases |items|
  {
    var n := |items| - 1;
    if at < n {
      assert items[at + 1..][n - at - 1] == items[n];
      assert items[..n][at + 1..] == items[at + 1..][..n - at - 1];
      LastScoreCounts(base, items[..n], at);
    }
  }

  // ---------------------------------------------------------------------------------------
  // Back to hits
  // ---------------------------------------------------------------------------------------

  const BIAS: real := 0.000001

  /** The hit for one place of the order, with a bias that falls with the rank. */
  function Replaced(fused: seq<Scored<Hit>>, order: Order, rank: nat): Scored<Hit>
    requires rank < |order| && order[rank].item < |fused|
  {
    Scored(fused[order[rank].item].item, order[rank].score + BIAS * ((|fused| - rank) as real))
  }

  method ApplyOrder(fused: seq<Scored<Hit>>, order: Order) returns (out: seq<Scored<Hit>>)
    requires EachOnce(order, |fused|)
    ensures |out| == |fused| && forall rank :: 0 <= rank < |out| ==> out[rank] == Replaced(fused, order, rank)
  {
    out := [];
    for rank := 0 to |order|
      invariant |out| == rank && forall r :: 0 <= r < rank ==> out[r] == Replaced(fused, order, r)
    {
      var idx := order[rank].item;
      if idx < |fused| {
        var h := fused[idx];
        h := h.(score := order[rank].score);
        h := h.(score := h.score + BIAS * ((|fused| - rank) as real));
        out := out + [h];
      }
    }
  }

  function Hits(s: seq<Scored<Hit>>): seq<Hit> {
    seq(|s|, i requires 0 <= i < |s| => s[i].item)
  }

  /** `s` picked in the order of `order`. */
  function Picked<T>(s: seq<T>, order: Order): seq<T>
    requires forall i :: 0 <= i < |order| ==> order[i].item < |s|
  {
    seq(|order|, i requires 0 <= i < |order| => s[order[i].item])
  }

  /** Take out the place that holds the last index. */
  function Without(order: Order, at: nat): Order
    requires at < |order|
  {
    order[..at] + order[at + 1..]
  }

  lemma WithoutLast(order: Order, n: nat, at: nat)
    requires EachOnce(order, n + 1) && at <= n && order[at].item == n
    ensures EachOnce(Without(order, at), n)
  {
    var w := Without(order, at);
    forall i | 0 <= i < n
      ensures w[i] == order[if i < at then i else i + 1]
    {
    }
    forall k: nat | k < n
      ensures Holds(w, k)
    {
      assert Holds(order, k);
      var i :| 0 <= i < |order| && order[i].item == k;
      assert w[if i < at then i else i - 1] == order[i];
    }
  }

  /** Picking each index once permutes. */
  lemma {:induction false} PickingPermutes<T>(s: seq<T>, order: Order)
    requires EachOnce(order, |s|)
    ensures multiset(Picked(s, order)) == multiset(s)
    decreases |s|
  {
    if s == [] {
      assert Picked(s, order) == [];
    } else {
      var n := |s| - 1;
      assert Holds(order, n);
      var at :| 0 <= at < |order| && order[at].item == n;
      WithoutLast(order, n, at);
      PickingPermutes(s[..n], Without(order, at));
      PickedWithout(s, order, at);
      assert s == s[..n] + [s[n]];
    }
  }

  lemma PickedWithout<T>(s: seq<T>, order: Order, at: nat)
    requires |s| > 0 && |order| == |s| && at < |order| && order[at].item == |s| - 1
    requires forall i :: 0 <= i < |order| && i != at ==> order[i].item < |s| - 1
    ensures forall i :: 0 <= i < |s| - 1 ==> Without(order, at)[i].item < |s| - 1
    ensures multiset(Picked(s, order)) == multiset(Picked(s[..|s| - 1], Without(order, at))) + multiset{s[|s| - 1]}
  {
    var p, w := Picked(s, order), Without(order, at);
    forall i | 0 <= i < |s| - 1
      ensures w[i] == order[if i < at then i else i + 1] && w[i].item < |s| - 1
    {
    }
    assert Picked(s[..|s| - 1], w) == p[..at] + p[at + 1..];
    SplitAt(p, at);
  }

  lemma SplitAt<T>(p: seq<T>, at: nat)
    requires at < |p|
    ensures multiset(p) == multiset(p[..at] + p[at + 1..]) + multiset{p[at]}
  {
    assert p == p[..at] + [p[at]] + p[at + 1..];
  }

  ghost predicate StrictlyDescending(s: seq<Scored<Hit>>) {
    forall i, j :: 0 <= i < j < |s| ==> s[i].score > s[j].score
  }

  /** Reranking permutes the fused hits, for any order that holds each index once; if the order
      descends, the bias makes the final scores strictly descending. */
  lemma RerankingPermutes(fused: seq<Scored<Hit>>, order: Order, out: seq<Scored<Hit>>)
    requires EachOnce(order, |fused|) && |out| == |fused|
    requires forall rank :: 0 <= rank < |out| ==> out[rank] == Replaced(fused, order, rank)
    ensures multiset(Hits(out)) == multiset(Hits(fused))
    ensures Descending(order) ==> StrictlyDescending(out)
  {
    PickingPermutes(Hits(fused), order);
    assert Hits(out) == Picked(Hits(fused), order);
    if Descending(order) {
      forall i, j | 0 <= i < j < |out|
        ensures out[i].score > out[j].score
      {
        assert out[i] == Replaced(fused, order, i) && out[j] == Replaced(fused, order, j);
      }
    }
  }

  // ---------------------------------------------------------------------------------------
  // The tail of a hybrid search
  // ---------------------------------------------------------------------------------------

  function Scores(s: seq<Scored<Hit>>): seq<real> {
    seq(|s|, i requires 0 <= i < |s| => s[i].score)
  }

  /** With either reranker each hit is named once, in score order. */
  lemma OrderHoldsEachOnce(fused: seq<Scored<Hit>>, reranker: Reranker)
    requires Descending(fused)
    ensures EachOnce(OrderOf(fused, reranker), |fused|) && Descending(OrderOf(fused, reranker))
  {
    hide EachOnce, Sorted, Mapped, MockScore;
    match reranker {
      case NoReranker => ListedHoldsEachOnce(Scores(fused));
      case Local(relevance) => SortedHoldsEachOnce(MockScores(fused, relevance));
      case Endpoint(reply) =>
        HttpReturnsEachOnce(Scores(fused), reply);
        if reply.Results? {
          SortedHoldsEachOnce(Mapped(Scores(fused), reply.items));
        }
    }
  }

  /** The hits in the order of the reranker, with its scores and a bias of a millionth for each place
      from the end. */
  ghost predicate Reordered(fused: seq<Scored<Hit>>, order: Order, all: seq<Scored<Hit>>) {
    && EachOnce(order, |fused|) && |all| == |fused|
    && forall rank :: 0 <= rank < |all| ==>
         && all[rank].item == fused[order[rank].item].item
         && all[rank].score == order[rank].score + (|fused| - rank) as real / 1000000.0
  }

  lemma ReplacedReorders(fused: seq<Scored<Hit>>, order: Order, all: seq<Scored<Hit>>)
    requires EachOnce(order, |fused|) && |all| == |fused|
    requires forall rank :: 0 <= rank < |all| ==> all[rank] == Replaced(fused, order, rank)
    ensures Reordered(fused, order, all)
  {
  }

  /** The front of the fused hits, in their own order or in that of the reranker; then no hit is lost
      or made up, and the scores strictly descend. */
  ghost predicate FrontOf(fused: seq<Scored<Hit>>, reranker: Reranker, all: seq<Scored<Hit>>, topK: nat,
                          top: seq<Scored<Hit>>) {
    && top == Truncate(all, topK)
    && if reranker.NoReranker? then all == fused
       else
         && Reordered(fused, OrderOf(fused, reranker), all)
         && multiset(Hits(all)) == multiset(Hits(fused)) && StrictlyDescending(all)
  }

  ghost predicate IsResponse(m: Pool, pool: nat, reranker: Reranker, topK: nat, top: seq<Scored<Hit>>) {
    exists fused, all :: IsTop(m, pool, fused) && FrontOf(fused, reranker, all, topK, top)
  }

  /** Fuse, rerank if there is a reranker, truncate. */
  method HybridTail(dense: seq<Hit>, sparse: seq<Hit>, k: real, pool: nat, reranker: Reranker, topK: nat)
    returns (top: seq<Scored<Hit>>)
    requires Defined(k, |dense|) && Defined(k, |sparse|)
    ensures IsResponse(Fused(dense, sparse, k), pool, reranker, topK, top)
    ensures forall x :: x in top ==> IsFirstOf(dense, sparse, x.item)
  {
    hide IsTop, Fused, OrderOf, Descending, EachOnce, Replaced, Reordered, MockScore, IsFirstOf;
    var fused := ReciprocalRankFusion(dense, sparse, k, pool);
    if reranker.NoReranker? {
      top := Truncate(fused, topK);
      assert FrontOf(fused, reranker, fused, topK, top);
      return;
    }
    TopDescends(Fused(dense, sparse, k), pool, fused);
    OrderHoldsEachOnce(fused, reranker);
    var order;
    if reranker.Local? {
      order := MockRerank(fused, reranker.relevance);
    } else {
      order := HttpRerank(Scores(fused), reranker.reply);
      EndpointOrder(fused, reranker.reply);
    }
    var out := ApplyOrder(fused, order);
    RerankingPermutes(fused, order, out);
    ReplacedReorders(fused, order, out);
    top := Truncate(out, topK);
    assert FrontOf(fused, reranker, out, topK, top);
    SameHits(fused, out);
  }

  /** A permutation of hits holds no other hit. */
  lemma SameHits(fused: seq<Scored<Hit>>, all: seq<Scored<Hit>>)
    requires multiset(Hits(all)) == multiset(Hits(fused))
    ensures forall x :: x in all ==> exists y :: y in fused && y.item == x.item
  {
    forall x | x in all
      ensures exists y :: y in fused && y.item == x.item
    {
      var i :| 0 <= i < |all| && all[i] == x;
      assert Hits(all)[i] in multiset(Hits(fused));
      var j :| 0 <= j < |fused| && Hits(fused)[j] == x.item;
      assert fused[j] in fused;
    }
  }

  lemma EndpointOrder(fused: seq<Scored<Hit>>, reply: EndpointReply)
    ensures OrderOf(fused, Endpoint(reply)) == HttpOrder(Scores(fused), reply)
  {
  }

  lemma TopDescends(m: Pool, cap: nat, out: seq<Scored<Hit>>)
    requires IsTop(m, cap, out)
    ensures Descending(out)
  {
  }
}
