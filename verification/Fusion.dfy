/** Reciprocal rank fusion of two rankings. Scores are reals. */
module Fusion {
  import opened Strings
  import opened Ranking

  datatype Hit = Hit(id: string, body: string)

  type Pool = map<string, Scored<Hit>>

  function Denominator(k: real, rank: nat): real {
    k + rank as real + 1.0
  }

  /** No place among the first `n` divides by zero. The code takes any `k`; where it would divide by
      zero it computes an infinity, which reals do not have. */
  ghost predicate Defined(k: real, n: nat) {
    forall rank: nat :: rank < n ==> Denominator(k, rank) != 0.0
  }

  /** What a place in a ranking is worth. */
  function Contribution(k: real, rank: nat): real
    requires Denominator(k, rank) != 0.0
  {
    1.0 / Denominator(k, rank)
  }

  function AddOne(m: Pool, h: Hit, c: real): Pool {
    m[h.id := if h.id in m then m[h.id].(score := m[h.id].score + c) else Scored(h, c)]
  }

  /** The pool after the first `j` hits of a ranking. */
  function AddList(m: Pool, list: seq<Hit>, k: real, j: nat): Pool
    requires Defined(k, |list|) && j <= |list|
  {
    if j == 0 then m else AddOne(AddList(m, list, k, j - 1), list[j - 1], Contribution(k, j - 1))
  }

  function Fused(dense: seq<Hit>, sparse: seq<Hit>, k: real): Pool
    requires Defined(k, |dense|) && Defined(k, |sparse|)
  {
    AddList(AddList(map[], dense, k, |dense|), sparse, k, |sparse|)
  }

  /** The best of a pool: in score order, each id once, and nothing better left out. */
  ghost predicate IsTop(m: Pool, cap: nat, out: seq<Scored<Hit>>) {
    && |out| == (if cap < |m| then cap else |m|) && Descending(out)
    && (forall x :: x in out ==> x.item.id in m && m[x.item.id] == x)
    && (forall i, j :: 0 <= i < j < |out| ==> out[i].item.id != out[j].item.id)
    && (forall id :: id in m && m[id] !in out ==> forall x :: x in out ==> x.score >= m[id].score)
  }

  ghost predicate Keyed(m: Pool) {
    forall id :: id in m ==> m[id].item.id == id
  }

  lemma {:induction false} PoolIsKeyed(m: Pool, list: seq<Hit>, k: real, j: nat)
    requires Defined(k, |list|) && j <= |list| && Keyed(m)
    ensures Keyed(AddList(m, list, k, j))
  {
    hide Contribution;
    if j > 0 {
      PoolIsKeyed(m, list, k, j - 1);
    }
  }

  method AddRanking(start: Pool, list: seq<Hit>, k: real) returns (m: Pool)
    requires Defined(k, |list|)
    ensures m == AddList(start, list, k, |list|)
  {
    m := start;
    for rank := 0 to |list|
      invariant m == AddList(start, list, k, rank)
    {
      assert Denominator(k, rank) != 0.0;
      var contrib := 1.0 / (k + rank as real + 1.0);
      var h := list[rank];
      m := m[h.id := if h.id in m then m[h.id].(score := m[h.id].score + contrib) else Scored(h, contrib)];
    }
  }

  /** The values of the pool in any order. */
  method Values(m: Pool) returns (values: seq<Scored<Hit>>)
    requires Keyed(m)
    ensures |values| == |m|
    ensures forall x :: x in values <==> x.item.id in m && m[x.item.id] == x
    ensures forall i, j :: 0 <= i < j < |values| ==> values[i].item.id != values[j].item.id
  {
    values := [];
    var rest := m.Keys;
    while rest != {}
      invariant rest <= m.Keys && |values| == |m| - |rest|
      invariant forall x :: x in values <==> x.item.id in m && m[x.item.id] == x && x.item.id !in rest
      invariant forall i, j :: 0 <= i < j < |values| ==> values[i].item.id != values[j].item.id
      decreases |rest|
    {
      var id :| id in rest;
      forall i | 0 <= i < |values|
        ensures values[i].item.id != id
      {
        assert values[i] in values;
      }
      values := values + [m[id]];
      rest := rest - {id};
    }
  }

  /** Walks the pool in any order; the result is a best part of it whatever the order. */
  method ReciprocalRankFusion(dense: seq<Hit>, sparse: seq<Hit>, k: real, cap: nat) returns (out: seq<Scored<Hit>>)
    requires Defined(k, |dense|) && Defined(k, |sparse|)
    ensures IsTop(Fused(dense, sparse, k), cap, out)
    ensures forall x :: x in out ==> IsFirstOf(dense, sparse, x.item)
  {
    hide AddList, Sorted, IsTop, IsFirstOf;
    var m := AddRanking(map[], dense, k);
    PoolIsKeyed(map[], dense, k, |dense|);
    PoolIsKeyed(m, sparse, k, |sparse|);
    m := AddRanking(m, sparse, k);
    var values := Values(m);
    out := Truncate(Sorted(values), cap);
    TopOfSorted(m, values, cap);
    TopIsFirstOf(dense, sparse, k, cap, out);
  }

  lemma TopOfSorted(m: Pool, values: seq<Scored<Hit>>, cap: nat)
    requires |values| == |m|
    requires forall x :: x in values <==> x.item.id in m && m[x.item.id] == x
    requires forall i, j :: 0 <= i < j < |values| ==> values[i].item.id != values[j].item.id
    requires Keyed(m)
    ensures IsTop(m, cap, Truncate(Sorted(values), cap))
  {
    hide Sorted, Descending, IsTop;
    var r := Sorted(values);
    SortedIsRanking(values);
    PermutationKeepsDistinct(values, r);
    forall x
      ensures x in r <==> x in values
    {
      assert x in r <==> x in multiset(r);
      assert x in values <==> x in multiset(values);
    }
    TopOfRanking(m, r, cap);
  }

  lemma TopOfRanking(m: Pool, r: seq<Scored<Hit>>, cap: nat)
    requires |r| == |m| && Descending(r) && Keyed(m) && forall i, j :: 0 <= i < j < |r| ==> r[i] != r[j]
    requires forall x :: x in r <==> x.item.id in m && m[x.item.id] == x
    ensures IsTop(m, cap, Truncate(r, cap))
  {
    forall i, j | 0 <= i < j < |r|
      ensures r[i].item.id != r[j].item.id
    {
      assert r[i] in r && r[j] in r;
    }
  }

  // ---------------------------------------------------------------------------------------
  // Which hit stands for an id
  // ---------------------------------------------------------------------------------------

  /** Hit `i` is the first of the ranking with its id. */
  ghost predicate IsFirst(list: seq<Hit>, i: nat) {
    i < |list| && forall j :: 0 <= j < i ==> list[j].id != list[i].id
  }

  /** `h`, body included, is the first hit with its id in the dense ranking, or in the sparse one if the
      dense one has none. */
  ghost predicate IsFirstOf(dense: seq<Hit>, sparse: seq<Hit>, h: Hit) {
    if Ranked(dense, h.id) then exists i: nat :: IsFirst(dense, i) && dense[i] == h
    else exists i: nat :: IsFirst(sparse, i) && sparse[i] == h
  }

  ghost predicate ComesFrom(list: seq<Hit>, j: nat, h: Hit) {
    exists i: nat :: IsFirst(list, i) && i < j && list[i] == h
  }

  /** What `all`, which is `m` after the first `j` hits of a ranking, holds for `id`. */
  ghost predicate PoolHit(m: Pool, all: Pool, list: seq<Hit>, j: nat, id: string)
    requires j <= |list|
  {
    if id in m then id in all && all[id].item == m[id].item
    else if id in all then ComesFrom(list, j, all[id].item)
    else forall i :: 0 <= i < j ==> list[i].id != id
  }

  lemma OneHit(m: Pool, all: Pool, list: seq<Hit>, j: nat, c: real, id: string)
    requires j < |list| && PoolHit(m, all, list, j, id)
    ensures PoolHit(m, AddOne(all, list[j], c), list, j + 1, id)
  {
    if id !in all && list[j].id == id {
      assert IsFirst(list, j);
      assert AddOne(all, list[j], c)[id].item == list[j];
    }
  }

  lemma NoHitYet(m: Pool, list: seq<Hit>, id: string)
    ensures PoolHit(m, m, list, 0, id)
  {
  }

  /** The pool keeps the hit it has; a new id comes in with its first hit. */
  lemma {:induction false} ListHits(m: Pool, list: seq<Hit>, k: real, j: nat, id: string)
    requires Defined(k, |list|) && j <= |list|
    ensures PoolHit(m, AddList(m, list, k, j), list, j, id)
  {
    hide Contribution, AddOne, Denominator, PoolHit, ComesFrom;
    if j == 0 {
      NoHitYet(m, list, id);
    } else {
      ListHits(m, list, k, j - 1, id);
      OneHit(m, AddList(m, list, k, j - 1), list, j - 1, Contribution(k, j - 1), id);
    }
  }

  /** For every id of either ranking the pool holds the first hit with it, text and all. */
  lemma FusedHits(dense: seq<Hit>, sparse: seq<Hit>, k: real, id: string)
    requires Defined(k, |dense|) && Defined(k, |sparse|) && id in Fused(dense, sparse, k)
    ensures Fused(dense, sparse, k)[id].item.id == id
    ensures IsFirstOf(dense, sparse, Fused(dense, sparse, k)[id].item)
  {
    hide AddList;
    var m := AddList(map[], dense, k, |dense|);
    PoolIsKeyed(map[], dense, k, |dense|);
    PoolIsKeyed(m, sparse, k, |sparse|);
    ListHits(map[], dense, k, |dense|, id);
    ListHits(m, sparse, k, |sparse|, id);
    assert dense[..|dense|] == dense;
    ListScores(map[], dense, k, |dense|, id);
  }

  lemma TopIsFirstOf(dense: seq<Hit>, sparse: seq<Hit>, k: real, cap: nat, out: seq<Scored<Hit>>)
    requires Defined(k, |dense|) && Defined(k, |sparse|) && IsTop(Fused(dense, sparse, k), cap, out)
    ensures forall x :: x in out ==> IsFirstOf(dense, sparse, x.item)
  {
    hide Fused, IsFirstOf;
    forall x | x in out
      ensures IsFirstOf(dense, sparse, x.item)
    {
      FusedHits(dense, sparse, k, x.item.id);
    }
  }

  // ---------------------------------------------------------------------------------------
  // Scores
  // ---------------------------------------------------------------------------------------

  /** What the first `j` places of a ranking give to `id`. */
  function IdScore(list: seq<Hit>, k: real, id: string, j: nat): real
    requires Defined(k, |list|) && j <= |list|
  {
    if j == 0 then 0.0 else IdScore(list, k, id, j - 1) + if list[j - 1].id == id then Contribution(k, j - 1) else 0.0
  }

  function ScoreOf(m: Pool, id: string): real {
    if id in m then m[id].score else 0.0
  }

  predicate Ranked(list: seq<Hit>, id: string) {
    exists i :: 0 <= i < |list| && list[i].id == id
  }

  lemma {:induction false} ListScores(m: Pool, list: seq<Hit>, k: real, j: nat, id: string)
    requires Defined(k, |list|) && j <= |list|
    ensures ScoreOf(AddList(m, list, k, j), id) == ScoreOf(m, id) + IdScore(list, k, id, j)
    ensures id in AddList(m, list, k, j) <==> id in m || Ranked(list[..j], id)
  {
    hide Contribution;
    if j > 0 {
      ListScores(m, list, k, j - 1, id);
      RankedGrows(list, j - 1, id);
    }
  }

  lemma RankedGrows(list: seq<Hit>, j: nat, id: string)
    requires j < |list|
    ensures Ranked(list[..j + 1], id) <==> Ranked(list[..j], id) || list[j].id == id
  {
    if Ranked(list[..j], id) {
      var i :| 0 <= i < j && list[..j][i].id == id;
      assert list[..j + 1][i].id == id;
    }
    assert list[..j + 1][j] == list[j];
  }

  /** Every id of either ranking is in the pool, with the sum of what its places are worth. */
  lemma FusedScores(dense: seq<Hit>, sparse: seq<Hit>, k: real, id: string)
    requires Defined(k, |dense|) && Defined(k, |sparse|)
    ensures id in Fused(dense, sparse, k) <==> Ranked(dense, id) || Ranked(sparse, id)
    ensures ScoreOf(Fused(dense, sparse, k), id) == IdScore(dense, k, id, |dense|) + IdScore(sparse, k, id, |sparse|)
  {
    hide AddList, IdScore;
    assert dense[..|dense|] == dense && sparse[..|sparse|] == sparse;
    ListScores(map[], dense, k, |dense|, id);
    ListScores(AddList(map[], dense, k, |dense|), sparse, k, |sparse|, id);
  }

  ghost predicate NoDuplicates(list: seq<Hit>) {
    forall i, j :: 0 <= i < j < |list| ==> list[i].id != list[j].id
  }

  lemma {:induction false} ScoreBefore(list: seq<Hit>, k: real, id: string, j: nat)
    requires Defined(k, |list|) && j <= |list| && forall i :: 0 <= i < j ==> list[i].id != id
    ensures IdScore(list, k, id, j) == 0.0
  {
    if j > 0 {
      ScoreBefore(list, k, id, j - 1);
    }
  }

  /** In a ranking without duplicates an id scores what its one place is worth. */
  lemma {:induction false} ScoreAtRank(list: seq<Hit>, k: real, i: nat, j: nat)
    requires Defined(k, |list|) && i < j <= |list| && NoDuplicates(list)
    ensures IdScore(list, k, list[i].id, j) == Contribution(k, i)
    decreases j
  {
    hide Contribution;
    if i == j - 1 {
      ScoreBefore(list, k, list[i].id, i);
    } else {
      ScoreAtRank(list, k, i, j - 1);
    }
  }

  // ---------------------------------------------------------------------------------------
  // Consensus
  // ---------------------------------------------------------------------------------------

  ghost predicate InBoth(dense: seq<Hit>, sparse: seq<Hit>, id: string) {
    Ranked(dense, id) && Ranked(sparse, id)
  }

  ghost predicate InOne(dense: seq<Hit>, sparse: seq<Hit>, id: string) {
    Ranked(dense, id) != Ranked(sparse, id)
  }

  /** Every hit of both rankings scores strictly more than every hit of one. */
  ghost predicate ConsensusFirst(dense: seq<Hit>, sparse: seq<Hit>, k: real)
    requires Defined(k, |dense|) && Defined(k, |sparse|)
  {
    forall a, b :: InBoth(dense, sparse, a) && InOne(dense, sparse, b) ==>
      ScoreOf(Fused(dense, sparse, k), a) > ScoreOf(Fused(dense, sparse, k), b)
  }

  ghost predicate Short(dense: seq<Hit>, sparse: seq<Hit>, n: nat) {
    NoDuplicates(dense) && NoDuplicates(sparse) && |dense| <= n && |sparse| <= n
  }

  ghost predicate ConsensusAlwaysFirst(k: real, n: nat)
    requires Defined(k, n)
  {
    forall dense, sparse :: Short(dense, sparse, n) ==> ConsensusFirst(dense, sparse, k)
  }

  lemma ReciprocalOrder(x: real, y: real)
    requires 0.0 < x <= y
    ensures 1.0 / x >= 1.0 / y > 0.0
  {
    assert x * (1.0 / x) == 1.0 && y * (1.0 / y) == 1.0;
    if 1.0 / x < 1.0 / y {
      Times(x, 1.0 / x, 1.0 / y);
      Widen(x, y, 1.0 / y);
      assert false;
    }
  }

  lemma Times(x: real, a: real, b: real)
    requires x > 0.0 && a < b
    ensures x * a < x * b
  {
  }

  lemma Widen(x: real, y: real, b: real)
    requires x <= y && b > 0.0
    ensures x * b <= y * b
  {
  }

  /** Two places near the end of both rankings against one place at the top. */
  lemma TwoBeatOne(k: real, n: nat)
    requires k > -1.0 && n >= 1
    ensures Defined(k, n)
    ensures Contribution(k, n - 1) + Contribution(k, n - 1) > Contribution(k, 0) <==> n as real < k + 2.0
  {
    var x, y := k + 1.0, k + n as real;
    var a, b := 1.0 / x, 1.0 / y;
    assert x * a == 1.0 && y * b == 1.0;
    CrossMultiply(x, y, a, b);
  }

  lemma CrossMultiply(x: real, y: real, a: real, b: real)
    requires x > 0.0 && y > 0.0 && x * a == 1.0 && y * b == 1.0
    ensures b + b > a <==> x + x > y
  {
    var p := x * y;
    assert p > 0.0;
    assert p * a == y && p * (b + b) == x + x by {
      assert p * a == y * (x * a);
      assert p * (b + b) == (x + x) * (y * b);
    }
    if b + b > a {
      Times(p, a, b + b);
    } else if b + b < a {
      Times(p, b + b, a);
    }
  }

  lemma PlaceBounds(k: real, n: nat, i: nat)
    requires k > -1.0 && i < n
    ensures Defined(k, n)
    ensures Contribution(k, n - 1) <= Contribution(k, i) <= Contribution(k, 0)
    ensures Contribution(k, n - 1) > 0.0
  {
    ReciprocalOrder(k + i as real + 1.0, k + (n - 1) as real + 1.0);
    ReciprocalOrder(k + 1.0, k + i as real + 1.0);
  }

  lemma RankedScore(list: seq<Hit>, k: real, id: string, n: nat)
    requires k > -1.0 && Defined(k, |list|) && NoDuplicates(list) && |list| <= n
    ensures Ranked(list, id) ==> Contribution(k, n - 1) <= IdScore(list, k, id, |list|) <= Contribution(k, 0)
    ensures !Ranked(list, id) ==> IdScore(list, k, id, |list|) == 0.0
  {
    hide Contribution, IdScore;
    if Ranked(list, id) {
      var i :| 0 <= i < |list| && list[i].id == id;
      ScoreAtRank(list, k, i, |list|);
      PlaceBounds(k, n, i);
    } else {
      ScoreBefore(list, k, id, |list|);
    }
  }

  lemma ShortPutsConsensusFirst(dense: seq<Hit>, sparse: seq<Hit>, k: real, n: nat)
    requires k > -1.0 && Defined(k, n) && n as real < k + 2.0 && Short(dense, sparse, n)
    ensures ConsensusFirst(dense, sparse, k)
  {
    hide Contribution, IdScore, Fused, Ranked, NoDuplicates;
    forall a, b | InBoth(dense, sparse, a) && InOne(dense, sparse, b)
      ensures ScoreOf(Fused(dense, sparse, k), a) > ScoreOf(Fused(dense, sparse, k), b)
    {
      FusedScores(dense, sparse, k, a);
      FusedScores(dense, sparse, k, b);
      RankedScore(dense, k, a, n);
      RankedScore(sparse, k, a, n);
      RankedScore(dense, k, b, n);
      RankedScore(sparse, k, b, n);
      RankedNotEmpty(dense, a);
      TwoBeatOne(k, n);
    }
  }

  lemma RankedNotEmpty(list: seq<Hit>, id: string)
    requires Ranked(list, id)
    ensures |list| >= 1
  {
  }

  function Numbered(i: nat): Hit {
    Hit(Show(i), "")
  }

  lemma NumberedApart(i: nat, j: nat)
    ensures Numbered(i).id == Numbered(j).id <==> i == j
  {
    ValueOfShow(i);
    ValueOfShow(j);
  }

  /** Two rankings of length `n` that share their last hit only. */
  function LongDense(n: nat): seq<Hit> {
    seq(n, i requires 0 <= i < n => Numbered(i))
  }

  function LongSparse(n: nat): seq<Hit> {
    seq(n, i requires 0 <= i < n => if i == n - 1 then Numbered(i) else Numbered(n + i))
  }

  lemma LongIsShort(n: nat)
    ensures Short(LongDense(n), LongSparse(n), n)
  {
    forall i, j | 0 <= i < j < n
      ensures LongDense(n)[i].id != LongDense(n)[j].id && LongSparse(n)[i].id != LongSparse(n)[j].id
    {
      NumberedApart(i, j);
      NumberedApart(n + i, j);
      NumberedApart(n + i, n + j);
    }
  }

  /** What the shared last hit and the first hit score. */
  lemma LongScores(k: real, n: nat)
    requires Defined(k, n) && n >= 2
    ensures Short(LongDense(n), LongSparse(n), n)
    ensures ConsensusFirst(LongDense(n), LongSparse(n), k) ==>
              Contribution(k, n - 1) + Contribution(k, n - 1) > Contribution(k, 0)
  {
    hide Contribution, IdScore, Fused, NoDuplicates, Show;
    var dense, sparse := LongDense(n), LongSparse(n);
    var a, b := Numbered(n - 1).id, Numbered(0).id;
    LongIsShort(n);
    assert dense[n - 1].id == a && sparse[n - 1].id == a && dense[0].id == b;
    forall i | 0 <= i < n
      ensures sparse[i].id != b
    {
      NumberedApart(i, 0);
      NumberedApart(n + i, 0);
    }
    FusedScores(dense, sparse, k, a);
    FusedScores(dense, sparse, k, b);
    ScoreAtRank(dense, k, n - 1, n);
    ScoreAtRank(sparse, k, n - 1, n);
    ScoreAtRank(dense, k, 0, n);
    ScoreBefore(sparse, k, b, n);
    assert InBoth(dense, sparse, a) && InOne(dense, sparse, b);
  }

  /** A hit at the top of both rankings, and one below it in the first only. */
  lemma TopScores(k: real)
    requires Defined(k, 2)
    ensures Short(LongDense(2), LongDense(1), 2)
    ensures ConsensusFirst(LongDense(2), LongDense(1), k) ==>
              Contribution(k, 0) + Contribution(k, 0) > Contribution(k, 1)
  {
    hide Contribution, IdScore, Fused, NoDuplicates, Show;
    var dense, sparse := LongDense(2), LongDense(1);
    var a, b := Numbered(0).id, Numbered(1).id;
    LongIsShort(2);
    LongIsShort(1);
    NumberedApart(0, 1);
    assert dense[0].id == a && sparse[0].id == a && dense[1].id == b;
    FusedScores(dense, sparse, k, a);
    FusedScores(dense, sparse, k, b);
    ScoreAtRank(dense, k, 0, 2);
    ScoreAtRank(sparse, k, 0, 1);
    ScoreAtRank(dense, k, 1, 2);
    ScoreBefore(sparse, k, b, 1);
    assert InBoth(dense, sparse, a) && InOne(dense, sparse, b);
  }

  /** Below -1 a place at the top counts against a hit. */
  lemma NegativeBreaksConsensus(k: real, n: nat)
    requires Defined(k, n) && n >= 2 && k < -1.0
    ensures !ConsensusAlwaysFirst(k, n)
  {
    hide ConsensusFirst, NoDuplicates, Contribution, LongDense, LongSparse;
    assert Denominator(k, 0) != 0.0 && Denominator(k, 1) != 0.0;
    assert Defined(k, 2);
    NegativeContributions(k);
    LongScores(k, 2);
    TopScores(k);
    ShortStays(LongDense(2), LongSparse(2), 2, n);
    ShortStays(LongDense(2), LongDense(1), 2, n);
  }

  lemma ShortStays(dense: seq<Hit>, sparse: seq<Hit>, m: nat, n: nat)
    requires Short(dense, sparse, m) && m <= n
    ensures Short(dense, sparse, n)
  {
  }

  lemma NegativeContributions(k: real)
    requires k < -1.0 && Denominator(k, 1) != 0.0
    ensures k < -2.0 ==> Contribution(k, 1) + Contribution(k, 1) <= Contribution(k, 0)
    ensures k > -2.0 ==> Contribution(k, 0) + Contribution(k, 0) <= Contribution(k, 1)
  {
    var x, y := -(k + 1.0), k + 2.0;
    var a, b := 1.0 / x, 1.0 / y;
    assert x > 0.0 && x * a == 1.0 && y * b == 1.0 && Contribution(k, 0) == -a && Contribution(k, 1) == b;
    PositiveInverse(x, a);
    if k < -2.0 {
      PositiveInverse(-y, -b);
      ReciprocalOrder(-y, x);
      assert 1.0 / (-y) == -b;
    } else {
      PositiveInverse(y, b);
    }
  }

  lemma PositiveInverse(x: real, a: real)
    requires x > 0.0 && x * a == 1.0
    ensures a > 0.0
  {
  }

  /** One hit in each ranking at most: there is no hit of both beside a hit of one. */
  lemma SinglesAgree(dense: seq<Hit>, sparse: seq<Hit>, k: real, n: nat)
    requires n <= 1 && Defined(k, n) && Short(dense, sparse, n)
    ensures ConsensusFirst(dense, sparse, k)
  {
    hide Fused;
  }

  /** For rankings of length at most `n` without duplicates, and any `k` that does not divide by zero,
      agreement always wins exactly when `n` is at most one or below `k + 2`. */
  lemma ConsensusThreshold(k: real, n: nat)
    requires Defined(k, n)
    ensures ConsensusAlwaysFirst(k, n) <==> n <= 1 || n as real < k + 2.0
  {
    hide ConsensusFirst, NoDuplicates, Contribution;
    if n <= 1 {
      forall dense, sparse | Short(dense, sparse, n)
        ensures ConsensusFirst(dense, sparse, k)
      {
        SinglesAgree(dense, sparse, k, n);
      }
    } else if n as real < k + 2.0 {
      forall dense, sparse | Short(dense, sparse, n)
        ensures ConsensusFirst(dense, sparse, k)
      {
        ShortPutsConsensusFirst(dense, sparse, k, n);
      }
    } else {
      assert Denominator(k, 0) != 0.0;
      if k < -1.0 {
        NegativeBreaksConsensus(k, n);
      } else {
        LongScores(k, n);
        TwoBeatOne(k, n);
      }
    }
  }

  // ---------------------------------------------------------------------------------------
  // Sizes
  // ---------------------------------------------------------------------------------------

  /** How many hits of the second ranking are in the first. */
  function OverlapTo(dense: seq<Hit>, sparse: seq<Hit>, j: nat): nat
    requires j <= |sparse|
  {
    if j == 0 then 0 else OverlapTo(dense, sparse, j - 1) + if Ranked(dense, sparse[j - 1].id) then 1 else 0
  }

  method RankOverlap(dense: seq<Hit>, sparse: seq<Hit>) returns (overlap: nat)
    ensures overlap == OverlapTo(dense, sparse, |sparse|)
  {
    if dense == [] || sparse == [] {
      NoOverlap(dense, sparse, |sparse|);
      return 0;
    }
    var ids := set i | 0 <= i < |dense| :: dense[i].id;
    overlap := 0;
    for j := 0 to |sparse|
      invariant overlap == OverlapTo(dense, sparse, j)
    {
      if sparse[j].id in ids {
        overlap := overlap + 1;
      }
    }
  }

  lemma {:induction false} NoOverlap(dense: seq<Hit>, sparse: seq<Hit>, j: nat)
    requires j <= |sparse| && (dense == [] || sparse == [])
    ensures OverlapTo(dense, sparse, j) == 0
  {
    if j > 0 {
      NoOverlap(dense, sparse, j - 1);
    }
  }

  /** How many of the first `j` hits were in the pool before. */
  function KnownTo(m: Pool, list: seq<Hit>, j: nat): nat
    requires j <= |list|
  {
    if j == 0 then 0 else KnownTo(m, list, j - 1) + if list[j - 1].id in m then 1 else 0
  }

  lemma {:induction false} PoolGrows(m: Pool, list: seq<Hit>, k: real, j: nat)
    requires Defined(k, |list|) && j <= |list| && NoDuplicates(list)
    ensures |AddList(m, list, k, j)| + KnownTo(m, list, j) == |m| + j
  {
    hide Contribution, Denominator, AddOne, NoDuplicates;
    if j > 0 {
      PoolGrows(m, list, k, j - 1);
      ListScores(m, list, k, j - 1, list[j - 1].id);
      NotRankedBefore(list, j - 1);
      OneMoreKey(AddList(m, list, k, j - 1), list[j - 1], Contribution(k, j - 1));
    }
  }

  lemma NotRankedBefore(list: seq<Hit>, j: nat)
    requires NoDuplicates(list) && j < |list|
    ensures !Ranked(list[..j], list[j].id)
  {
  }

  lemma OneMoreKey(m: Pool, h: Hit, c: real)
    ensures |AddOne(m, h, c)| == |m| + if h.id in m then 0 else 1
  {
    assert AddOne(m, h, c).Keys == m.Keys + {h.id};
  }

  lemma {:induction false} KnownIsOverlap(m: Pool, dense: seq<Hit>, sparse: seq<Hit>, j: nat)
    requires j <= |sparse| && forall id :: id in m <==> Ranked(dense, id)
    ensures KnownTo(m, sparse, j) == OverlapTo(dense, sparse, j)
  {
    if j > 0 {
      KnownIsOverlap(m, dense, sparse, j - 1);
    }
  }

  lemma {:induction false} NothingKnown(list: seq<Hit>, j: nat)
    requires j <= |list|
    ensures KnownTo(map[], list, j) == 0
  {
    if j > 0 {
      NothingKnown(list, j - 1);
    }
  }

  /** Before truncation the fusion holds both rankings, the overlap once. */
  lemma FusedSize(dense: seq<Hit>, sparse: seq<Hit>, k: real)
    requires Defined(k, |dense|) && Defined(k, |sparse|) && NoDuplicates(dense) && NoDuplicates(sparse)
    ensures |Fused(dense, sparse, k)| + OverlapTo(dense, sparse, |sparse|) == |dense| + |sparse|
  {
    hide AddList, KnownTo, OverlapTo, Ranked, NoDuplicates;
    var m := AddList(map[], dense, k, |dense|);
    PoolGrows(map[], dense, k, |dense|);
    NothingKnown(dense, |dense|);
    PoolGrows(m, sparse, k, |sparse|);
    forall id
      ensures id in m <==> Ranked(dense, id)
    {
      assert dense[..|dense|] == dense;
      ListScores(map[], dense, k, |dense|, id);
    }
    KnownIsOverlap(m, dense, sparse, |sparse|);
  }
}
