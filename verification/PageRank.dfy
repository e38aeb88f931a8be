/** Power iteration with restart, over any stochastic matrix. */
module PowerIteration {
  import opened Vectors

  type Matrix = seq<Vector>

  ghost predicate Square(rows: Matrix, n: nat) {
    |rows| == n && forall i :: 0 <= i < n ==> |rows[i]| == n
  }

  /** Every row is a probability distribution. */
  ghost predicate Stochastic(rows: Matrix, n: nat) {
    Square(rows, n) && forall i :: 0 <= i < n ==> Distribution(rows[i])
  }

  /** The mass of the first `k` nodes, moved along their rows. */
  ghost function Walk(rows: Matrix, p: Vector, k: nat): (v: Vector)
    requires Square(rows, |p|) && k <= |p|
    ensures |v| == |p|
  {
    if k == 0 then Zero(|p|) else Add(Walk(rows, p, k - 1), Scale(p[k - 1], rows[k - 1]))
  }

  /** One step: restart with probability `alpha`, otherwise walk. */
  ghost function Next(rows: Matrix, t: Vector, alpha: real, p: Vector): (v: Vector)
    requires Square(rows, |p|) && |t| == |p|
    ensures |v| == |p|
  {
    Add(Scale(alpha, t), Scale(1.0 - alpha, Walk(rows, p, |p|)))
  }

  ghost function Iterate(rows: Matrix, t: Vector, alpha: real, p: Vector, k: nat): (v: Vector)
    requires Square(rows, |p|) && |t| == |p|
    ensures |v| == |p|
  {
    if k == 0 then p else Next(rows, t, alpha, Iterate(rows, t, alpha, p, k - 1))
  }

  lemma {:induction false} WalkKeepsMass(rows: Matrix, p: Vector, k: nat)
    requires Stochastic(rows, |p|) && k <= |p| && NonNegative(p)
    ensures Sum(Walk(rows, p, k)) == SumTo(p, k) && NonNegative(Walk(rows, p, k))
  {
    var n := |p|;
    if k == 0 {
      SumZero(n, n);
    } else {
      WalkKeepsMass(rows, p, k - 1);
      var w, r := Walk(rows, p, k - 1), Scale(p[k - 1], rows[k - 1]);
      SumScale(p[k - 1], rows[k - 1], n);
      SumAdd(w, r, n);
      ScaleNonNegative(p[k - 1], rows[k - 1]);
    }
  }

  lemma ScaleNonNegative(c: real, v: Vector)
    requires c >= 0.0 && NonNegative(v)
    ensures NonNegative(Scale(c, v))
  {
    forall i | 0 <= i < |v|
      ensures Scale(c, v)[i] >= 0.0
    {
      Product(c, v[i]);
    }
  }

  lemma MixIsDistribution(c: real, u: Vector, v: Vector)
    requires |u| == |v| && 0.0 <= c <= 1.0 && Distribution(u) && Distribution(v)
    ensures Distribution(Add(Scale(c, u), Scale(1.0 - c, v)))
  {
    SumScale(c, u, |u|);
    SumScale(1.0 - c, v, |u|);
    SumAdd(Scale(c, u), Scale(1.0 - c, v), |u|);
    ScaleNonNegative(c, u);
    ScaleNonNegative(1.0 - c, v);
  }

  /** A step turns a distribution into a distribution. */
  lemma NextIsDistribution(rows: Matrix, t: Vector, alpha: real, p: Vector)
    requires Stochastic(rows, |p|) && |t| == |p| && 0.0 <= alpha <= 1.0
    requires Distribution(t) && Distribution(p)
    ensures Distribution(Next(rows, t, alpha, p))
  {
    WalkKeepsMass(rows, p, |p|);
    MixIsDistribution(alpha, t, Walk(rows, p, |p|));
  }

  lemma {:induction false} WalkContracts(rows: Matrix, p: Vector, q: Vector, k: nat)
    requires |p| == |q| && Stochastic(rows, |p|) && k <= |p|
    ensures Dist(Walk(rows, p, k), Walk(rows, q, k)) <= DistTo(p, q, k)
  {
    var n := |p|;
    if k == 0 {
      DistBasics(Zero(n), Zero(n), n);
    } else {
      WalkContracts(rows, p, q, k - 1);
      var row := rows[k - 1];
      DistScales(p[k - 1], q[k - 1], row, n);
      DistAdd(Walk(rows, p, k - 1), Scale(p[k - 1], row), Walk(rows, q, k - 1), Scale(q[k - 1], row), n);
    }
  }

  lemma MixContracts(a: Vector, d: real, v: Vector, w: Vector, bound: real)
    requires |a| == |v| == |w| && d >= 0.0 && Dist(v, w) <= bound
    ensures Dist(Add(a, Scale(d, v)), Add(a, Scale(d, w))) <= d * bound
  {
    DistScale(d, v, w, |a|);
    AddSame(a, Scale(d, v), Scale(d, w));
    Monotone(d, Dist(v, w), bound);
  }

  lemma AddSame(a: Vector, b: Vector, c: Vector)
    requires |a| == |b| == |c|
    ensures Dist(Add(a, b), Add(a, c)) <= Dist(b, c)
  {
    DistBasics(a, a, |a|);
    DistAdd(a, b, a, c, |a|);
  }

  /** One step brings any two vectors closer by the factor `1 - alpha`. */
  lemma NextContracts(rows: Matrix, t: Vector, alpha: real, p: Vector, q: Vector)
    requires |p| == |q| == |t| && Stochastic(rows, |p|) && 0.0 <= alpha <= 1.0
    ensures Dist(Next(rows, t, alpha, p), Next(rows, t, alpha, q)) <= (1.0 - alpha) * Dist(p, q)
  {
    hide Distribution, Square, Walk, Scale, Add, DistTo;
    WalkContracts(rows, p, q, |p|);
    MixContracts(Scale(alpha, t), 1.0 - alpha, Walk(rows, p, |p|), Walk(rows, q, |p|), Dist(p, q));
  }

  /** The same, about named results. */
  lemma StepContracts(rows: Matrix, t: Vector, alpha: real, beta: real, p: Vector, q: Vector, p': Vector, q': Vector)
    requires |p| == |q| == |t| && Stochastic(rows, |p|) && 0.0 <= alpha <= 1.0 && beta == 1.0 - alpha
    requires p' == Next(rows, t, alpha, p) && q' == Next(rows, t, alpha, q)
    ensures Dist(p', q') <= beta * Dist(p, q)
  {
    NextContracts(rows, t, alpha, p, q);
  }

  lemma {:induction false} IteratesAreDistributions(rows: Matrix, t: Vector, alpha: real, p: Vector, k: nat)
    requires Stochastic(rows, |p|) && |t| == |p| && 0.0 <= alpha <= 1.0
    requires Distribution(t) && Distribution(p)
    ensures Distribution(Iterate(rows, t, alpha, p, k))
  {
    if k > 0 {
      IteratesAreDistributions(rows, t, alpha, p, k - 1);
      NextIsDistribution(rows, t, alpha, Iterate(rows, t, alpha, p, k - 1));
    }
  }

  function Power(x: real, k: nat): real {
    if k == 0 then 1.0 else x * Power(x, k - 1)
  }

  /** How far iterate `k` is from the next one. */
  ghost function Delta(rows: Matrix, t: Vector, alpha: real, p: Vector, k: nat): real
    requires Square(rows, |p|) && |t| == |p|
  {
    Dist(Iterate(rows, t, alpha, p, k), Iterate(rows, t, alpha, p, k + 1))
  }

  /** The successive deltas shrink geometrically. */
  lemma DeltasShrink(rows: Matrix, t: Vector, alpha: real, p: Vector, k: nat)
    requires Stochastic(rows, |p|) && |t| == |p| && 0.0 <= alpha <= 1.0
    ensures Delta(rows, t, alpha, p, k) <= Power(1.0 - alpha, k) * Delta(rows, t, alpha, p, 0)
  {
    hide Iterate, DistTo, Square, Power, Delta, Distribution;
    var beta := 1.0 - alpha;
    var deltas := seq(k + 1, i requires 0 <= i < k + 1 => Delta(rows, t, alpha, p, i));
    forall i: nat | i < k
      ensures Shrinks(deltas[i], deltas[i + 1], beta)
    {
      DeltaShrinks(rows, t, alpha, beta, p, i);
    }
    Geometric(deltas, beta, k);
  }

  ghost predicate Shrinks(d: real, e: real, beta: real) {
    e <= beta * d
  }

  lemma {:induction false} Geometric(d: seq<real>, beta: real, k: nat)
    requires beta >= 0.0 && k < |d|
    requires forall i: nat :: i + 1 < |d| ==> Shrinks(d[i], d[i + 1], beta)
    ensures d[k] <= Power(beta, k) * d[0]
  {
    if k > 0 {
      Geometric(d, beta, k - 1);
      assert Shrinks(d[k - 1], d[(k - 1) + 1], beta);
      Compound(beta, k - 1, d[0], d[k - 1], d[k]);
    }
  }

  lemma DeltaShrinks(rows: Matrix, t: Vector, alpha: real, beta: real, p: Vector, k: nat)
    requires Stochastic(rows, |p|) && |t| == |p| && 0.0 <= alpha <= 1.0 && beta == 1.0 - alpha
    ensures Delta(rows, t, alpha, p, k + 1) <= beta * Delta(rows, t, alpha, p, k)
  {
    var a, b, c := Iterate(rows, t, alpha, p, k), Iterate(rows, t, alpha, p, k + 1), Iterate(rows, t, alpha, p, k + 2);
    assert c == Next(rows, t, alpha, b);
    StepContracts(rows, t, alpha, beta, a, b, b, c);
  }

  lemma Compound(x: real, k: nat, d: real, e: real, f: real)
    requires x >= 0.0 && e <= Power(x, k) * d && f <= x * e
    ensures f <= Power(x, k + 1) * d
  {
    Monotone(x, e, Power(x, k) * d);
    assert x * (Power(x, k) * d) == x * Power(x, k) * d;
  }

  /** The stopping rule is sound: after a step that moved by `Delta`, the distance of the result
      to any fixed point is at most `(1 - alpha) / alpha` times that. */
  lemma ErrorBound(rows: Matrix, t: Vector, alpha: real, p: Vector, k: nat, x: Vector)
    requires |t| == |p| == |x| && Stochastic(rows, |p|) && 0.0 < alpha <= 1.0
    requires Next(rows, t, alpha, x) == x
    ensures alpha * Dist(Iterate(rows, t, alpha, p, k + 1), x) <= (1.0 - alpha) * Delta(rows, t, alpha, p, k)
  {
    hide DistTo, Next;
    ErrorOfStep(rows, t, alpha, 1.0 - alpha, Iterate(rows, t, alpha, p, k), Iterate(rows, t, alpha, p, k + 1), x);
  }

  lemma ErrorOfStep(rows: Matrix, t: Vector, alpha: real, beta: real, a: Vector, b: Vector, x: Vector)
    requires |t| == |a| == |x| && Stochastic(rows, |a|) && 0.0 < alpha <= 1.0 && beta == 1.0 - alpha
    requires b == Next(rows, t, alpha, a) && x == Next(rows, t, alpha, x)
    ensures alpha * Dist(b, x) <= beta * Dist(a, b)
  {
    hide DistTo, Next;
    StepContracts(rows, t, alpha, beta, a, x, b, x);
    Triangle(a, b, x, |a|);
    SolveBound(alpha, beta, Dist(b, x), Dist(a, x), Dist(a, b));
  }

  lemma SolveBound(alpha: real, beta: real, e: real, f: real, delta: real)
    requires 0.0 < alpha <= 1.0 && beta == 1.0 - alpha && e <= beta * f && f <= delta + e
    ensures alpha * e <= beta * delta
  {
    Monotone(beta, f, delta + e);
    Distribute(beta, delta, e);
    assert e == beta * e + alpha * e;
  }

  /** The stopping rule bounds all that the iteration could still do, whether or not it has a fixed
      point: no later iterate is further away than `(1 - alpha) / alpha` times the last move. */
  lemma {:induction false} LaterIterates(rows: Matrix, t: Vector, alpha: real, p: Vector, k: nat, m: nat)
    requires Stochastic(rows, |p|) && |t| == |p| && 0.0 <= alpha <= 1.0
    ensures alpha * Dist(Iterate(rows, t, alpha, p, k + 1), Iterate(rows, t, alpha, p, k + 1 + m))
            <= (1.0 - alpha) * Delta(rows, t, alpha, p, k)
    decreases m
  {
    hide DistTo, Next, Distribution;
    var a, b := Iterate(rows, t, alpha, p, k), Iterate(rows, t, alpha, p, k + 1);
    DistBasics(b, b, |b|);
    DistBasics(a, b, |a|);
    if m == 0 {
      Product(1.0 - alpha, Dist(a, b));
    } else {
      LaterIterates(rows, t, alpha, p, k, m - 1);
      var c, d := Iterate(rows, t, alpha, p, k + m), Iterate(rows, t, alpha, p, k + 1 + m);
      LaterStep(rows, t, alpha, 1.0 - alpha, a, b, c, d);
    }
  }

  lemma LaterStep(rows: Matrix, t: Vector, alpha: real, beta: real, a: Vector, b: Vector, c: Vector, d: Vector)
    requires |a| == |t| == |b| == |c| == |d| && Stochastic(rows, |a|) && 0.0 <= alpha <= 1.0 && beta == 1.0 - alpha
    requires b == Next(rows, t, alpha, a) && d == Next(rows, t, alpha, c)
    requires alpha * Dist(b, c) <= beta * Dist(a, b)
    ensures alpha * Dist(b, d) <= beta * Dist(a, b)
  {
    hide DistTo, Next, Distribution;
    StepContracts(rows, t, alpha, beta, a, c, b, d);
    Triangle(a, b, c, |a|);
    LaterBound(alpha, beta, Dist(b, d), Dist(a, c), Dist(b, c), Dist(a, b));
  }

  lemma LaterBound(alpha: real, beta: real, e: real, f: real, g: real, delta: real)
    requires 0.0 <= alpha <= 1.0 && beta == 1.0 - alpha && e <= beta * f && f <= delta + g && alpha * g <= beta * delta
    ensures alpha * e <= beta * delta
  {
    FarBound(alpha, beta, f, g, delta);
    NearBound(alpha, beta, e, f, delta);
  }

  lemma FarBound(alpha: real, beta: real, f: real, g: real, delta: real)
    requires 0.0 <= alpha && alpha + beta == 1.0 && f <= delta + g && alpha * g <= beta * delta
    ensures alpha * f <= delta
  {
    Monotone(alpha, f, delta + g);
    Distribute(alpha, delta, g);
    WholeOf(alpha, beta, delta);
  }

  lemma NearBound(alpha: real, beta: real, e: real, f: real, delta: real)
    requires 0.0 <= alpha && 0.0 <= beta && e <= beta * f && alpha * f <= delta
    ensures alpha * e <= beta * delta
  {
    var x, y := alpha * f, beta * f;
    Monotone(beta, x, delta);
    Monotone(alpha, e, y);
    Exchange(alpha, beta, f, y, x);
  }

  lemma WholeOf(alpha: real, beta: real, d: real)
    requires alpha + beta == 1.0
    ensures alpha * d + beta * d == d
  {
    assert alpha * d + beta * d == (alpha + beta) * d;
  }

  lemma Exchange(x: real, y: real, z: real, u: real, v: real)
    requires u == y * z && v == x * z
    ensures x * u == y * v
  {
    assert x * u == x * y * z && y * v == x * y * z;
  }

  /** There is at most one stationary vector. */
  lemma FixedPointUnique(rows: Matrix, t: Vector, alpha: real, x: Vector, y: Vector)
    requires |t| == |x| == |y| && Stochastic(rows, |x|) && 0.0 < alpha <= 1.0
    requires Next(rows, t, alpha, x) == x && Next(rows, t, alpha, y) == y
    ensures x == y
  {
    NextContracts(rows, t, alpha, x, y);
    DistBasics(x, y, |x|);
    Vanishes(alpha, Dist(x, y));
  }

  lemma Vanishes(alpha: real, d: real)
    requires alpha > 0.0 && d >= 0.0 && d <= (1.0 - alpha) * d
    ensures d == 0.0
  {
    assert (1.0 - alpha) * d == d - alpha * d;
    Product(alpha, d);
    assert alpha * d == 0.0;
  }
}

/** Personalised PageRank on a weighted graph. Scores are reals: rounding is not modelled. */
module PageRank {
  import opened Vectors
  import opened Sequences
  import opened PowerIteration

  datatype Edge = Edge(to: nat, weight: real)
  type Graph = seq<seq<Edge>>

  /** Neighbour indices are node indices. */
  ghost predicate ValidEdges(es: seq<Edge>, n: nat) {
    forall e :: 0 <= e < |es| ==> es[e].to < n
  }

  ghost predicate ValidGraph(g: Graph) {
    forall i :: 0 <= i < |g| ==> ValidEdges(g[i], |g|)
  }

  ghost predicate Weighted(es: seq<Edge>) {
    forall e :: 0 <= e < |es| ==> es[e].weight >= 0.0
  }

  /** No weight is negative. */
  ghost predicate WeightedGraph(g: Graph) {
    forall i :: 0 <= i < |g| ==> Weighted(g[i])
  }

  function WeightTo(es: seq<Edge>, k: nat): real
    requires k <= |es|
  {
    if k == 0 then 0.0 else WeightTo(es, k - 1) + es[k - 1].weight
  }

  function OutWeight(es: seq<Edge>): real {
    WeightTo(es, |es|)
  }

  /** The share of a node's mass that each node receives along its first `k` edges. */
  ghost function Spread(es: seq<Edge>, k: nat, total: real, n: nat): (v: Vector)
    requires ValidEdges(es, n) && k <= |es| && total > 0.0
    ensures |v| == n
  {
    if k == 0 then Zero(n) else
      var v := Spread(es, k - 1, total, n);
      v[es[k - 1].to := v[es[k - 1].to] + es[k - 1].weight / total]
  }

  predicate Dangling(es: seq<Edge>) {
    OutWeight(es) <= 0.0
  }

  /** Where the mass of a node goes when it does not restart: along its edges, or, from a node
      without out-weight, back to the teleport vector. */
  ghost function Row(es: seq<Edge>, t: Vector): (v: Vector)
    requires ValidEdges(es, |t|)
    ensures |v| == |t|
  {
    if Dangling(es) then t else Spread(es, |es|, OutWeight(es), |t|)
  }

  ghost function Rows(g: Graph, t: Vector): (rows: Matrix)
    requires ValidGraph(g) && |t| == |g|
    ensures Square(rows, |g|)
  {
    seq(|g|, i requires 0 <= i < |g| => Row(g[i], t))
  }

  lemma Share(x: real, y: real, total: real)
    requires total > 0.0 && y >= 0.0
    ensures (x + y) / total == x / total + y / total && y / total >= 0.0
  {
    assert total * (y / total) == y;
    Cancel(total, y / total);
  }

  lemma {:induction false} SpreadSum(es: seq<Edge>, k: nat, total: real, n: nat)
    requires ValidEdges(es, n) && Weighted(es) && k <= |es| && total > 0.0
    ensures Sum(Spread(es, k, total, n)) == WeightTo(es, k) / total
    ensures NonNegative(Spread(es, k, total, n))
  {
    if k == 0 {
      SumZero(n, n);
    } else {
      var e := es[k - 1];
      SpreadSum(es, k - 1, total, n);
      SumUpdate(Spread(es, k - 1, total, n), Spread(es, k, total, n), e.to, e.weight / total, n);
      Share(WeightTo(es, k - 1), e.weight, total);
    }
  }

  // --- rows, entry by entry ----------------------------------------------------------------

  /** The weight of the first `k` edges that lead to `j`. */
  function WeightOn(es: seq<Edge>, k: nat, j: nat): real
    requires k <= |es|
  {
    if k == 0 then 0.0 else WeightOn(es, k - 1, j) + if es[k - 1].to == j then es[k - 1].weight else 0.0
  }

  lemma Quotients(x: real, y: real, total: real)
    requires total > 0.0
    ensures (x + y) / total == x / total + y / total && 0.0 / total == 0.0
  {
  }

  lemma {:induction false} SpreadAt(es: seq<Edge>, k: nat, total: real, n: nat, j: nat)
    requires ValidEdges(es, n) && k <= |es| && total > 0.0 && j < n
    ensures Spread(es, k, total, n)[j] == WeightOn(es, k, j) / total
  {
    if k == 0 {
      Quotients(0.0, 0.0, total);
    } else {
      SpreadAt(es, k - 1, total, n, j);
      Quotients(WeightOn(es, k - 1, j), es[k - 1].weight, total);
    }
  }

  ghost function WeightsOn(es: seq<Edge>, k: nat, n: nat): (v: Vector)
    requires k <= |es|
    ensures |v| == n
  {
    seq(n, j requires 0 <= j < n => WeightOn(es, k, j))
  }

  /** The out-weight is the weight on all nodes together. */
  lemma {:induction false} OutWeightIsSum(es: seq<Edge>, k: nat, n: nat)
    requires ValidEdges(es, n) && k <= |es|
    ensures WeightTo(es, k) == Sum(WeightsOn(es, k, n))
  {
    var v := WeightsOn(es, k, n);
    if k == 0 {
      SumIsZero(v, n);
    } else {
      OutWeightIsSum(es, k - 1, n);
      SumUpdate(WeightsOn(es, k - 1, n), v, es[k - 1].to, es[k - 1].weight, n);
    }
  }

  /** With one edge to each target the weight on a target is that of its edge. */
  lemma {:induction false} WeightOnOne(es: seq<Edge>, k: nat, j: nat)
    requires k <= |es| && forall d, e :: 0 <= d < e < |es| ==> es[d].to != es[e].to
    ensures (forall e :: 0 <= e < k ==> es[e].to != j) ==> WeightOn(es, k, j) == 0.0
    ensures forall e :: 0 <= e < k && es[e].to == j ==> WeightOn(es, k, j) == es[e].weight
  {
    if k > 0 {
      WeightOnOne(es, k - 1, j);
    }
  }

  /** Without negative weights no mass is lost, whatever the graph: the rows, dangling nodes included, are stochastic. */
  lemma GraphIsStochastic(g: Graph, t: Vector)
    requires ValidGraph(g) && WeightedGraph(g) && |t| == |g| && Distribution(t)
    ensures Stochastic(Rows(g, t), |g|)
  {
    forall i | 0 <= i < |g|
      ensures Distribution(Rows(g, t)[i])
    {
      assert ValidEdges(g[i], |g|) && Weighted(g[i]);
      RowIsDistribution(g[i], t);
    }
  }

  lemma RowIsDistribution(es: seq<Edge>, t: Vector)
    requires ValidEdges(es, |t|) && Weighted(es) && Distribution(t)
    ensures Distribution(Row(es, t))
  {
    if !Dangling(es) {
      SpreadSum(es, |es|, OutWeight(es), |t|);
      assert OutWeight(es) / OutWeight(es) == 1.0;
    }
  }

  // ---------------------------------------------------------------------------------------
  // The teleport vector
  // ---------------------------------------------------------------------------------------

  /** Equal mass at every seed; assignment, so a repeated seed counts once. */
  ghost function Seeded(seeds: seq<nat>, share: real, n: nat): Vector {
    seq(n, j requires 0 <= j < n => if j in seeds then share else 0.0)
  }

  method Personalise(seeds: seq<nat>, n: nat) returns (p: Vector)
    requires seeds != [] && forall s :: s in seeds ==> s < n
    ensures p == Seeded(seeds, 1.0 / |seeds| as real, n)
  {
    var seedShare := 1.0 / |seeds| as real;
    p := Zero(n);
    for k := 0 to |seeds|
      invariant |p| == n
      invariant forall j :: 0 <= j < n ==> p[j] == if j in seeds[..k] then seedShare else 0.0
    {
      assert seeds[k] in seeds && seeds[..k + 1] == seeds[..k] + [seeds[k]];
      p := p[seeds[k] := seedShare];
    }
    assert seeds[..|seeds|] == seeds;
  }

  lemma {:induction false} SeededSum(seeds: seq<nat>, share: real, n: nat, k: nat)
    requires k <= n
    ensures SumTo(Seeded(seeds, share, n), k) == |SeedsBelow(seeds, k)| as real * share
  {
    hide SeedsBelow;
    if k > 0 {
      SeededSum(seeds, share, n, k - 1);
      OneMoreBelow(seeds, k);
      OneMoreShare(|SeedsBelow(seeds, k - 1)| as real, share);
    } else {
      NoneBelow(seeds);
    }
  }

  lemma OneMoreShare(c: real, share: real)
    ensures (c + 1.0) * share == c * share + share
  {
  }

  lemma NoneBelow(seeds: seq<nat>)
    ensures |SeedsBelow(seeds, 0)| == 0
  {
  }

  lemma OneMoreBelow(seeds: seq<nat>, k: nat)
    requires k > 0
    ensures |SeedsBelow(seeds, k)| == |SeedsBelow(seeds, k - 1)| + if k - 1 in seeds then 1 else 0
  {
    if k - 1 in seeds {
      assert SeedsBelow(seeds, k) == SeedsBelow(seeds, k - 1) + {k - 1};
    } else {
      assert SeedsBelow(seeds, k) == SeedsBelow(seeds, k - 1);
    }
  }

  function SeedsBelow(seeds: seq<nat>, k: nat): set<nat> {
    set s | s in seeds && s < k
  }

  lemma {:induction false} DistinctCount<T>(s: seq<T>)
    ensures |Elements(s)| <= |s|
    ensures |Elements(s)| == |s| <==> Distinct(s)
  {
    if s != [] {
      var front, last := s[..|s| - 1], s[|s| - 1];
      DistinctCount(front);
      assert forall x :: x in s <==> x in front || x == last;
      var a, b := Elements(s), Elements(front);
      if last in front {
        assert a == b;
      } else {
        assert a == b + {last};
      }
    }
  }

  /** The personalisation vector is a distribution exactly when no seed is repeated. */
  lemma SeedsMakeDistribution(seeds: seq<nat>, n: nat)
    requires seeds != [] && forall s :: s in seeds ==> s < n
    ensures Distribution(Seeded(seeds, 1.0 / |seeds| as real, n)) <==> Distinct(seeds)
  {
    hide Seeded, NonNegative, Distinct, Elements;
    var m := |seeds| as real;
    var share := 1.0 / m;
    assert m * share == 1.0;
    SeededTotal(seeds, share, n);
    DistinctCount(seeds);
    Ratio(|Elements(seeds)| as real, m, share);
    SeededNonNegative(seeds, share, n);
  }

  lemma SeededTotal(seeds: seq<nat>, share: real, n: nat)
    requires forall s :: s in seeds ==> s < n
    ensures Sum(Seeded(seeds, share, n)) == |Elements(seeds)| as real * share
  {
    SeededSum(seeds, share, n, n);
    assert SeedsBelow(seeds, n) == Elements(seeds);
  }

  lemma SeededNonNegative(seeds: seq<nat>, share: real, n: nat)
    requires share >= 0.0
    ensures NonNegative(Seeded(seeds, share, n))
  {
  }

  lemma Ratio(c: real, m: real, share: real)
    requires m > 0.0 && c <= m && m * share == 1.0
    ensures share > 0.0 && (c * share == 1.0 <==> c == m)
  {
    Cancel(m, share);
    assert share != 0.0;
    if c < m {
      StrictProduct(m - c, share);
      assert (m - c) * share == m * share - c * share;
    }
  }

  // ---------------------------------------------------------------------------------------
  // The iteration as the code runs it
  // ---------------------------------------------------------------------------------------

  /** What the first `k` nodes of one kind have passed on, keeping the share `beta`. */
  ghost function Flow(g: Graph, rows: Matrix, beta: real, p: Vector, k: nat, dangling: bool): (v: Vector)
    requires Square(rows, |g|) && |p| == |g| && k <= |g|
    ensures |v| == |g|
  {
    if k == 0 then Zero(|g|) else
      var v := Flow(g, rows, beta, p, k - 1, dangling);
      if Dangling(g[k - 1]) == dangling then Add(v, Scale(beta, Scale(p[k - 1], rows[k - 1]))) else v
  }

  /** Both kinds of nodes together move the mass of the walk. */
  lemma {:induction false} FlowsAreWalk(g: Graph, rows: Matrix, beta: real, p: Vector, k: nat)
    requires Square(rows, |g|) && |p| == |g| && k <= |g|
    ensures Add(Flow(g, rows, beta, p, k, false), Flow(g, rows, beta, p, k, true)) == Scale(beta, Walk(rows, p, k))
  {
    hide Add, Scale;
    if k > 0 {
      FlowsAreWalk(g, rows, beta, p, k - 1);
      var a, b := Flow(g, rows, beta, p, k - 1, false), Flow(g, rows, beta, p, k - 1, true);
      FlowsGrow(a, b, Walk(rows, p, k - 1), beta, Scale(p[k - 1], rows[k - 1]));
    } else {
      NoFlow(|g|, beta);
    }
  }

  lemma FlowsGrow(a: Vector, b: Vector, w: Vector, beta: real, r: Vector)
    requires |a| == |b| == |w| == |r| && Add(a, b) == Scale(beta, w)
    ensures Add(a, Add(b, Scale(beta, r))) == Scale(beta, Add(w, r))
    ensures Add(Add(a, Scale(beta, r)), b) == Scale(beta, Add(w, r))
  {
    forall j | 0 <= j < |a|
      ensures a[j] + b[j] + Scale(beta, r)[j] == Scale(beta, Add(w, r))[j]
    {
      assert Add(a, b)[j] == Scale(beta, w)[j];
      Distribute(beta, w[j], r[j]);
    }
  }

  lemma NoFlow(n: nat, beta: real)
    ensures Add(Zero(n), Zero(n)) == Scale(beta, Zero(n))
  {
    forall j | 0 <= j < n
      ensures Scale(beta, Zero(n))[j] == 0.0
    {
    }
  }

  lemma AddNothing(v: Vector, beta: real, m: real, r: Vector)
    requires |v| == |r| && m == 0.0
    ensures Add(v, Scale(beta, Scale(m, r))) == v
  {
    forall j | 0 <= j < |v|
      ensures Add(v, Scale(beta, Scale(m, r)))[j] == v[j]
    {
      assert Scale(m, r)[j] == 0.0;
    }
  }

  lemma ScaleTwice(c: real, beta: real, m: real, r: Vector)
    requires c == beta * m
    ensures Scale(c, r) == Scale(beta, Scale(m, r))
  {
    forall j | 0 <= j < |r|
      ensures Scale(c, r)[j] == Scale(beta, Scale(m, r))[j]
    {
      assert beta * m * r[j] == beta * (m * r[j]);
    }
  }

  /** The mass that takes part in a step: only positive mass leaves a dangling node. */
  ghost function Kept(g: Graph, p: Vector): (q: Vector)
    requires |p| == |g|
    ensures |q| == |p|
    ensures NonNegative(p) ==> q == p
  {
    seq(|p|, i requires 0 <= i < |p| => if Dangling(g[i]) && p[i] < 0.0 then 0.0 else p[i])
  }

  lemma {:induction false} EdgesKeep(g: Graph, rows: Matrix, beta: real, p: Vector, k: nat)
    requires Square(rows, |g|) && |p| == |g| && k <= |g|
    ensures Flow(g, rows, beta, Kept(g, p), k, false) == Flow(g, rows, beta, p, k, false)
  {
    hide Add, Scale;
    if k > 0 {
      EdgesKeep(g, rows, beta, p, k - 1);
    }
  }

  /** Push the mass of one node along its edges. */
  method PushAlong(next: array<real>, es: seq<Edge>, outgoing: real, total: real)
    requires ValidEdges(es, next.Length) && total > 0.0
    modifies next
    ensures next[..] == Add(old(next[..]), Scale(outgoing, Spread(es, |es|, total, next.Length)))
  {
    hide Scale, Add, Spread;
    ghost var before := next[..];
    NothingPushed(before, outgoing, es, total);
    for e := 0 to |es|
      invariant next[..] == Add(before, Scale(outgoing, Spread(es, e, total, next.Length)))
    {
      var j := es[e].to;
      ghost var now := next[..];
      var share := es[e].weight / total;
      var x := outgoing * share;
      next[j] := next[j] + x;
      OneEdgePushed(before, now, next[..], outgoing, es, e, total, share, x);
    }
  }

  lemma NothingPushed(v: Vector, c: real, es: seq<Edge>, total: real)
    requires ValidEdges(es, |v|) && total > 0.0
    ensures Add(v, Scale(c, Spread(es, 0, total, |v|))) == v
  {
    forall j | 0 <= j < |v|
      ensures Scale(c, Spread(es, 0, total, |v|))[j] == 0.0
    {
    }
  }

  lemma ScaleUpdate(c: real, s: Vector, s': Vector, i: nat, w: real, x: real)
    requires i < |s| && s' == s[i := s[i] + w] && x == c * w
    ensures Scale(c, s') == Scale(c, s)[i := Scale(c, s)[i] + x]
  {
    Distribute(c, s[i], w);
    forall j | 0 <= j < |s|
      ensures Scale(c, s')[j] == Scale(c, s)[i := Scale(c, s)[i] + x][j]
    {
    }
  }

  lemma AddUpdate(v: Vector, u: Vector, u': Vector, i: nat, x: real, now: Vector, after: Vector)
    requires |u| == |v| == |now| && i < |v| && u' == u[i := u[i] + x]
    requires now == Add(v, u) && after == now[i := now[i] + x]
    ensures after == Add(v, u')
  {
  }

  lemma OneEdgePushed(v: Vector, now: Vector, after: Vector, c: real, es: seq<Edge>, e: nat, total: real,
                      w: real, x: real)
    requires ValidEdges(es, |v|) && total > 0.0 && e < |es| && |now| == |v|
    requires now == Add(v, Scale(c, Spread(es, e, total, |v|)))
    requires w == es[e].weight / total && x == c * w && after == now[es[e].to := now[es[e].to] + x]
    ensures after == Add(v, Scale(c, Spread(es, e + 1, total, |v|)))
  {
    var s, s' := Spread(es, e, total, |v|), Spread(es, e + 1, total, |v|);
    var i := es[e].to;
    assert s' == s[i := s[i] + w];
    ScaleUpdate(c, s, s', i, w, x);
    AddUpdate(v, Scale(c, s), Scale(c, s'), i, x, now, after);
  }

  /** Return the mass of one dangling node to the teleport vector. */
  method PushBack(next: array<real>, t: Vector, mass: real)
    requires |t| == next.Length
    modifies next
    ensures next[..] == Add(old(next[..]), Scale(mass, t))
  {
    for j := 0 to next.Length
      invariant forall i :: 0 <= i < next.Length ==> next[i] == old(next[i]) + if i < j then Scale(mass, t)[i] else 0.0
    {
      next[j] := next[j] + mass * t[j];
    }
  }

  /** Distribute mass along the edges of all nodes that have any. */
  method DistributeMass(g: Graph, weight: Vector, ghost t: Vector, beta: real, p: Vector) returns (next: array<real>)
    requires ValidGraph(g) && |weight| == |t| == |p| == |g|
    requires forall i :: 0 <= i < |g| ==> weight[i] == OutWeight(g[i])
    ensures fresh(next) && next.Length == |g|
    ensures next[..] == Flow(g, Rows(g, t), beta, p, |g|, false)
  {
    hide Add, Scale, Spread, OutWeight;
    var n := |g|;
    next := new real[n](_ => 0.0);
    ghost var rows: Matrix := Rows(g, t);
    for i := 0 to n
      invariant next[..] == Flow(g, rows, beta, p, i, false)
    {
      if weight[i] <= 0.0 || p[i] == 0.0 {
        if p[i] == 0.0 {
          AddNothing(next[..], beta, p[i], rows[i]);
        }
        continue;
      }
      var outgoing := beta * p[i];
      PushAlong(next, g[i], outgoing, weight[i]);
      assert rows[i] == Spread(g[i], |g[i]|, weight[i], n);
      ScaleTwice(outgoing, beta, p[i], rows[i]);
    }
  }

  /** The teleport component of the first `k` nodes. */
  ghost function Teleported(t: Vector, alpha: real, k: nat): (v: Vector)
    ensures |v| == |t|
  {
    seq(|t|, j requires 0 <= j < |t| => if j < k then alpha * t[j] else 0.0)
  }

  /** Add the teleport component, and give the mass of dangling nodes back. */
  method Teleport(next: array<real>, g: Graph, weight: Vector, t: Vector, alpha: real, p: Vector)
    requires ValidGraph(g) && |weight| == |t| == |p| == |g| == next.Length
    requires forall i :: 0 <= i < |g| ==> weight[i] == OutWeight(g[i])
    modifies next
    ensures next[..] == Add(Add(old(next[..]), Flow(g, Rows(g, t), 1.0 - alpha, Kept(g, p), |g|, true)),
                            Teleported(t, alpha, |g|))
  {
    hide Add, Scale, Spread, OutWeight, Teleported;
    var n, beta := |g|, 1.0 - alpha;
    ghost var rows: Matrix := Rows(g, t);
    ghost var q := Kept(g, p);
    ghost var edges := next[..];
    TeleportNone(edges, t, alpha);
    for i := 0 to n
      invariant next[..] == Add(Add(edges, Flow(g, rows, beta, q, i, true)), Teleported(t, alpha, i))
    {
      ghost var back := Flow(g, rows, beta, q, i, true);
      var mass := beta * p[i];
      next[i] := next[i] + alpha * t[i];
      TeleportOne(edges, back, t, alpha, i, next[..]);
      if weight[i] <= 0.0 && p[i] > 0.0 {
        PushBack(next, t, mass);
        ScaleTwice(mass, beta, p[i], t);
        MoveIn(edges, back, Teleported(t, alpha, i + 1), Scale(mass, t));
      } else if weight[i] <= 0.0 {
        AddNothing(back, beta, q[i], rows[i]);
      }
    }
  }

  lemma TeleportNone(edges: Vector, t: Vector, alpha: real)
    requires |edges| == |t|
    ensures Add(Add(edges, Zero(|t|)), Teleported(t, alpha, 0)) == edges
  {
  }

  lemma TeleportOne(edges: Vector, back: Vector, t: Vector, alpha: real, i: nat, after: Vector)
    requires |edges| == |back| == |t| == |after| && i < |t|
    requires var before := Add(Add(edges, back), Teleported(t, alpha, i)); after == before[i := before[i] + alpha * t[i]]
    ensures after == Add(Add(edges, back), Teleported(t, alpha, i + 1))
  {
    forall j | 0 <= j < |t|
      ensures after[j] == Add(Add(edges, back), Teleported(t, alpha, i + 1))[j]
    {
    }
  }

  lemma MoveIn(a: Vector, b: Vector, c: Vector, d: Vector)
    requires |a| == |b| == |c| == |d|
    ensures Add(Add(Add(a, b), c), d) == Add(Add(a, Add(b, d)), c)
  {
  }

  /** One step, in place on a new array, is the step of the walk on the mass that takes part. */
  method Step(g: Graph, weight: Vector, t: Vector, alpha: real, p: Vector) returns (next: Vector)
    requires ValidGraph(g) && |weight| == |t| == |p| == |g|
    requires forall i :: 0 <= i < |g| ==> weight[i] == OutWeight(g[i])
    ensures |next| == |g| && next == Next(Rows(g, t), t, alpha, Kept(g, p))
  {
    hide Kept, Rows, Flow, Teleported, Add;
    var a := DistributeMass(g, weight, t, 1.0 - alpha, p);
    Teleport(a, g, weight, t, alpha, p);
    next := a[..];
    EdgesKeep(g, Rows(g, t), 1.0 - alpha, p, |g|);
    TeleportIsNext(next, g, Rows(g, t), t, alpha, 1.0 - alpha, Kept(g, p));
  }

  lemma TeleportIsNext(next: Vector, g: Graph, rows: Matrix, t: Vector, alpha: real, beta: real, p: Vector)
    requires Square(rows, |g|) && |next| == |t| == |p| == |g| && beta == 1.0 - alpha
    requires next == Add(Add(Flow(g, rows, beta, p, |g|, false), Flow(g, rows, beta, p, |g|, true)),
                         Teleported(t, alpha, |g|))
    ensures next == Next(rows, t, alpha, p)
  {
    hide Flow, Walk, Add, Scale, Teleported;
    FlowsAreWalk(g, rows, beta, p, |g|);
    TeleportedAll(t, alpha);
    AddCommutes(Scale(beta, Walk(rows, p, |g|)), Scale(alpha, t));
  }

  lemma TeleportedAll(t: Vector, alpha: real)
    ensures Teleported(t, alpha, |t|) == Scale(alpha, t)
  {
  }

  lemma AddCommutes(a: Vector, b: Vector)
    requires |a| == |b|
    ensures Add(a, b) == Add(b, a)
  {
  }

  method Distance(p: Vector, q: Vector) returns (d: real)
    requires |p| == |q|
    ensures d == Dist(p, q)
  {
    d := 0.0;
    for i := 0 to |p|
      invariant d == DistTo(p, q, i)
    {
      d := d + Abs(p[i] - q[i]);
    }
  }

  /** The vector after `k` steps of the loop. */
  ghost function Scores(g: Graph, t: Vector, alpha: real, k: nat): (p: Vector)
    requires ValidGraph(g) && |t| == |g|
    ensures |p| == |g|
  {
    if k == 0 then t else Next(Rows(g, t), t, alpha, Kept(g, Scores(g, t, alpha, k - 1)))
  }

  /** How far step `k` moves. */
  ghost function Moved(g: Graph, t: Vector, alpha: real, k: nat): real
    requires ValidGraph(g) && |t| == |g|
  {
    Dist(Scores(g, t, alpha, k), Scores(g, t, alpha, k + 1))
  }

  /** The first `k` steps all moved by at least the tolerance. */
  ghost predicate AllMoved(g: Graph, t: Vector, alpha: real, tolerance: real, k: nat)
    requires ValidGraph(g) && |t| == |g|
  {
    forall i :: 0 <= i < k ==> Moved(g, t, alpha, i) >= tolerance
  }

  /** The loop stops after step `k`: the first to move by less than the tolerance, or the last
      allowed. */
  ghost predicate StopsAt(g: Graph, t: Vector, alpha: real, maxIterations: nat, tolerance: real, k: nat)
    requires ValidGraph(g) && |t| == |g|
  {
    && k <= maxIterations
    && (k < maxIterations ==> k > 0 && Moved(g, t, alpha, k - 1) < tolerance)
    && (k > 0 ==> AllMoved(g, t, alpha, tolerance, k - 1))
  }

  /** The steps are those of a random walk with restart. */
  ghost predicate Proper(g: Graph, t: Vector, alpha: real) {
    WeightedGraph(g) && Distribution(t) && 0.0 <= alpha <= 1.0
  }

  /** `alpha` times the distance to any fixed point is at most `1 - alpha` times `d`. */
  ghost predicate NearFixedPoints(rows: Matrix, t: Vector, alpha: real, p: Vector, d: real)
    requires Square(rows, |p|) && |t| == |p|
  {
    forall x: Vector :: |x| == |p| && Next(rows, t, alpha, x) == x ==> alpha * Dist(p, x) <= (1.0 - alpha) * d
  }

  lemma {:induction false} ScoresAreIterates(g: Graph, t: Vector, alpha: real, k: nat)
    requires ValidGraph(g) && |t| == |g| && Proper(g, t, alpha)
    ensures Stochastic(Rows(g, t), |g|)
    ensures Scores(g, t, alpha, k) == Iterate(Rows(g, t), t, alpha, t, k) && Distribution(Scores(g, t, alpha, k))
  {
    hide Stochastic, Rows, Next, Kept, Sum;
    GraphIsStochastic(g, t);
    if k > 0 {
      ScoresAreIterates(g, t, alpha, k - 1);
      NextIsDistribution(Rows(g, t), t, alpha, Scores(g, t, alpha, k - 1));
    }
  }

  lemma ScoresNearFixedPoints(g: Graph, t: Vector, alpha: real, k: nat)
    requires ValidGraph(g) && |t| == |g| && Proper(g, t, alpha) && alpha > 0.0
    ensures NearFixedPoints(Rows(g, t), t, alpha, Scores(g, t, alpha, k + 1), Moved(g, t, alpha, k))
  {
    hide Stochastic, Rows, Next, Distribution, Scores, WeightedGraph, DistTo, Iterate;
    ScoresAreIterates(g, t, alpha, k);
    ScoresAreIterates(g, t, alpha, k + 1);
    forall x: Vector | |x| == |t| && Next(Rows(g, t), t, alpha, x) == x
      ensures alpha * Dist(Scores(g, t, alpha, k + 1), x) <= (1.0 - alpha) * Moved(g, t, alpha, k)
    {
      ErrorBound(Rows(g, t), t, alpha, t, k, x);
    }
  }

  /** The power iteration, for any weights, teleport vector and `alpha`: at most `maxIterations`
      steps, stopping at the first that moves by less than `tolerance`. On a graph without negative
      weights it is the random walk with restart: the result is a distribution, and the last move
      bounds its distance to every fixed point. */
  method RunPageRank(g: Graph, t: Vector, alpha: real, maxIterations: nat, tolerance: real)
    returns (p: Vector, iterations: nat)
    requires ValidGraph(g) && |t| == |g|
    ensures p == Scores(g, t, alpha, iterations) && StopsAt(g, t, alpha, maxIterations, tolerance, iterations)
    ensures Proper(g, t, alpha) ==>
              p == Iterate(Rows(g, t), t, alpha, t, iterations) && Distribution(p)
    ensures Proper(g, t, alpha) && alpha > 0.0 && iterations > 0 ==>
              NearFixedPoints(Rows(g, t), t, alpha, p, Moved(g, t, alpha, iterations - 1))
  {
    hide Rows, Next, Kept, Proper, Iterate, Distribution, NearFixedPoints, DistTo;
    var weight := seq(|g|, i requires 0 <= i < |g| => OutWeight(g[i]));
    p := t;
    iterations := 0;
    while iterations < maxIterations
      invariant iterations <= maxIterations
      invariant |p| == |g| && p == Scores(g, t, alpha, iterations)
      invariant AllMoved(g, t, alpha, tolerance, iterations)
    {
      iterations := iterations + 1;
      var next := Step(g, weight, t, alpha, p);
      var delta := Distance(p, next);
      assert delta == Moved(g, t, alpha, iterations - 1);
      p := next;
      if delta < tolerance {
        break;
      }
    }
    if Proper(g, t, alpha) {
      ScoresAreIterates(g, t, alpha, iterations);
      if alpha > 0.0 && iterations > 0 {
        ScoresNearFixedPoints(g, t, alpha, iterations - 1);
      }
    }
  }
}
