/** Vectors of reals: sums and the L1 distance. */
module Vectors {
  type Vector = seq<real>

  function Abs(x: real): real {
    if x < 0.0 then -x else x
  }

  /** Sum of the first `k` entries. */
  function SumTo(v: Vector, k: nat): real
    requires k <= |v|
  {
    if k == 0 then 0.0 else SumTo(v, k - 1) + v[k - 1]
  }

  function Sum(v: Vector): real {
    SumTo(v, |v|)
  }

  /** Sum of absolute differences over the first `k` entries. */
  function DistTo(u: Vector, v: Vector, k: nat): real
    requires |u| == |v| && k <= |u|
  {
    if k == 0 then 0.0 else DistTo(u, v, k - 1) + Abs(u[k - 1] - v[k - 1])
  }

  function Dist(u: Vector, v: Vector): real
    requires |u| == |v|
  {
    DistTo(u, v, |u|)
  }

  function Zero(n: nat): (v: Vector)
    ensures |v| == n
  {
    seq(n, _ => 0.0)
  }

  function Scale(c: real, v: Vector): (r: Vector)
    ensures |r| == |v|
  {
    seq(|v|, i requires 0 <= i < |v| => c * v[i])
  }

  function Add(u: Vector, v: Vector): (r: Vector)
    requires |u| == |v|
    ensures |r| == |u|
  {
    seq(|u|, i requires 0 <= i < |u| => u[i] + v[i])
  }

  ghost predicate NonNegative(v: Vector) {
    forall i :: 0 <= i < |v| ==> v[i] >= 0.0
  }

  ghost predicate Distribution(v: Vector) {
    NonNegative(v) && Sum(v) == 1.0
  }

  // --- products, kept apart ------------------------------------------------------------------

  lemma Distribute(c: real, x: real, y: real)
    ensures c * (x + y) == c * x + c * y
  {
  }

  lemma Product(x: real, y: real)
    requires x >= 0.0 && y >= 0.0
    ensures x * y >= 0.0
  {
  }

  lemma Monotone(c: real, x: real, y: real)
    requires c >= 0.0 && x <= y
    ensures c * x <= c * y
  {
    Product(c, y - x);
    Distribute(c, x, y - x);
  }

  lemma StrictProduct(x: real, y: real)
    requires x > 0.0 && y > 0.0
    ensures x * y > 0.0 && x * (-y) < 0.0
  {
  }

  lemma Cancel(c: real, x: real)
    requires c > 0.0 && c * x >= 0.0
    ensures x >= 0.0
  {
    if x < 0.0 {
      StrictProduct(c, -x);
      assert false;
    }
  }

  lemma AbsScale(c: real, x: real, y: real, a: real, b: real)
    requires c >= 0.0 && a == c * x && b == c * y
    ensures Abs(a - b) == c * Abs(x - y)
  {
    assert a - b == c * (x - y);
    if x - y < 0.0 {
      Product(c, y - x);
    } else {
      Product(c, x - y);
    }
  }

  lemma AbsScales(x: real, y: real, r: real, a: real, b: real)
    requires r >= 0.0 && a == x * r && b == y * r
    ensures Abs(a - b) == Abs(x - y) * r
  {
    AbsScale(r, x, y, a, b);
  }

  // --- sums ----------------------------------------------------------------------------------

  lemma {:induction false} SumZero(n: nat, k: nat)
    requires k <= n
    ensures SumTo(Zero(n), k) == 0.0
  {
    if k > 0 {
      SumZero(n, k - 1);
    }
  }

  lemma {:induction false} SumAdd(u: Vector, v: Vector, k: nat)
    requires |u| == |v| && k <= |u|
    ensures SumTo(Add(u, v), k) == SumTo(u, k) + SumTo(v, k)
  {
    if k > 0 {
      SumAdd(u, v, k - 1);
    }
  }

  lemma {:induction false} SumScale(c: real, v: Vector, k: nat)
    requires k <= |v|
    ensures SumTo(Scale(c, v), k) == c * SumTo(v, k)
  {
    if k > 0 {
      SumScale(c, v, k - 1);
      Distribute(c, SumTo(v, k - 1), v[k - 1]);
    }
  }

  lemma {:induction false} SumUpdate(v: Vector, w: Vector, j: nat, x: real, k: nat)
    requires j < |v| && k <= |v| && w == v[j := v[j] + x]
    ensures SumTo(w, k) == SumTo(v, k) + if j < k then x else 0.0
  {
    if k > 0 {
      SumUpdate(v, w, j, x, k - 1);
    }
  }

  lemma {:induction false} SumIsZero(v: Vector, k: nat)
    requires k <= |v| && forall i :: 0 <= i < |v| ==> v[i] == 0.0
    ensures SumTo(v, k) == 0.0
  {
    if k > 0 {
      SumIsZero(v, k - 1);
    }
  }

  // --- distances -----------------------------------------------------------------------------

  lemma {:induction false} DistBasics(u: Vector, v: Vector, k: nat)
    requires |u| == |v| && k <= |u|
    ensures DistTo(u, v, k) >= 0.0 && DistTo(u, u, k) == 0.0
    ensures DistTo(u, v, k) == 0.0 ==> forall i :: 0 <= i < k ==> u[i] == v[i]
  {
    if k > 0 {
      DistBasics(u, v, k - 1);
    }
  }

  lemma {:induction false} Triangle(u: Vector, v: Vector, w: Vector, k: nat)
    requires |u| == |v| == |w| && k <= |u|
    ensures DistTo(u, w, k) <= DistTo(u, v, k) + DistTo(v, w, k)
  {
    if k > 0 {
      Triangle(u, v, w, k - 1);
    }
  }

  lemma {:induction false} DistAdd(a: Vector, b: Vector, c: Vector, d: Vector, k: nat)
    requires |a| == |b| == |c| == |d| && k <= |a|
    ensures DistTo(Add(a, b), Add(c, d), k) <= DistTo(a, c, k) + DistTo(b, d, k)
  {
    if k > 0 {
      DistAdd(a, b, c, d, k - 1);
    }
  }

  ghost function Gaps(u: Vector, v: Vector): (r: Vector)
    requires |u| == |v|
    ensures |r| == |u|
  {
    seq(|u|, i requires 0 <= i < |u| => Abs(u[i] - v[i]))
  }

  lemma {:induction false} DistIsSum(u: Vector, v: Vector, k: nat)
    requires |u| == |v| && k <= |u|
    ensures DistTo(u, v, k) == SumTo(Gaps(u, v), k)
  {
    if k > 0 {
      DistIsSum(u, v, k - 1);
    }
  }

  /** The same non-negative vector scaled twice. */
  lemma DistScales(x: real, y: real, r: Vector, k: nat)
    requires NonNegative(r) && k <= |r|
    ensures DistTo(Scale(x, r), Scale(y, r), k) == Abs(x - y) * SumTo(r, k)
  {
    hide DistTo, SumTo;
    DistIsSum(Scale(x, r), Scale(y, r), k);
    forall i | 0 <= i < |r|
      ensures Gaps(Scale(x, r), Scale(y, r))[i] == Scale(Abs(x - y), r)[i]
    {
      AbsScales(x, y, r[i], Scale(x, r)[i], Scale(y, r)[i]);
    }
    assert Gaps(Scale(x, r), Scale(y, r)) == Scale(Abs(x - y), r);
    SumScale(Abs(x - y), r, k);
  }

  /** Two vectors scaled alike. */
  lemma DistScale(c: real, u: Vector, v: Vector, k: nat)
    requires |u| == |v| && k <= |u| && c >= 0.0
    ensures DistTo(Scale(c, u), Scale(c, v), k) == c * DistTo(u, v, k)
  {
    hide Scale, Gaps, DistTo, SumTo;
    DistIsSum(Scale(c, u), Scale(c, v), k);
    DistIsSum(u, v, k);
    ScaleGaps(c, u, v);
    SumScale(c, Gaps(u, v), k);
  }

  lemma ScaleGaps(c: real, u: Vector, v: Vector)
    requires |u| == |v| && c >= 0.0
    ensures Gaps(Scale(c, u), Scale(c, v)) == Scale(c, Gaps(u, v))
  {
    forall i | 0 <= i < |u|
      ensures Gaps(Scale(c, u), Scale(c, v))[i] == Scale(c, Gaps(u, v))[i]
    {
      AbsScale(c, u[i], v[i], Scale(c, u)[i], Scale(c, v)[i]);
    }
  }
}
