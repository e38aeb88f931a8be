/** The rows of a reply stand in document order, each path to a row once. */
module RowOrder {
  import opened Wrappers
  import opened JsonValues
  import opened ErpResult

  /** Path `p` comes before path `q` in the document, and neither leads through the other. */
  predicate Precedes(p: seq<nat>, q: seq<nat>) {
    p != [] && q != [] && (p[0] < q[0] || (p[0] == q[0] && Precedes(p[1..], q[1..])))
  }

  /** `paths` are all the paths of length at most `reach` to a row, in document order, and `rows` the rows
      they lead to. */
  ghost predicate Located(v: Json, rows: seq<Json>, paths: seq<seq<nat>>, reach: int) {
    && |paths| == |rows|
    && (forall k :: 0 <= k < |rows| ==> Reaches(v, rows[k], paths[k], reach))
    && (forall j, k :: 0 <= j < k < |paths| ==> Precedes(paths[j], paths[k]))
    && (forall r, path :: Reaches(v, r, path, reach) ==> path in paths)
  }

  /** The same for the paths that start with one of the first `n` children. */
  ghost predicate LocatedIn(v: Json, n: nat, rows: seq<Json>, paths: seq<seq<nat>>, reach: int) {
    && |paths| == |rows|
    && (forall k :: 0 <= k < |rows| ==> Reaches(v, rows[k], paths[k], reach) && Within(paths[k], n))
    && (forall j, k :: 0 <= j < k < |paths| ==> Precedes(paths[j], paths[k]))
    && (forall r, path :: Reaches(v, r, path, reach) && Within(path, n) ==> path in paths)
  }

  predicate Within(path: seq<nat>, n: nat) {
    path != [] && path[0] < n
  }

  function Below(i: nat, paths: seq<seq<nat>>): (r: seq<seq<nat>>)
    ensures |r| == |paths| && forall k :: 0 <= k < |r| ==> r[k] == [i] + paths[k]
  {
    seq(|paths|, k requires 0 <= k < |paths| => [i] + paths[k])
  }

  lemma PrecedesBelow(i: nat, p: seq<nat>, q: seq<nat>)
    ensures Precedes([i] + p, [i] + q) <==> Precedes(p, q)
  {
    assert ([i] + p)[1..] == p && ([i] + q)[1..] == q;
  }

  lemma ReachesBelow(v: Json, i: nat, r: Json, path: seq<nat>, reach: int)
    requires i < |Children(v)| && !IsRow(v)
    ensures Reaches(v, r, [i] + path, reach) <==> Reaches(Children(v)[i], r, path, reach - 1)
  {
    hide RowAt, At, IsRow;
    RowAtStep(v, i, path);
  }

  /** One more child. */
  lemma ChildLocated(v: Json, i: nat, before: seq<Json>, ps: seq<seq<nat>>, rows: seq<Json>, qs: seq<seq<nat>>, reach: int)
    requires i < |Children(v)| && !IsRow(v)
    requires LocatedIn(v, i, before, ps, reach) && Located(Children(v)[i], rows, qs, reach - 1)
    ensures LocatedIn(v, i + 1, before + rows, ps + Below(i, qs), reach)
  {
    hide Reaches, Precedes;
    var all := ps + Below(i, qs);
    forall k | 0 <= k < |before + rows|
      ensures Reaches(v, (before + rows)[k], all[k], reach) && Within(all[k], i + 1)
    {
      if k >= |before| {
        ReachesBelow(v, i, rows[k - |before|], qs[k - |before|], reach);
      }
    }
    forall j, k | 0 <= j < k < |all|
      ensures Precedes(all[j], all[k])
    {
      if j >= |ps| {
        PrecedesBelow(i, qs[j - |ps|], qs[k - |ps|]);
      } else if k >= |ps| {
        FirstSmaller(all[j], all[k]);
      }
    }
    forall r, path | Reaches(v, r, path, reach) && Within(path, i + 1)
      ensures path in all
    {
      if path[0] == i {
        assert path == [i] + path[1..];
        ReachesBelow(v, i, r, path[1..], reach);
        var k :| 0 <= k < |qs| && qs[k] == path[1..];
        assert all[|ps| + k] == path;
      }
    }
  }

  lemma FirstSmaller(p: seq<nat>, q: seq<nat>)
    requires p != [] && q != [] && p[0] < q[0]
    ensures Precedes(p, q)
  {
  }

  lemma {:induction false} ChildrenLocated(v: Json, n: nat, depth: nat) returns (paths: seq<seq<nat>>)
    requires n <= |Children(v)| && !IsRow(v) && depth <= MAX_DEPTH
    ensures LocatedIn(v, n, RowsOf(Children(v), n, depth + 1), paths, MAX_DEPTH - depth)
    decreases Left(depth), n, 0
  {
    hide LocatedIn, Located, Reaches, Children, Rows, IsRow;
    if n == 0 {
      paths := [];
      NoneWithin(v, MAX_DEPTH - depth);
    } else {
      var ps := ChildrenLocated(v, n - 1, depth);
      var qs := RowsLocated(Children(v)[n - 1], depth + 1);
      paths := ps + Below(n - 1, qs);
      ChildLocated(v, n - 1, RowsOf(Children(v), n - 1, depth + 1), ps, Rows(Children(v)[n - 1], depth + 1), qs,
                   MAX_DEPTH - depth);
    }
  }

  lemma NoneWithin(v: Json, reach: int)
    ensures LocatedIn(v, 0, [], [], reach)
  {
  }

  /** A row is its own only row; without reach there is none. */
  lemma RowLocated(v: Json, reach: int)
    ensures IsRow(v) && reach >= 0 ==> Located(v, [v], [[]], reach)
    ensures reach < 0 ==> Located(v, [], [], reach)
  {
    hide IsRow;
    if IsRow(v) {
      forall r, path | Reaches(v, r, path, reach)
        ensures path == []
      {
        assert path != [] ==> At(v, path[..0]) == Some(v);
      }
      assert At(v, []) == Some(v);
      var here: seq<seq<nat>> := [[]];
      assert here[0] in here;
    }
  }

  lemma AllWithin(v: Json, rows: seq<Json>, paths: seq<seq<nat>>, reach: int)
    requires !IsRow(v) && LocatedIn(v, |Children(v)|, rows, paths, reach)
    ensures Located(v, rows, paths, reach)
  {
    hide IsRow, Precedes, Children;
    forall r, path | Reaches(v, r, path, reach)
      ensures Within(path, |Children(v)|)
    {
    }
  }

  /** The walk finds the rows in document order, one for each path, and no path to a row within reach
      is left out. */
  lemma {:induction false} RowsLocated(v: Json, depth: nat) returns (paths: seq<seq<nat>>)
    ensures Located(v, Rows(v, depth), paths, MAX_DEPTH - depth)
    decreases Left(depth), |Children(v)| + 1, 1
  {
    hide Located, LocatedIn, IsRow, Children, RowsOf;
    if depth > MAX_DEPTH {
      paths := [];
      RowLocated(v, MAX_DEPTH - depth);
    } else if IsRow(v) {
      paths := [[]];
      RowLocated(v, MAX_DEPTH - depth);
    } else {
      paths := ChildrenLocated(v, |Children(v)|, depth);
      AllWithin(v, RowsOf(Children(v), |Children(v)|, depth + 1), paths, MAX_DEPTH - depth);
    }
  }

  /** One message for each path to a row within reach, in document order, read from that row. */
  lemma MessagesInOrder(v: Json) returns (paths: seq<seq<nat>>)
    ensures |Messages(v)| == |paths|
    ensures forall j, k :: 0 <= j < k < |paths| ==> Precedes(paths[j], paths[k])
    ensures forall path :: path in paths <==> RowAt(v, path) && |path| <= MAX_DEPTH
    ensures forall k :: 0 <= k < |paths| ==>
              && At(v, paths[k]).Some? && IsRow(At(v, paths[k]).value)
              && Messages(v)[k] == ParseOne(At(v, paths[k]).value)
  {
    hide Rows, Precedes, ParseOne, IsRow;
    paths := RowsLocated(v, 0);
    RowsAreRows(v, 0);
    forall path | RowAt(v, path) && |path| <= MAX_DEPTH
      ensures path in paths
    {
      assert Reaches(v, At(v, path).value, path, MAX_DEPTH);
    }
    forall k | 0 <= k < |paths|
      ensures RowAt(v, paths[k]) && |paths[k]| <= MAX_DEPTH && At(v, paths[k]) == Some(Rows(v, 0)[k])
    {
      assert Reaches(v, Rows(v, 0)[k], paths[k], MAX_DEPTH);
    }
  }
}
