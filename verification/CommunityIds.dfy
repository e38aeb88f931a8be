/** When the result of a detection is determined. The hash map of groups is walked in any order before
    the sort by size, which keeps communities of one size in that order. */
module CommunityIds {
  import opened GraphStore
  import opened Community

  ghost predicate DistinctSizes(cs: seq<Community>) {
    forall i, j :: 0 <= i < j < |cs| ==> |cs[i].members| != |cs[j].members|
  }

  /** The same blocks, each result with its communities in order of size and ids by position. */
  ghost predicate Comparable(r: Communities, q: Communities) {
    && Agree(r.membership, r.communities) && Dense(r.communities) && LargestFirst(r.communities)
    && Agree(q.membership, q.communities) && Dense(q.communities) && LargestFirst(q.communities)
    && SameBlocks(r.membership, q.membership)
  }

  lemma ComparableBack(r: Communities, q: Communities)
    requires Comparable(r, q)
    ensures Comparable(q, r)
  {
    hide Agree, Dense, LargestFirst;
  }

  // --- one result, if sizes differ ---------------------------------------------------------

  lemma OneGroup(r: Communities, i: nat, j: nat)
    requires Agree(r.membership, r.communities) && Dense(r.communities)
    requires i < |r.communities| && j < |r.communities| && r.communities[i].members == r.communities[j].members
    ensures i == j
  {
    var n := r.communities[i].members[0];
    assert IsGroup(r.membership, r.communities[i]) && IsGroup(r.membership, r.communities[j]);
    assert n in r.communities[i].members && n in r.communities[j].members;
  }

  /** Communities that share a node have the same members. */
  lemma SharedNode(r: Communities, q: Communities, i: nat, j: nat, n: NodeId)
    requires Comparable(r, q) && i < |r.communities| && j < |q.communities|
    requires n in r.communities[i].members && n in q.communities[j].members
    ensures r.communities[i].members == q.communities[j].members
  {
    hide Dense, LargestFirst, DistinctIds, HasId;
    var a, b := r.communities[i], q.communities[j];
    assert IsGroup(r.membership, a) && IsGroup(q.membership, b);
    forall x
      ensures x in a.members <==> x in b.members
    {
      if x in r.membership {
        assert r.membership[x] == r.membership[n] <==> q.membership[x] == q.membership[n];
      }
    }
    AscendingUnique(a.members, b.members);
  }

  /** Every community of one result is one of the other. */
  lemma Counterpart(r: Communities, q: Communities, i: nat) returns (j: nat)
    requires Comparable(r, q) && i < |r.communities|
    ensures j < |q.communities| && r.communities[i].members == q.communities[j].members
  {
    hide Dense, LargestFirst, DistinctIds, Ascending;
    assert IsGroup(r.membership, r.communities[i]);
    var n := r.communities[i].members[0];
    assert n in r.communities[i].members && n in q.membership;
    assert HasId(q.communities, q.membership[n]);
    j :| j < |q.communities| && q.communities[j].id == q.membership[n];
    assert IsGroup(q.membership, q.communities[j]);
    SharedNode(r, q, i, j, n);
  }

  /** With sizes all different it is at the same place. */
  lemma {:induction false} SamePlace(r: Communities, q: Communities, i: nat)
    requires Comparable(r, q) && DistinctSizes(r.communities) && i < |r.communities|
    ensures i < |q.communities| && r.communities[i].members == q.communities[i].members
    decreases i
  {
    hide Agree, Dense, SameBlocks;
    forall k: nat | k < i
      ensures k < |q.communities| && r.communities[k].members == q.communities[k].members
    {
      SamePlace(r, q, k);
    }
    var j := Counterpart(r, q, i);
    if j > i {
      ComparableBack(r, q);
      var k := Counterpart(q, r, i);
      if k < i {
        OneGroup(q, i, k);
      }
      assert k <= i;
    }
  }

  lemma SameLength(r: Communities, q: Communities)
    requires Comparable(r, q) && DistinctSizes(r.communities)
    ensures |r.communities| == |q.communities|
  {
    hide Agree, Dense, LargestFirst, SameBlocks, DistinctSizes;
    var n := |r.communities|;
    if n > 0 {
      SamePlace(r, q, n - 1);
    }
    if n < |q.communities| {
      ComparableBack(r, q);
      var k := Counterpart(q, r, n);
      SamePlace(r, q, k);
      OneGroup(q, n, k);
    }
  }

  lemma SameResult(r: Communities, q: Communities)
    requires Comparable(r, q) && DistinctSizes(r.communities)
    ensures r == q
  {
    SameLength(r, q);
    var n := |r.communities|;
    forall i | 0 <= i < n
      ensures r.communities[i] == q.communities[i]
    {
      SamePlace(r, q, i);
    }
    assert r.communities == q.communities;
    SameMembership(r, q);
  }

  lemma SameMembership(r: Communities, q: Communities)
    requires Comparable(r, q) && r.communities == q.communities
    ensures r.membership == q.membership
  {
    hide Dense, LargestFirst, Ascending, DistinctIds;
    forall n | n in r.membership
      ensures n in q.membership && r.membership[n] == q.membership[n]
    {
      assert HasId(r.communities, r.membership[n]);
      var i :| 0 <= i < |r.communities| && r.communities[i].id == r.membership[n];
      assert IsGroup(r.membership, r.communities[i]) && IsGroup(q.membership, r.communities[i]);
    }
  }

  // --- two results, if two sizes agree -----------------------------------------------------

  function Swap(c: nat, i: nat, j: nat): nat {
    if c == i then j else if c == j then i else c
  }

  /** Two communities change places, and ids. */
  function Swapped(r: Communities, i: nat, j: nat): Communities
    requires i < j < |r.communities|
  {
    var a, b := r.communities[j].(id := i), r.communities[i].(id := j);
    Communities(r.communities[i := a][j := b], map n | n in r.membership :: Swap(r.membership[n], i, j))
  }

  lemma SwappedAgrees(r: Communities, i: nat, j: nat)
    requires Agree(r.membership, r.communities) && Dense(r.communities) && i < j < |r.communities|
    ensures Agree(Swapped(r, i, j).membership, Swapped(r, i, j).communities)
    ensures Dense(Swapped(r, i, j).communities) && SameBlocks(r.membership, Swapped(r, i, j).membership)
    ensures Swapped(r, i, j) != r
  {
    hide Ascending;
    var q := Swapped(r, i, j);
    forall k | 0 <= k < |q.communities|
      ensures q.communities[k].id == k && IsGroup(q.membership, q.communities[k])
    {
      assert IsGroup(r.membership, r.communities[Swap(k, i, j)]);
    }
    forall n | n in q.membership
      ensures HasId(q.communities, q.membership[n])
    {
      assert HasId(r.communities, r.membership[n]);
      assert q.communities[q.membership[n]].id == q.membership[n];
    }
    if q.communities[i].members == r.communities[i].members {
      OneGroup(r, i, j);
    }
  }

  lemma SwappedIsResult(edges: seq<Edge>, keys: set<NodeId>, r: Communities, i: nat, j: nat)
    requires IsResult(edges, keys, r) && i < j < |r.communities|
    requires |r.communities[i].members| == |r.communities[j].members|
    ensures IsResult(edges, keys, Swapped(r, i, j)) && Swapped(r, i, j) != r
  {
    hide Agree, Dense, IsDetection, SettingOf, Alone, Final, InOrder;
    SwappedAgrees(r, i, j);
    var q := Swapped(r, i, j);
    var nodes: seq<NodeId>, passes :| DetectedBy(edges, keys, nodes, passes, r.membership);
    assert DetectedBy(edges, keys, nodes, passes, q.membership);
  }

  /** Of a graph whose weights do not cancel out, the blocks are always determined; the ids, and with
      them the whole result, are determined exactly if no two communities are of one size. */
  lemma ResultDetermined(edges: seq<Edge>, keys: set<NodeId>, r: Communities)
    requires IsResult(edges, keys, r)
    ensures forall q :: IsResult(edges, keys, q) ==> SameBlocks(r.membership, q.membership)
    ensures (forall q :: IsResult(edges, keys, q) ==> q == r) <==> DistinctSizes(r.communities)
  {
    hide Agree, Dense, Detected, LargestFirst, SameBlocks;
    forall q | IsResult(edges, keys, q)
      ensures SameBlocks(r.membership, q.membership)
      ensures DistinctSizes(r.communities) ==> q == r
    {
      BlocksUnique(edges, keys, r.membership, q.membership);
      if DistinctSizes(r.communities) {
        SameResult(r, q);
      }
    }
    if !DistinctSizes(r.communities) {
      var i, j :| 0 <= i < j < |r.communities| && |r.communities[i].members| == |r.communities[j].members|;
      SwappedIsResult(edges, keys, r, i, j);
    }
  }
}
