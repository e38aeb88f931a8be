/** Stable sorting by descending score, as `sort_by` with a reversed comparison does it. */
module Ranking {
  datatype Scored<T> = Scored(item: T, score: real)

  ghost predicate Descending<T>(s: seq<Scored<T>>) {
    forall i, j :: 0 <= i < j < |s| ==> s[i].score >= s[j].score
  }

  /** Insert after everything that scores at least as much. */
  function Place<T>(s: seq<Scored<T>>, x: Scored<T>): (r: seq<Scored<T>>)
    ensures |r| == |s| + 1
  {
    if s != [] && s[|s| - 1].score < x.score then Place(s[..|s| - 1], x) + [s[|s| - 1]] else s + [x]
  }

  function Sorted<T>(s: seq<Scored<T>>): (r: seq<Scored<T>>)
    ensures |r| == |s|
  {
    if s == [] then [] else Place(Sorted(s[..|s| - 1]), s[|s| - 1])
  }

  lemma {:induction false} PlaceKeepsItems<T>(s: seq<Scored<T>>, x: Scored<T>)
    ensures multiset(Place(s, x)) == multiset(s) + multiset{x}
  {
    if s != [] && s[|s| - 1].score < x.score {
      PlaceKeepsItems(s[..|s| - 1], x);
      assert s == s[..|s| - 1] + [s[|s| - 1]];
    }
  }

  lemma {:induction false} PlaceIsOrdered<T>(s: seq<Scored<T>>, x: Scored<T>)
    requires Descending(s)
    ensures Descending(Place(s, x))
    ensures forall i :: 0 <= i <= |s| ==> Place(s, x)[i] == x || Place(s, x)[i] in s
  {
    if s != [] && s[|s| - 1].score < x.score {
      PlaceIsOrdered(s[..|s| - 1], x);
    }
  }

  /** The result is ordered by score and is a permutation of the input. */
  lemma {:induction false} SortedIsRanking<T>(s: seq<Scored<T>>)
    ensures Descending(Sorted(s)) && multiset(Sorted(s)) == multiset(s)
  {
    if s != [] {
      var front, last := s[..|s| - 1], s[|s| - 1];
      SortedIsRanking(front);
      PlaceIsOrdered(Sorted(front), last);
      PlaceKeepsItems(Sorted(front), last);
      assert s == front + [last];
    }
  }

  lemma TwoCopies<T>(s: seq<T>, i: nat, j: nat)
    requires i < j < |s| && s[i] == s[j]
    ensures multiset(s)[s[i]] >= 2
  {
    assert s == s[..j] + [s[j]] + s[j + 1..];
    assert s[i] in s[..j];
  }

  lemma OneCopy<T>(s: seq<T>, a: nat)
    requires a < |s| && forall i, j :: 0 <= i < j < |s| ==> s[i] != s[j]
    ensures multiset(s)[s[a]] == 1
  {
    assert s == s[..a] + [s[a]] + s[a + 1..];
    assert s[a] !in s[..a] && s[a] !in s[a + 1..];
  }

  /** A permutation of distinct entries has distinct entries. */
  lemma PermutationKeepsDistinct<T>(s: seq<T>, r: seq<T>)
    requires multiset(r) == multiset(s) && forall i, j :: 0 <= i < j < |s| ==> s[i] != s[j]
    ensures forall i, j :: 0 <= i < j < |r| ==> r[i] != r[j]
  {
    forall i, j | 0 <= i < j < |r|
      ensures r[i] != r[j]
    {
      if r[i] == r[j] {
        TwoCopies(r, i, j);
        assert r[i] in multiset(s);
        var a :| 0 <= a < |s| && s[a] == r[i];
        OneCopy(s, a);
        assert false;
      }
    }
  }

  /** The entries of one score, in order. */
  function OfScore<T>(s: seq<Scored<T>>, score: real): seq<Scored<T>> {
    if s == [] then [] else
      OfScore(s[..|s| - 1], score) + if s[|s| - 1].score == score then [s[|s| - 1]] else []
  }

  lemma {:induction false} PlaceIsStable<T>(s: seq<Scored<T>>, x: Scored<T>, score: real)
    requires Descending(s)
    ensures OfScore(Place(s, x), score) == OfScore(s, score) + if x.score == score then [x] else []
  {
    if s != [] && s[|s| - 1].score < x.score {
      var front, last := s[..|s| - 1], s[|s| - 1];
      PlaceIsStable(front, x, score);
      assert (Place(front, x) + [last])[..|s|] == Place(front, x);
    } else {
      assert (s + [x])[..|s|] == s;
    }
  }

  /** Equal scores keep their order. */
  lemma {:induction false} SortedIsStable<T>(s: seq<Scored<T>>, score: real)
    ensures OfScore(Sorted(s), score) == OfScore(s, score)
  {
    if s != [] {
      SortedIsStable(s[..|s| - 1], score);
      SortedIsRanking(s[..|s| - 1]);
      PlaceIsStable(Sorted(s[..|s| - 1]), s[|s| - 1], score);
    }
  }

  function Truncate<T>(s: seq<T>, k: nat): (r: seq<T>)
    ensures |r| == if k < |s| then k else |s|
    ensures r <= s
  {
    if k < |s| then s[..k] else s
  }

  /** Every index with its score. */
  function Listed(scores: seq<real>): seq<Scored<nat>> {
    seq(|scores|, i requires 0 <= i < |scores| => Scored(i, scores[i]))
  }
}
