/** Cutting a document body into overlapping windows at sentence ends, spaces and character
    boundaries. Indices are byte offsets; a slice whose end lies before its start is a panic. */
module Chunker {
  import opened Wrappers
  import opened Strings
  import opened Utf8
  import opened Numbers

  datatype Window = Window(start: nat, end: nat)

  datatype Cutting = Panic | Done(windows: seq<Window>)

  const LOOK_BACK: nat := 200

  function SatSub(a: nat, b: nat): nat {
    if a < b then 0 else a - b
  }

  predicate Blank(b: Byte) {
    b == SPACE || b == NEWLINE
  }

  /** A full stop, question or exclamation mark and a blank end at offset `i`. */
  predicate SentenceEndsAt(s: Bytes, i: nat)
    requires i <= |s|
  {
    i >= 2 && (s[i - 2] == 46 || s[i - 2] == 63 || s[i - 2] == 33) && Blank(s[i - 1])
  }

  /** The last sentence end after `from`, not after `i`. */
  function SentenceEnd(s: Bytes, from: nat, i: nat): (r: Option<nat>)
    requires i <= |s|
    ensures r.Some? ==> from + 2 <= r.value <= i && SentenceEndsAt(s, r.value)
    ensures forall j :: from + 2 <= j <= i && (r.None? || r.value < j) ==> !SentenceEndsAt(s, j)
  {
    if i <= from + 1 then None
    else if SentenceEndsAt(s, i) then Some(i)
    else SentenceEnd(s, from, i - 1)
  }

  predicate BlankBefore(s: Bytes, i: nat) {
    0 < i <= |s| && Blank(s[i - 1])
  }

  /** The last blank that ends at or before `i`, no further than the look-back from `to`. */
  function SpaceBefore(s: Bytes, i: nat, to: nat): (r: Option<nat>)
    requires i <= to <= |s| && to - i <= LOOK_BACK
    ensures r.Some? ==> r.value <= i && to - r.value <= LOOK_BACK && BlankBefore(s, r.value)
    ensures forall j :: 0 < j <= i && to - j <= LOOK_BACK && (r.None? || r.value < j) ==> !BlankBefore(s, j)
  {
    if i == 0 then None
    else if BlankBefore(s, i) then Some(i)
    else if to - (i - 1) > LOOK_BACK then None
    else SpaceBefore(s, i - 1, to)
  }

  /** The next character boundary. */
  function BumpUp(s: Bytes, i: nat): (r: nat)
    requires i <= |s|
    ensures i <= r <= |s| && CharBoundary(s, r)
    ensures forall j :: i <= j < r ==> !CharBoundary(s, j)
    decreases |s| - i
  {
    if CharBoundary(s, i) then i else BumpUp(s, i + 1)
  }

  /** Where the window that starts at `start` ends. */
  function Cut(s: Bytes, target: nat, start: nat): (end: nat)
    requires start < |s|
    ensures end <= |s| && CharBoundary(s, end)
  {
    var end := Min(start + target, |s|);
    BumpUp(s,
           if end == |s| then end else
             match SentenceEnd(s, Max(SatSub(end, LOOK_BACK), start + target / 2), end)
             case Some(boundary) => boundary
             case None => match SpaceBefore(s, end, end) case Some(space) => space case None => end)
  }

  function NextStart(s: Bytes, overlap: nat, w: Window): (r: nat)
    requires w.start <= w.end < |s|
    ensures w.start < r <= |s| && CharBoundary(s, r)
  {
    BumpUp(s, w.start + Max(1, SatSub(w.end - w.start, overlap)))
  }

  /** The windows from `start` on. */
  function Windows(s: Bytes, target: nat, overlap: nat, start: nat): Cutting
    requires start <= |s|
    decreases |s| - start
  {
    if start == |s| then Done([]) else
      var w := Window(start, Cut(s, target, start));
      if w.end < w.start then Panic
      else if w.end == |s| then Done([w])
      else Prepend([w], Windows(s, target, overlap, NextStart(s, overlap, w)))
  }

  function Prepend(ws: seq<Window>, c: Cutting): Cutting {
    match c
    case Panic => Panic
    case Done(vs) => Done(ws + vs)
  }

  /** The text of the windows, trimmed, without the empty ones. */
  function Pieces(s: Bytes, ws: seq<Window>): seq<Bytes>
    requires forall w :: w in ws ==> w.start <= w.end <= |s|
  {
    if ws == [] then [] else
      var t := Trim(s[ws[|ws| - 1].start..ws[|ws| - 1].end]);
      Pieces(s, ws[..|ws| - 1]) + if t == [] then [] else [t]
  }

  // ---------------------------------------------------------------------------------------
  // The loops
  // ---------------------------------------------------------------------------------------

  method FindSentenceEnd(s: Bytes, from: nat, to: nat) returns (r: Option<nat>)
    ensures r == SentenceEnd(s, Min(from, Min(to, |s|)), Min(to, |s|))
  {
    var hi := Min(to, |s|);
    var lo := Min(from, hi);
    var i := hi;
    while i > lo + 1
      invariant i <= hi
      invariant SentenceEnd(s, lo, hi) == SentenceEnd(s, lo, i)
    {
      var c, p := s[i - 1], s[i - 2];
      if (p == 46 || p == 63 || p == 33) && (c == SPACE || c == NEWLINE) {
        return Some(i);
      }
      i := i - 1;
    }
    return None;
  }

  method FindSpace(s: Bytes, to: nat) returns (r: Option<nat>)
    ensures r == SpaceBefore(s, Min(to, |s|), Min(to, |s|))
  {
    var hi := Min(to, |s|);
    var i: nat := hi;
    while i > 0
      invariant i <= hi && hi - i <= LOOK_BACK
      invariant SpaceBefore(s, hi, hi) == SpaceBefore(s, i, hi)
    {
      var c := s[i - 1];
      if c == SPACE || c == NEWLINE {
        return Some(i);
      }
      i := i - 1;
      if hi - i > LOOK_BACK {
        return None;
      }
    }
    return None;
  }

  method FindEnd(s: Bytes, target: nat, start: nat) returns (end: nat)
    requires start < |s|
    ensures end == Cut(s, target, start)
  {
    end := Min(start + target, |s|);
    if end < |s| {
      var lookback := Max(SatSub(end, LOOK_BACK), start + target / 2);
      var boundary := FindSentenceEnd(s, lookback, end);
      if boundary.Some? {
        end := boundary.value;
      } else {
        var space := FindSpace(s, end);
        if space.Some? {
          end := space.value;
        }
      }
    }
    end := Bump(s, end);
  }

  method Bump(s: Bytes, from: nat) returns (i: nat)
    requires from <= |s|
    ensures i == BumpUp(s, from)
  {
    i := from;
    while i < |s| && !CharBoundary(s, i)
      invariant i <= |s| && BumpUp(s, from) == BumpUp(s, i)
    {
      i := i + 1;
    }
  }

  /** The pieces of a body, or `None` where the slice would panic. */
  method SplitText(s: Bytes, target: nat, overlap: nat) returns (r: Option<seq<Bytes>>)
    ensures Windows(s, target, overlap, 0).Panic? <==> r.None?
    ensures r.Some? ==> InBounds(Windows(s, target, overlap, 0).windows, |s|)
                        && r.value == Pieces(s, Windows(s, target, overlap, 0).windows)
  {
    hide Cut, BumpUp, Trim, Pieces, CharBoundary, Windows, Prepend;
    assert Pieces(s, []) == [] by { NoPieces(s); }
    var out: seq<Bytes>, start := [], 0;
    ghost var done: seq<Window> := [];
    NothingDone(Windows(s, target, overlap, 0));
    while start < |s|
      invariant start <= |s| && InBounds(done, |s|) && out == Pieces(s, done)
      invariant Windows(s, target, overlap, 0) == Prepend(done, Windows(s, target, overlap, start))
      decreases |s| - start
    {
      var end := FindEnd(s, target, start);
      if end < start {
        FirstPanics(s, target, overlap, done, start);
        return None;
      }
      ghost var w := Window(start, end);
      OneWindow(s, target, overlap, done, w);
      var trimmed := Trim(s[start..end]);
      if trimmed != [] {
        out := out + [trimmed];
      }
      PiecesGrow(s, done, w);
      done := done + [w];
      if end >= |s| {
        return Some(out);
      }
      start := Bump(s, start + Max(1, SatSub(end - start, overlap)));
    }
    NoWindows(s, target, overlap, done);
    return Some(out);
  }

  lemma NoPieces(s: Bytes)
    ensures Pieces(s, []) == []
  {
  }

  lemma PiecesGrow(s: Bytes, ws: seq<Window>, w: Window)
    requires InBounds(ws, |s|) && w.start <= w.end <= |s|
    ensures InBounds(ws + [w], |s|)
    ensures Pieces(s, ws + [w]) == Pieces(s, ws) + if Trim(s[w.start..w.end]) == [] then [] else [Trim(s[w.start..w.end])]
  {
    hide Trim;
    assert (ws + [w])[..|ws|] == ws;
  }

  ghost predicate InBounds(ws: seq<Window>, n: nat) {
    forall w :: w in ws ==> w.start <= w.end <= n
  }

  lemma NothingDone(c: Cutting)
    ensures Prepend([], c) == c
  {
    if c.Done? {
      assert [] + c.windows == c.windows;
    }
  }

  lemma NoWindows(s: Bytes, target: nat, overlap: nat, done: seq<Window>)
    ensures Prepend(done, Windows(s, target, overlap, |s|)) == Done(done)
  {
    assert done + [] == done;
  }

  lemma FirstPanics(s: Bytes, target: nat, overlap: nat, done: seq<Window>, start: nat)
    requires start < |s| && Cut(s, target, start) < start
    ensures Prepend(done, Windows(s, target, overlap, start)) == Panic
  {
    hide Cut;
  }

  lemma OneWindow(s: Bytes, target: nat, overlap: nat, done: seq<Window>, w: Window)
    requires w.start < |s| && w.end == Cut(s, target, w.start) && w.start <= w.end
    ensures Prepend(done, Windows(s, target, overlap, w.start)) ==
            if w.end == |s| then Done(done + [w])
            else Prepend(done + [w], Windows(s, target, overlap, NextStart(s, overlap, w)))
  {
    hide Cut, NextStart;
    if w.end < |s| && Windows(s, target, overlap, NextStart(s, overlap, w)).Done? {
      Assoc(done, [w], Windows(s, target, overlap, NextStart(s, overlap, w)).windows);
    }
  }

  // ---------------------------------------------------------------------------------------
  // What the windows satisfy
  // ---------------------------------------------------------------------------------------

  /** Not empty, on character boundaries, at most three bytes longer than asked for. */
  ghost predicate GoodWindow(s: Bytes, target: nat, w: Window) {
    w.start < w.end <= |s| && CharBoundary(s, w.start) && CharBoundary(s, w.end) && w.end - w.start <= target + 3
  }

  /** The next window starts later, leaves no gap, and repeats at most `overlap` bytes. */
  ghost predicate Linked(overlap: nat, w: Window, v: Window) {
    w.start < v.start <= w.end && w.end - v.start <= overlap
  }

  ghost predicate Tiling(s: Bytes, target: nat, overlap: nat, start: nat, ws: seq<Window>) {
    && ws != [] && ws[0].start == start && ws[|ws| - 1].end == |s|
    && (forall k :: 0 <= k < |ws| ==> GoodWindow(s, target, ws[k]))
    && (forall k :: 0 <= k < |ws| - 1 ==> Linked(overlap, ws[k], ws[k + 1]))
  }

  /** With a target above the look-back, the windows tile the body. */
  lemma {:induction false} WindowsTile(s: Bytes, target: nat, overlap: nat, start: nat)
    requires WellFormed(s) && target > LOOK_BACK && start < |s| && CharBoundary(s, start)
    ensures Windows(s, target, overlap, start).Done?
    ensures Tiling(s, target, overlap, start, Windows(s, target, overlap, start).windows)
    decreases |s| - start
  {
    hide Cut, NextStart;
    var w := Window(start, Cut(s, target, start));
    CutIsGood(s, target, start);
    if w.end < |s| {
      NextIsLinked(s, overlap, w);
      WindowsTile(s, target, overlap, NextStart(s, overlap, w));
      TilingGrows(s, target, overlap, w, NextStart(s, overlap, w),
                  Windows(s, target, overlap, NextStart(s, overlap, w)).windows);
    }
  }

  lemma TilingGrows(s: Bytes, target: nat, overlap: nat, w: Window, next: nat, ws: seq<Window>)
    requires Tiling(s, target, overlap, next, ws) && GoodWindow(s, target, w)
    requires Linked(overlap, w, Window(next, next))
    ensures Tiling(s, target, overlap, w.start, [w] + ws)
  {
    hide GoodWindow;
    var all := [w] + ws;
    forall k | 0 <= k < |all| - 1
      ensures Linked(overlap, all[k], all[k + 1])
    {
      if k > 0 {
        assert Linked(overlap, ws[k - 1], ws[(k - 1) + 1]);
      }
    }
  }

  /** A blank ends a character, so only the uncut end is ever bumped, by at most three bytes. */
  lemma CutIsGood(s: Bytes, target: nat, start: nat)
    requires WellFormed(s) && start < |s| && target >= LOOK_BACK
    ensures start <= Cut(s, target, start) <= start + target + 3
    ensures target > LOOK_BACK ==> start < Cut(s, target, start)
  {
    hide WellFormed, BumpUp, SentenceEnd, SpaceBefore, Blank, CharBoundary;
    var end := Min(start + target, |s|);
    if end < |s| {
      var r, b := SentenceEnd(s, Max(SatSub(end, LOOK_BACK), start + target / 2), end), SpaceBefore(s, end, end);
      if r.Some? {
        BumpStays(s, r.value);
      } else if b.Some? {
        BumpStays(s, b.value);
      } else {
        BumpIsShort(s, end);
      }
    }
  }

  lemma BumpStays(s: Bytes, i: nat)
    requires WellFormed(s) && 0 < i <= |s| && Blank(s[i - 1])
    ensures BumpUp(s, i) == i
  {
  }

  lemma BumpIsShort(s: Bytes, i: nat)
    requires WellFormed(s) && i <= |s|
    ensures BumpUp(s, i) <= i + 3
  {
    if i + 3 < |s| {
      BoundaryNear(s, i);
    }
  }

  lemma BoundaryNear(s: Bytes, i: nat)
    requires WellFormed(s) && i + 3 < |s|
    ensures CharBoundary(s, i) || CharBoundary(s, i + 1) || CharBoundary(s, i + 2) || CharBoundary(s, i + 3)
  {
  }

  lemma NextIsLinked(s: Bytes, overlap: nat, w: Window)
    requires w.start < w.end < |s| && CharBoundary(s, w.end)
    ensures w.start < NextStart(s, overlap, w) <= w.end
    ensures w.end - NextStart(s, overlap, w) <= overlap
  {
  }

  // ---------------------------------------------------------------------------------------
  // Where each window begins and ends
  // ---------------------------------------------------------------------------------------

  /** `r` is the first character boundary from `lo` on. */
  ghost predicate FirstBoundary(s: Bytes, lo: nat, r: nat) {
    && lo <= r <= |s| && CharBoundary(s, r)
    && forall j :: lo <= j < r ==> !CharBoundary(s, j)
  }

  /** Window `v` goes back `overlap` bytes from the end of `w`, up to the next character boundary; if
      `w` is no longer than that, `v` starts one character after `w`. */
  ghost predicate Overlaps(s: Bytes, overlap: nat, w: Window, v: Window) {
    if w.end - w.start > overlap then FirstBoundary(s, w.end - overlap, v.start)
    else FirstBoundary(s, w.start + 1, v.start)
  }

  /** A sentence ends at `j`, in the look-back from `to` and in the second half of the window. */
  predicate SentenceIn(s: Bytes, w: Window, to: nat, target: nat, j: nat) {
    j <= to <= |s| && to <= j - 2 + LOOK_BACK && w.start + target / 2 <= j - 2 && SentenceEndsAt(s, j)
  }

  predicate BlankIn(s: Bytes, to: nat, j: nat) {
    j <= to <= |s| && to - j <= LOOK_BACK && BlankBefore(s, j)
  }

  ghost predicate LastSentence(s: Bytes, w: Window, to: nat, target: nat, j: nat) {
    SentenceIn(s, w, to, target, j) && forall i :: j < i ==> !SentenceIn(s, w, to, target, i)
  }

  ghost predicate LastBlank(s: Bytes, to: nat, j: nat) {
    BlankIn(s, to, j) && forall i :: j < i ==> !BlankIn(s, to, i)
  }

  /** A window that would reach the end of the body does. Any other ends at the last sentence end in
      the look-back, if there is none at the last blank in it, and if there is none either at the next
      character boundary after `target` bytes. */
  ghost predicate EndsRight(s: Bytes, target: nat, w: Window) {
    var to := w.start + target;
    if to >= |s| then w.end == |s|
    else if exists j :: SentenceIn(s, w, to, target, j) then LastSentence(s, w, to, target, w.end)
    else if exists j :: BlankIn(s, to, j) then LastBlank(s, to, w.end)
    else FirstBoundary(s, to, w.end)
  }

  lemma CutEndsRight(s: Bytes, target: nat, start: nat)
    requires WellFormed(s) && start < |s|
    ensures EndsRight(s, target, Window(start, Cut(s, target, start)))
  {
    hide WellFormed, BumpUp, SentenceEnd, SpaceBefore, Blank, CharBoundary, SentenceIn, BlankIn;
    var to, w := start + target, Window(start, Cut(s, target, start));
    if to < |s| {
      SentenceIsLast(s, w, to, target);
      BlankIsLast(s, to);
      var r, b := SentenceEnd(s, Max(SatSub(to, LOOK_BACK), start + target / 2), to), SpaceBefore(s, to, to);
      if r.Some? {
        BumpStays(s, r.value);
      } else if b.Some? {
        BumpStays(s, b.value);
      }
    } else {
      BumpStaysAtEnd(s);
    }
  }

  lemma BumpStaysAtEnd(s: Bytes)
    ensures BumpUp(s, |s|) == |s|
  {
  }

  lemma SentenceIsLast(s: Bytes, w: Window, to: nat, target: nat)
    requires to <= |s|
    ensures var r := SentenceEnd(s, Max(SatSub(to, LOOK_BACK), w.start + target / 2), to);
      && (r.Some? ==> LastSentence(s, w, to, target, r.value))
      && (r.None? ==> forall j :: !SentenceIn(s, w, to, target, j))
  {
    hide SentenceEndsAt;
  }

  lemma BlankIsLast(s: Bytes, to: nat)
    requires to <= |s|
    ensures var r := SpaceBefore(s, to, to);
      && (r.Some? ==> LastBlank(s, to, r.value))
      && (r.None? ==> forall j :: !BlankIn(s, to, j))
  {
  }

  lemma NextOverlaps(s: Bytes, overlap: nat, w: Window, v: Window)
    requires w.start <= w.end < |s| && v.start == NextStart(s, overlap, w)
    ensures Overlaps(s, overlap, w, v)
  {
  }

  /** The first window starts at `start`, each ends where it should, each next one overlaps the one
      before it, and the windows stop at the first one that ends with the body, or when the next one
      would start there. */
  ghost predicate CutRight(s: Bytes, target: nat, overlap: nat, start: nat, ws: seq<Window>) {
    && (if start == |s| then ws == [] else ws != [] && ws[0].start == start && Stops(s, overlap, ws[|ws| - 1]))
    && (forall k :: 0 <= k < |ws| ==> EndsRight(s, target, ws[k]))
    && (forall k :: 0 <= k < |ws| - 1 ==> ws[k].end < |s| && Overlaps(s, overlap, ws[k], ws[k + 1]))
  }

  ghost predicate Stops(s: Bytes, overlap: nat, w: Window) {
    w.end == |s| || Overlaps(s, overlap, w, Window(|s|, |s|))
  }

  /** The cutting of every well-formed body, for every target and overlap. */
  lemma {:induction false} WindowsAreCutRight(s: Bytes, target: nat, overlap: nat, start: nat)
    requires WellFormed(s) && start <= |s| && Windows(s, target, overlap, start).Done?
    ensures CutRight(s, target, overlap, start, Windows(s, target, overlap, start).windows)
    decreases |s| - start
  {
    hide Cut, NextStart, EndsRight, Overlaps;
    if start < |s| {
      var w := Window(start, Cut(s, target, start));
      CutEndsRight(s, target, start);
      if w.end < |s| {
        var next := NextStart(s, overlap, w);
        WindowsAreCutRight(s, target, overlap, next);
        var ws := Windows(s, target, overlap, next).windows;
        NextOverlaps(s, overlap, w, Window(next, next));
        CutRightGrows(s, target, overlap, w, next, ws);
      }
    }
  }

  lemma CutRightGrows(s: Bytes, target: nat, overlap: nat, w: Window, next: nat, ws: seq<Window>)
    requires next <= |s| && CutRight(s, target, overlap, next, ws) && EndsRight(s, target, w)
    requires w.start < |s| && w.end < |s| && Overlaps(s, overlap, w, Window(next, next))
    ensures CutRight(s, target, overlap, w.start, [w] + ws)
  {
    hide EndsRight, Overlaps;
    var all := [w] + ws;
    if ws != [] {
      SameStart(s, overlap, w, Window(next, next), ws[0]);
    }
    forall k | 0 <= k < |all| - 1
      ensures all[k].end < |s| && Overlaps(s, overlap, all[k], all[k + 1])
    {
      if k > 0 {
        assert Overlaps(s, overlap, ws[k - 1], ws[(k - 1) + 1]);
      }
    }
  }

  lemma SameStart(s: Bytes, overlap: nat, w: Window, u: Window, v: Window)
    requires u.start == v.start
    ensures Overlaps(s, overlap, w, u) == Overlaps(s, overlap, w, v)
  {
  }

  /** With a target above the look-back, a window longer than `overlap` repeats all of the overlap in
      the next one but for at most three bytes of a cut character; a shorter one is followed by the
      window one character further on. */
  lemma OverlapIsKept(s: Bytes, target: nat, overlap: nat, k: nat)
    requires WellFormed(s) && target > LOOK_BACK && s != []
    ensures Windows(s, target, overlap, 0).Done?
    ensures var ws := Windows(s, target, overlap, 0).windows;
      k + 1 < |ws| ==>
        && ws[k + 1].start <= ws[k].end
        && (ws[k].end - ws[k].start > overlap ==> overlap - 3 <= ws[k].end - ws[k + 1].start <= overlap)
        && (ws[k].end - ws[k].start <= overlap ==> ws[k].start < ws[k + 1].start <= ws[k].start + 4)
  {
    hide Windows, EndsRight, GoodWindow, WellFormed;
    WindowsTile(s, target, overlap, 0);
    WindowsAreCutRight(s, target, overlap, 0);
    var ws := Windows(s, target, overlap, 0).windows;
    if k + 1 < |ws| {
      assert Linked(overlap, ws[k], ws[k + 1]) && Overlaps(s, overlap, ws[k], ws[k + 1]);
      FirstIsNear(s, if ws[k].end - ws[k].start > overlap then ws[k].end - overlap else ws[k].start + 1, ws[k + 1].start);
    }
  }

  lemma FirstIsNear(s: Bytes, lo: nat, r: nat)
    requires WellFormed(s) && FirstBoundary(s, lo, r)
    ensures r <= lo + 3
  {
    if lo + 3 < |s| {
      BoundaryNear(s, lo);
    }
  }

  ghost predicate Covered(ws: seq<Window>, i: nat) {
    exists k :: 0 <= k < |ws| && ws[k].start <= i < ws[k].end
  }

  /** A tiling covers every byte from its start on. */
  lemma {:induction false} TilingCovers(s: Bytes, target: nat, overlap: nat, start: nat, ws: seq<Window>, i: nat)
    requires Tiling(s, target, overlap, start, ws) && start <= i < |s|
    ensures Covered(ws, i)
    decreases |ws|
  {
    if i < ws[0].end {
      assert ws[0].start <= i;
    } else {
      var rest := ws[1..];
      forall k | 0 <= k < |rest| - 1
        ensures Linked(overlap, rest[k], rest[k + 1])
      {
        assert Linked(overlap, ws[k + 1], ws[(k + 1) + 1]);
      }
      assert Linked(overlap, ws[0], ws[0 + 1]);
      TilingCovers(s, target, overlap, rest[0].start, rest, i);
      var k :| 0 <= k < |rest| && rest[k].start <= i < rest[k].end;
      assert ws[k + 1] == rest[k];
    }
  }

  // ---------------------------------------------------------------------------------------
  // No text is lost
  // ---------------------------------------------------------------------------------------

  /** Byte `i` of the body lies in some piece, where the body holds it. */
  ghost predicate InPiece(s: Bytes, pieces: seq<Bytes>, i: nat) {
    exists p, at: nat :: p in pieces && IsPieceAt(s, p, at) && at <= i < at + |p|
  }

  ghost predicate IsPieceAt(s: Bytes, p: Bytes, at: nat) {
    at + |p| <= |s| && s[at..at + |p|] == p
  }

  /** Byte `i` is part of a run of white space. */
  ghost predicate InBlank(s: Bytes, i: nat) {
    exists l: nat, r: nat :: l <= i < r <= |s| && IsBlank(s, l, r)
  }

  ghost predicate IsBlank(s: Bytes, l: nat, r: nat)
    requires l <= r <= |s|
  {
    AllSpace(s[l..r])
  }

  /** The text of each window is a piece, unless it is white space. */
  lemma {:induction false} WindowIsPiece(s: Bytes, ws: seq<Window>, k: nat)
    requires InBounds(ws, |s|) && k < |ws|
    ensures Trim(s[ws[k].start..ws[k].end]) == [] || Trim(s[ws[k].start..ws[k].end]) in Pieces(s, ws)
    decreases |ws|
  {
    hide Trim;
    if k < |ws| - 1 {
      WindowIsPiece(s, ws[..|ws| - 1], k);
    }
  }

  lemma SliceOfSlice(s: Bytes, i: nat, j: nat, a: nat, b: nat)
    requires i <= j <= |s| && a <= b <= j - i
    ensures s[i..j][a..b] == s[i + a..i + b]
  {
    forall k | 0 <= k < b - a
      ensures s[i..j][a..b][k] == s[i + a..i + b][k]
    {
      assert s[i..j][a..b][k] == s[i..j][a + k] == s[i + (a + k)];
    }
  }

  lemma ByteOfWindow(s: Bytes, w: Window, pieces: seq<Bytes>, i: nat)
    requires w.start <= i < w.end <= |s|
    requires Trim(s[w.start..w.end]) == [] || Trim(s[w.start..w.end]) in pieces
    ensures InPiece(s, pieces, i) || InBlank(s, i)
  {
    hide AllSpace, Trim, SpaceLen, SpaceLenBack, IsPieceAt;
    var t := s[w.start..w.end];
    var a, b := TrimCuts(t);
    var at := w.start + a;
    SliceOfSlice(s, w.start, w.end, 0, a);
    SliceOfSlice(s, w.start, w.end, b, |t|);
    assert t[..a] == t[0..a] && t[b..] == t[b..|t|];
    if i < at {
      assert IsBlank(s, w.start, at);
    } else if i >= w.start + b {
      assert IsBlank(s, w.start + b, w.end);
    } else {
      TrimmedIsPiece(s, w, a, b);
    }
  }

  lemma TrimmedIsPiece(s: Bytes, w: Window, a: nat, b: nat)
    requires w.start <= w.end <= |s| && a <= b <= w.end - w.start
    requires Trim(s[w.start..w.end]) == s[w.start..w.end][a..b]
    ensures IsPieceAt(s, Trim(s[w.start..w.end]), w.start + a) && |Trim(s[w.start..w.end])| == b - a
  {
    hide Trim;
    SliceOfSlice(s, w.start, w.end, a, b);
  }

  /** With a target above the look-back, every byte of the body is in some piece or is white space. */
  lemma NoTextLost(s: Bytes, target: nat, overlap: nat)
    requires WellFormed(s) && target > LOOK_BACK
    ensures Windows(s, target, overlap, 0).Done? && InBounds(Windows(s, target, overlap, 0).windows, |s|)
    ensures forall i: nat :: i < |s| ==>
              InPiece(s, Pieces(s, Windows(s, target, overlap, 0).windows), i) || InBlank(s, i)
  {
    if s != [] {
      hide Windows, Pieces, Trim, InPiece, InBlank;
      WindowsTile(s, target, overlap, 0);
      var ws := Windows(s, target, overlap, 0).windows;
      forall i: nat | i < |s|
        ensures InPiece(s, Pieces(s, ws), i) || InBlank(s, i)
      {
        TilingCovers(s, target, overlap, 0, ws, i);
        var k :| 0 <= k < |ws| && ws[k].start <= i < ws[k].end;
        WindowIsPiece(s, ws, k);
        ByteOfWindow(s, ws[k], Pieces(s, ws), i);
      }
    }
  }

  function TextOf(s: Bytes, w: Window): Bytes
    requires w.start <= w.end <= |s|
  {
    Trim(s[w.start..w.end])
  }

  /** The pieces are the texts of the windows, in order; only windows of nothing but white space have
      none. `at` says which window each piece comes from. */
  ghost predicate TextsInOrder(s: Bytes, ws: seq<Window>, pieces: seq<Bytes>, at: seq<nat>)
    requires InBounds(ws, |s|)
  {
    && |at| == |pieces|
    && (forall k :: 0 <= k < |at| ==> at[k] < |ws| && pieces[k] == TextOf(s, ws[at[k]]) && pieces[k] != [])
    && (forall j, k :: 0 <= j < k < |at| ==> at[j] < at[k])
    && (forall i :: 0 <= i < |ws| ==> i in at || TextOf(s, ws[i]) == [])
  }

  lemma {:induction false} PiecesInOrder(s: Bytes, ws: seq<Window>) returns (at: seq<nat>)
    requires InBounds(ws, |s|)
    ensures TextsInOrder(s, ws, Pieces(s, ws), at)
  {
    hide TextsInOrder, Trim;
    if ws == [] {
      at := [];
      NoTexts(s);
    } else {
      var n := |ws| - 1;
      var front := PiecesInOrder(s, ws[..n]);
      at := if TextOf(s, ws[n]) == [] then front + [] else front + [n];
      OneMoreText(s, ws[..n], ws[n], Pieces(s, ws[..n]), front);
      assert ws[..n] + [ws[n]] == ws;
    }
  }

  lemma NoTexts(s: Bytes)
    ensures TextsInOrder(s, [], [], [])
  {
  }

  lemma OneMoreText(s: Bytes, ws: seq<Window>, w: Window, pieces: seq<Bytes>, at: seq<nat>)
    requires InBounds(ws, |s|) && w.start <= w.end <= |s| && TextsInOrder(s, ws, pieces, at)
    ensures InBounds(ws + [w], |s|)
    ensures if TextOf(s, w) == [] then TextsInOrder(s, ws + [w], pieces + [], at + [])
            else TextsInOrder(s, ws + [w], pieces + [TextOf(s, w)], at + [|ws|])
  {
    hide TextOf;
    if TextOf(s, w) == [] {
      assert pieces + [] == pieces && at + [] == at;
    } else {
      var at' := at + [|ws|];
      assert at'[|at|] == |ws|;
      forall i | 0 <= i < |ws| && i in at
        ensures i in at'
      {
      }
    }
  }

  lemma TrimmedSlice(s: Bytes, w: Window) returns (at: nat)
    requires w.start <= w.end <= |s|
    ensures IsPieceAt(s, Trim(s[w.start..w.end]), at)
  {
    hide Trim, SpaceLen, SpaceLenBack, AllSpace, IsPieceAt;
    var a, b := TrimCuts(s[w.start..w.end]);
    TrimmedIsPiece(s, w, a, b);
    at := w.start + a;
  }

  /** Conversely, every piece is a non-empty slice of the body. */
  lemma {:induction false} PiecesAreSlices(s: Bytes, ws: seq<Window>, p: Bytes)
    requires InBounds(ws, |s|) && p in Pieces(s, ws)
    ensures p != [] && exists at: nat :: IsPieceAt(s, p, at)
    decreases |ws|
  {
    hide Trim, IsPieceAt;
    if p in Pieces(s, ws[..|ws| - 1]) {
      PiecesAreSlices(s, ws[..|ws| - 1], p);
    } else {
      var at := TrimmedSlice(s, ws[|ws| - 1]);
    }
  }

  // ---------------------------------------------------------------------------------------
  // Exactly which targets are safe
  // ---------------------------------------------------------------------------------------

  ghost predicate NeverPanics(target: nat, overlap: nat) {
    forall s :: WellFormed(s) ==> Windows(s, target, overlap, 0).Done?
  }

  ghost predicate CoversAll(s: Bytes, target: nat, overlap: nat) {
    && Windows(s, target, overlap, 0).Done?
    && forall i :: 0 <= i < |s| ==> Covered(Windows(s, target, overlap, 0).windows, i)
  }

  ghost predicate NeverLosesText(target: nat, overlap: nat) {
    forall s :: WellFormed(s) ==> CoversAll(s, target, overlap)
  }

  /** No body makes the slice panic exactly when the target reaches the look-back. */
  lemma PanicThreshold(target: nat, overlap: nat)
    ensures NeverPanics(target, overlap) <==> target >= LOOK_BACK
  {
    if target >= LOOK_BACK {
      forall s | WellFormed(s)
        ensures Windows(s, target, overlap, 0).Done?
      {
        LargeTargetIsSafe(s, target, overlap, 0);
      }
    } else {
      SpacePanics(target, overlap);
    }
  }

  /** No body loses a byte exactly when the target is above the look-back. */
  lemma LossThreshold(target: nat, overlap: nat)
    ensures NeverLosesText(target, overlap) <==> target > LOOK_BACK
  {
    if target > LOOK_BACK {
      forall s | WellFormed(s)
        ensures CoversAll(s, target, overlap)
      {
        if s != [] {
          WindowsTile(s, target, overlap, 0);
          forall i | 0 <= i < |s|
            ensures Covered(Windows(s, target, overlap, 0).windows, i)
          {
            TilingCovers(s, target, overlap, 0, Windows(s, target, overlap, 0).windows, i);
          }
        }
      }
    } else if target == LOOK_BACK {
      SpaceLosesByte(overlap);
    } else {
      SpacePanics(target, overlap);
    }
  }

  lemma {:induction false} LargeTargetIsSafe(s: Bytes, target: nat, overlap: nat, start: nat)
    requires WellFormed(s) && target >= LOOK_BACK && start <= |s|
    ensures Windows(s, target, overlap, start).Done?
    decreases |s| - start
  {
    hide Cut, NextStart;
    if start < |s| {
      CutIsGood(s, target, start);
      var w := Window(start, Cut(s, target, start));
      if w.end < |s| {
        LargeTargetIsSafe(s, target, overlap, NextStart(s, overlap, w));
      }
    }
  }

  /** One letter, a space, and a long word. */
  ghost predicate IsLongWord(s: Bytes) {
    |s| == 500 && forall i :: 0 <= i < |s| ==> s[i] == if i == 1 then SPACE else 97
  }

  function LongWord(): (s: Bytes)
    ensures IsLongWord(s) && WellFormed(s)
  {
    seq(500, i => if i == 1 then SPACE else 97)
  }

  lemma NoSentence(s: Bytes, from: nat, end: nat)
    requires IsLongWord(s) && end <= |s|
    ensures SentenceEnd(s, from, end).None?
  {
  }

  lemma OnlySpace(s: Bytes, end: nat)
    requires IsLongWord(s) && 2 <= end <= |s| && end - 2 <= LOOK_BACK
    ensures SpaceBefore(s, end, end) == Some(2)
  {
    assert BlankBefore(s, 2);
  }

  lemma NoSpace(s: Bytes, end: nat)
    requires IsLongWord(s) && end <= 1
    ensures SpaceBefore(s, end, end).None?
  {
  }

  lemma NoBump(s: Bytes, i: nat)
    requires IsLongWord(s) && i <= |s|
    ensures BumpUp(s, i) == i
  {
  }

  /** Within the look-back, the only space is always the cut. */
  lemma LongWordCut(s: Bytes, target: nat, start: nat)
    requires IsLongWord(s)
    requires target <= LOOK_BACK && start <= 3 && start + target >= 2 && start + target - 2 <= LOOK_BACK
    ensures Cut(s, target, start) == 2
  {
    hide BumpUp, SentenceEnd, SpaceBefore;
    var end := start + target;
    NoSentence(s, Max(SatSub(end, LOOK_BACK), start + target / 2), end);
    OnlySpace(s, end);
    NoBump(s, 2);
  }

  /** Before the space there is nothing to cut at. */
  lemma LongWordStart(s: Bytes, target: nat, start: nat)
    requires IsLongWord(s) && start + target <= 1
    ensures Cut(s, target, start) == start + target
  {
    hide BumpUp, SentenceEnd, SpaceBefore;
    var end := start + target;
    NoSentence(s, Max(SatSub(end, LOOK_BACK), start + target / 2), end);
    NoSpace(s, end);
    NoBump(s, end);
  }

  lemma LongWordNext(s: Bytes, overlap: nat, w: Window)
    requires IsLongWord(s) && w.start <= w.end <= 2
    ensures NextStart(s, overlap, w) <= Max(w.start + 1, w.end)
  {
    NoBump(s, w.start + Max(1, SatSub(w.end - w.start, overlap)));
  }

  /** Every run over the long word comes to start at byte 2. */
  lemma ReachesTwo(s: Bytes, target: nat, overlap: nat, start: nat) returns (ws: seq<Window>)
    requires IsLongWord(s) && target <= LOOK_BACK && start <= 2
    ensures Windows(s, target, overlap, start) == Prepend(ws, Windows(s, target, overlap, 2))
    ensures forall w :: w in ws ==> w.end <= 2
    decreases 2 - start
  {
    hide Cut, NextStart, IsLongWord;
    ws := [];
    if start < 2 {
      assert |s| == 500 by { LongWordIsLong(s); }
      if start + target >= 2 {
        LongWordCut(s, target, start);
      } else {
        LongWordStart(s, target, start);
      }
      var w := Window(start, Cut(s, target, start));
      LongWordNext(s, overlap, w);
      var rest := ReachesTwo(s, target, overlap, NextStart(s, overlap, w));
      ws := [w] + rest;
      PrependFront(w, rest, Windows(s, target, overlap, 2));
    }
  }

  lemma LongWordIsLong(s: Bytes)
    requires IsLongWord(s)
    ensures |s| == 500
  {
  }

  lemma PrependFront(w: Window, ws: seq<Window>, c: Cutting)
    ensures Prepend([w], Prepend(ws, c)) == Prepend([w] + ws, c)
  {
    if c.Done? {
      Assoc([w], ws, c.windows);
    }
  }

  /** At byte 2 the window is empty, and the next one starts behind the space. */
  lemma AtTwo(s: Bytes, target: nat, overlap: nat)
    requires IsLongWord(s) && target <= LOOK_BACK
    ensures Windows(s, target, overlap, 2) == Prepend([Window(2, 2)], Windows(s, target, overlap, 3))
  {
    hide Cut, NextStart;
    LongWordCut(s, target, 2);
    LongWordNext(s, overlap, Window(2, 2));
  }

  lemma SpacePanics(target: nat, overlap: nat)
    requires target < LOOK_BACK
    ensures Windows(LongWord(), target, overlap, 0).Panic?
  {
    hide Cut, NextStart;
    var s := LongWord();
    var ws := ReachesTwo(s, target, overlap, 0);
    AtTwo(s, target, overlap);
    LongWordCut(s, target, 3);
  }

  lemma SpaceLosesByte(overlap: nat)
    ensures !CoversAll(LongWord(), LOOK_BACK, overlap)
  {
    hide Windows;
    var s := LongWord();
    var ws := ReachesTwo(s, LOOK_BACK, overlap, 0);
    AtTwo(s, LOOK_BACK, overlap);
    if Windows(s, LOOK_BACK, overlap, 0).Done? {
      StartsAfter(s, LOOK_BACK, overlap, 3);
      NotCovered(ws, Windows(s, LOOK_BACK, overlap, 3).windows);
      assert !Covered(Windows(s, LOOK_BACK, overlap, 0).windows, 2);
    }
  }

  lemma NotCovered(ws: seq<Window>, later: seq<Window>)
    requires forall w :: w in ws ==> w.end <= 2
    requires forall w :: w in later ==> 3 <= w.start
    ensures !Covered(ws + ([Window(2, 2)] + later), 2)
  {
  }

  lemma {:induction false} StartsAfter(s: Bytes, target: nat, overlap: nat, start: nat)
    requires start <= |s| && Windows(s, target, overlap, start).Done?
    ensures forall w :: w in Windows(s, target, overlap, start).windows ==> start <= w.start
    decreases |s| - start
  {
    hide Cut, NextStart;
    if start < |s| {
      var w := Window(start, Cut(s, target, start));
      if w.start <= w.end < |s| {
        StartsAfter(s, target, overlap, NextStart(s, overlap, w));
      }
    }
  }

  // ---------------------------------------------------------------------------------------
  // Numbering
  // ---------------------------------------------------------------------------------------

  datatype Chunk = Chunk(id: string, ordinal: nat, text: Bytes)

  /** The chunks of a document: the trimmed body is cut, each piece carries the prefix. */
  method ChunkDocument(id: string, prefix: Bytes, body: Bytes, target: nat, overlap: nat)
    returns (chunks: Option<seq<Chunk>>)
    ensures Trim(body) == [] ==> chunks == Some([])
    ensures Trim(body) != [] ==> (chunks.None? <==> Windows(Trim(body), target, overlap, 0).Panic?)
    ensures chunks.Some? ==> Numbered(id, prefix, chunks.value)
    ensures chunks.Some? && Trim(body) != [] ==>
              && InBounds(Windows(Trim(body), target, overlap, 0).windows, |Trim(body)|)
              && CarryPieces(chunks.value, prefix, Pieces(Trim(body), Windows(Trim(body), target, overlap, 0).windows))
    ensures chunks.Some? ==> forall k :: 0 <= k < |chunks.value| ==> |chunks.value[k].text| > |prefix|
  {
    hide Trim, Windows, Pieces, Show;
    var text := Trim(body);
    if text == [] {
      return Some([]);
    }
    var segments := SplitText(text, target, overlap);
    if segments.None? {
      return None;
    }
    PiecesNotEmpty(text, Windows(text, target, overlap, 0).windows);
    var out: seq<Chunk> := [];
    for idx := 0 to |segments.value|
      invariant |out| == idx && Numbered(id, prefix, out)
      invariant forall k :: 0 <= k < idx ==> out[k].text == prefix + segments.value[k]
    {
      out := out + [Chunk(id + "#chunk-" + Show(idx), idx, prefix + segments.value[idx])];
    }
    return Some(out);
  }

  /** One chunk for each piece, in order: the prefix and the piece. */
  ghost predicate CarryPieces(chunks: seq<Chunk>, prefix: Bytes, pieces: seq<Bytes>) {
    |chunks| == |pieces| && forall k :: 0 <= k < |chunks| ==> chunks[k].text == prefix + pieces[k]
  }

  ghost predicate Numbered(id: string, prefix: Bytes, chunks: seq<Chunk>) {
    forall k :: 0 <= k < |chunks| ==>
      && chunks[k].ordinal == k && chunks[k].id == id + "#chunk-" + Show(k)
      && prefix <= chunks[k].text
  }

  lemma {:induction false} PiecesNotEmpty(s: Bytes, ws: seq<Window>)
    requires InBounds(ws, |s|)
    ensures forall k :: 0 <= k < |Pieces(s, ws)| ==> Pieces(s, ws)[k] != []
  {
    if ws != [] {
      PiecesNotEmpty(s, ws[..|ws| - 1]);
    }
  }

  /** Chunk ids of one document are distinct. */
  lemma ChunkIdsDistinct(id: string, prefix: Bytes, chunks: seq<Chunk>, i: nat, j: nat)
    requires Numbered(id, prefix, chunks) && i < |chunks| && j < |chunks| && chunks[i].id == chunks[j].id
    ensures i == j
  {
    DropFront(id + "#chunk-", Show(i));
    DropFront(id + "#chunk-", Show(j));
    ValueOfShow(i);
    ValueOfShow(j);
  }
}
