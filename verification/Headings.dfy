/** Heading detection: which lines of a body are headings, and the section ranges they cut. */
module Headings {
  import opened Wrappers
  import opened Strings
  import opened Utf8
  import opened Numbers

  const HASH: Byte := 35
  const DOT: Byte := 46
  const KEYWORD: Bytes := [83, 69, 67, 84, 73, 79, 78, 58]  // "SECTION:"

  datatype Parsed = Parsed(depth: nat, title: Bytes)

  /** `markerStart` is where the heading line starts, `bodyStart` is just past its newline. */
  datatype Heading = Heading(depth: nat, title: Bytes, markerStart: nat, bodyStart: nat)

  // ---------------------------------------------------------------------------------------
  // One line
  // ---------------------------------------------------------------------------------------

  function RunOf(c: Byte, s: Bytes): (k: nat)
    ensures k <= |s| && (k < |s| ==> s[k] != c)
    ensures forall i :: 0 <= i < k ==> s[i] == c
  {
    if s == [] || s[0] != c then 0 else
      assert forall i :: 0 < i <= RunOf(c, s[1..]) ==> s[i] == s[1..][i - 1];
      1 + RunOf(c, s[1..])
  }

  function StripEnd(c: Byte, s: Bytes): Bytes {
    if s == [] || s[|s| - 1] != c then s else StripEnd(c, s[..|s| - 1])
  }

  predicate BlankFirst(s: Bytes) {
    s != [] && (s[0] == SPACE || s[0] == TAB)
  }

  /** A Markdown ATX heading: one to six hashes, a blank, a title. */
  function AtxLine(line: Bytes): Option<Parsed> {
    var t := TrimStart(line);
    var d := RunOf(HASH, t);
    if d == 0 || d > 6 || !BlankFirst(t[d..]) then None else
      var title := Trim(StripEnd(HASH, Trim(t[d..])));
      if title == [] then None else Some(Parsed(d, title))
  }

  predicate IsDigit(b: Byte) {
    48 <= b <= 57
  }

  function DigitsEnd(s: Bytes, i: nat): (j: nat)
    requires i <= |s|
    ensures i <= j <= |s| && (j < |s| ==> !IsDigit(s[j]))
    ensures forall k :: i <= k < j ==> IsDigit(s[k])
    decreases |s| - i
  {
    if i < |s| && IsDigit(s[i]) then DigitsEnd(s, i + 1) else i
  }

  /** Walk "digits, dot" groups from `i`; the number of groups and where they end, or `None` when
      digits are not followed by a dot. */
  function Groups(s: Bytes, i: nat, depth: nat): (r: Option<(nat, nat)>)
    requires i <= |s|
    ensures r.Some? ==> depth <= r.value.0 && i <= r.value.1 <= |s|
    decreases |s| - i
  {
    var j := DigitsEnd(s, i);
    if j == i then Some((depth, i))
    else if j < |s| && s[j] == DOT then Groups(s, j + 1, depth + 1)
    else None
  }

  function NumberedLine(line: Bytes): Option<Parsed> {
    match Groups(line, 0, 0)
    case None => None
    case Some((depth, i)) =>
      if depth == 0 || !BlankFirst(line[i..]) then None else
        var title := Trim(line[i..]);
        if title == [] then None else Some(Parsed(depth, title))
  }

  /** `SECTION: title`, or a numbered heading whose depth is its dot count. */
  function MarkerLine(line: Bytes): Option<Parsed> {
    var t := TrimStart(line);
    if KEYWORD <= t then
      var title := Trim(t[|KEYWORD|..]);
      if title == [] then None else Some(Parsed(1, title))
    else NumberedLine(t)
  }

  /** Every heading has a depth of at least 1 and a title; Markdown stops at depth 6. */
  lemma ParserBounds(line: Bytes)
    ensures var r := AtxLine(line); r.Some? ==> 1 <= r.value.depth <= 6 && r.value.title != []
    ensures var r := MarkerLine(line); r.Some? ==> 1 <= r.value.depth && r.value.title != []
  {
  }

  method ParseAtxLine(line: Bytes) returns (r: Option<Parsed>)
    ensures r == AtxLine(line)
  {
    hide TrimStart, TrimEnd, Trim, StripEnd;
    var trimmed := TrimStart(line);
    if trimmed == [] || trimmed[0] != HASH {
      return None;
    }
    var depth := 0;
    while depth < |trimmed| && trimmed[depth] == HASH
      invariant depth <= |trimmed| && depth <= 6
      invariant depth <= RunOf(HASH, trimmed)
    {
      depth := depth + 1;
      if depth > 6 {
        return None;
      }
    }
    var rest := trimmed[depth..];
    if !BlankFirst(rest) {
      return None;
    }
    var title := Trim(StripEnd(HASH, Trim(rest)));
    return if title == [] then None else Some(Parsed(depth, title));
  }

  method ParseNumbered(line: Bytes) returns (r: Option<Parsed>)
    ensures r == NumberedLine(line)
  {
    var depth, idx := 0, 0;
    while true
      invariant idx <= |line|
      invariant Groups(line, 0, 0) == Groups(line, idx, depth)
      decreases |line| - idx
    {
      var sawDigitsAt := idx;
      while idx < |line| && IsDigit(line[idx])
        invariant sawDigitsAt <= idx <= |line|
        invariant DigitsEnd(line, sawDigitsAt) == DigitsEnd(line, idx)
      {
        idx := idx + 1;
      }
      if idx == sawDigitsAt {
        break;
      }
      if idx < |line| && line[idx] == DOT {
        depth, idx := depth + 1, idx + 1;
      } else {
        return None;
      }
    }
    if depth == 0 || idx >= |line| {
      return None;
    }
    if line[idx] != SPACE && line[idx] != TAB {
      return None;
    }
    var title := Trim(line[idx..]);
    return if title == [] then None else Some(Parsed(depth, title));
  }

  // What a line is written as, and that it is read back.

  /** A title the parser leaves alone: trimmed, and not ending in a hash. */
  predicate Plain(title: Bytes) {
    title != [] && SpaceLen(title) == 0 && SpaceLenBack(title) == 0 && title[|title| - 1] != HASH
  }

  lemma TrimPadded(title: Bytes)
    requires Plain(title)
    ensures Trim([SPACE] + title) == title
  {
    var s := [SPACE] + title;
    assert SpaceLen(s) == 1 && s[1..] == title;
    assert TrimStart(s) == TrimStart(title) == title;
  }

  lemma {:induction false} RunIs(c: Byte, s: Bytes, k: nat)
    requires k <= |s| && (k < |s| ==> s[k] != c)
    requires forall i :: 0 <= i < k ==> s[i] == c
    ensures RunOf(c, s) == k
  {
    if k > 0 {
      assert forall i :: 0 <= i < k - 1 ==> s[1..][i] == s[i + 1];
      RunIs(c, s[1..], k - 1);
    }
  }

  function Repeat(c: Byte, k: nat): (s: Bytes)
    ensures |s| == k && forall i :: 0 <= i < k ==> s[i] == c
  {
    if k == 0 then [] else [c] + Repeat(c, k - 1)
  }

  lemma AtxReadOff(line: Bytes, d: nat, title: Bytes)
    requires 1 <= d <= 6 && Plain(title) && SpaceLen(line) == 0
    requires RunOf(HASH, line) == d && line[d..] == [SPACE] + title
    ensures AtxLine(line) == Some(Parsed(d, title))
  {
    hide Trim, RunOf, SpaceLenBack;
    TrimPadded(title);
    TrimClean(title);
    assert StripEnd(HASH, title) == title;
    assert TrimStart(line) == line;
  }

  lemma TrimClean(title: Bytes)
    requires Plain(title)
    ensures Trim(title) == title
  {
    hide SpaceLen, SpaceLenBack;
  }

  /** Writing a Markdown heading and parsing it gives back its depth and title. */
  lemma AtxRoundTrip(d: nat, title: Bytes)
    requires 1 <= d <= 6 && Plain(title)
    ensures AtxLine(Repeat(HASH, d) + ([SPACE] + title)) == Some(Parsed(d, title))
  {
    var line := Repeat(HASH, d) + ([SPACE] + title);
    assert line[0] == HASH && line[d] == SPACE;
    RunIs(HASH, line, d);
    AtxReadOff(line, d, title);
  }

  /** "12.", "3." and so on, one after the other. */
  function Numbering(groups: seq<Bytes>): Bytes {
    if groups == [] then [] else groups[0] + [DOT] + Numbering(groups[1..])
  }

  ghost predicate DigitGroup(g: Bytes) {
    g != [] && forall i :: 0 <= i < |g| ==> IsDigit(g[i])
  }

  lemma {:induction false} DigitsEndIs(s: Bytes, i: nat, j: nat)
    requires i <= j <= |s| && (j < |s| ==> !IsDigit(s[j]))
    requires forall k :: i <= k < j ==> IsDigit(s[k])
    ensures DigitsEnd(s, i) == j
  {
  }

  /** The groups stand in the line from `i` to `end`, each followed by a dot. */
  ghost predicate Stand(line: Bytes, i: nat, groups: seq<Bytes>, end: nat)
    decreases |groups|
  {
    if groups == [] then i == end <= |line|
    else
      var j := i + |groups[0]|;
      && i < j < |line| && line[j] == DOT
      && (forall k :: i <= k < j ==> IsDigit(line[k]))
      && Stand(line, j + 1, groups[1..], end)
  }

  lemma Middle(pre: Bytes, g: Bytes, tail: Bytes, line: Bytes)
    requires line == pre + (g + [DOT] + tail) && DigitGroup(g)
    ensures |pre| < |pre| + |g| < |line| && line[|pre| + |g|] == DOT
    ensures forall k :: |pre| <= k < |pre| + |g| ==> IsDigit(line[k])
    ensures line == pre + g + [DOT] + tail
  {
    forall k | |pre| <= k < |pre| + |g|
      ensures IsDigit(line[k])
    {
      assert line[k] == g[k - |pre|];
    }
  }

  lemma {:induction false} NumberingStands(pre: Bytes, groups: seq<Bytes>, rest: Bytes, line: Bytes)
    requires line == pre + (Numbering(groups) + rest) && forall g :: g in groups ==> DigitGroup(g)
    ensures Stand(line, |pre|, groups, |pre| + |Numbering(groups)|)
    decreases |groups|
  {
    if groups != [] {
      hide DigitGroup;
      var g, more := groups[0], Numbering(groups[1..]);
      Assoc(g + [DOT], more, rest);
      Middle(pre, g, more + rest, line);
      NumberingStands(pre + g + [DOT], groups[1..], rest, line);
    }
  }

  lemma {:induction false} GroupsSkip(line: Bytes, i: nat, groups: seq<Bytes>, end: nat, depth: nat)
    requires Stand(line, i, groups, end)
    ensures i <= end <= |line| && Groups(line, i, depth) == Groups(line, end, depth + |groups|)
    decreases |groups|
  {
    hide DigitsEnd;
    if groups != [] {
      DigitsEndIs(line, i, i + |groups[0]|);
      GroupsSkip(line, i + |groups[0]| + 1, groups[1..], end, depth + 1);
    }
  }

  lemma GroupsRead(line: Bytes, i: nat, groups: seq<Bytes>, end: nat, depth: nat)
    requires Stand(line, i, groups, end) && end < |line| && !IsDigit(line[end])
    ensures i <= |line| && Groups(line, i, depth) == Some((depth + |groups|, end))
  {
    hide Stand;
    GroupsSkip(line, i, groups, end, depth);
    DigitsEndIs(line, end, end);
  }

  lemma ReadOff(line: Bytes, depth: nat, i: nat, title: Bytes)
    requires Groups(line, 0, 0) == Some((depth, i)) && depth > 0 && Plain(title)
    requires i <= |line| && line[i..] == [SPACE] + title
    ensures NumberedLine(line) == Some(Parsed(depth, title))
  {
    TrimPadded(title);
  }

  lemma LineStands(groups: seq<Bytes>, rest: Bytes, line: Bytes)
    requires line == Numbering(groups) + rest && forall g :: g in groups ==> DigitGroup(g)
    ensures Stand(line, 0, groups, |Numbering(groups)|)
  {
    hide DigitGroup, Stand, Numbering;
    assert [] + line == line;
    NumberingStands([], groups, rest, line);
  }

  /** A numbered heading's depth is the number of its groups, whatever their digits. */
  lemma NumberedRoundTrip(groups: seq<Bytes>, title: Bytes)
    requires groups != [] && (forall g :: g in groups ==> DigitGroup(g)) && Plain(title)
    ensures NumberedLine(Numbering(groups) + ([SPACE] + title)) == Some(Parsed(|groups|, title))
  {
    hide DigitGroup, Groups, Stand, Plain, Numbering, NumberedLine, Trim;
    var rest, end := [SPACE] + title, |Numbering(groups)|;
    var line := Numbering(groups) + rest;
    DropFront(Numbering(groups), rest);
    assert line[end] == rest[0] == SPACE;
    LineStands(groups, rest, line);
    GroupsRead(line, 0, groups, end, 0);
    ReadOff(line, |groups|, end, title);
  }

  // ---------------------------------------------------------------------------------------
  // The whole body
  // ---------------------------------------------------------------------------------------

  function LineEnd(body: Bytes, i: nat): (j: nat)
    requires i <= |body|
    ensures i <= j <= |body| && (j < |body| ==> body[j] == NEWLINE)
    ensures forall k :: i <= k < j ==> body[k] != NEWLINE
    decreases |body| - i
  {
    if i < |body| && body[i] != NEWLINE then LineEnd(body, i + 1) else i
  }

  /** The heading on the line that starts at `i`, if there is one. */
  function HeadingAt(parse: Bytes -> Option<Parsed>, body: Bytes, i: nat): Option<Heading>
    requires i < |body|
  {
    var j := LineEnd(body, i);
    match parse(body[i..j])
    case None => None
    case Some(p) => Some(Heading(p.depth, p.title, i, Min(j + 1, |body|)))
  }

  function HeadingsFrom(parse: Bytes -> Option<Parsed>, body: Bytes, i: nat): seq<Heading>
    decreases |body| - i
  {
    if i >= |body| then [] else
      var h := HeadingAt(parse, body, i);
      WithHeading([], h) + HeadingsFrom(parse, body, LineEnd(body, i) + 1)
  }

  function Detected(body: Bytes): seq<Heading> {
    var md := HeadingsFrom(AtxLine, body, 0);
    if md != [] then md else HeadingsFrom(MarkerLine, body, 0)
  }

  function WithHeading(out: seq<Heading>, h: Option<Heading>): seq<Heading> {
    if h.Some? then out + [h.value] else out
  }

  lemma ScanStep(parse: Bytes -> Option<Parsed>, body: Bytes, i: nat, out: seq<Heading>)
    requires i < |body|
    ensures out + HeadingsFrom(parse, body, i)
         == WithHeading(out, HeadingAt(parse, body, i)) + HeadingsFrom(parse, body, LineEnd(body, i) + 1)
  {
    var h := HeadingAt(parse, body, i);
    Assoc(out, WithHeading([], h), HeadingsFrom(parse, body, LineEnd(body, i) + 1));
    assert out + WithHeading([], h) == WithHeading(out, h);
  }

  /** One round of the scan: the line that starts at `i`. */
  method ScanLine(parse: Bytes -> Option<Parsed>, body: Bytes, i: nat) returns (h: Option<Heading>, next: nat)
    requires i < |body|
    ensures h == HeadingAt(parse, body, i)
    ensures next == LineEnd(body, i) + 1
  {
    var j := i;
    while j < |body| && body[j] != NEWLINE
      invariant i <= j <= |body| && LineEnd(body, i) == LineEnd(body, j)
    {
      j := j + 1;
    }
    h := match parse(body[i..j])
      case None => None
      case Some(p) => Some(Heading(p.depth, p.title, i, Min(j + 1, |body|)));
    next := j + 1;
  }

  /** The line scan of both dialects; `parse` is the dialect's line parser. */
  method ScanLines(parse: Bytes -> Option<Parsed>, body: Bytes) returns (out: seq<Heading>)
    ensures out == HeadingsFrom(parse, body, 0)
  {
    out := [];
    var i := 0;
    while i < |body|
      invariant out + HeadingsFrom(parse, body, i) == HeadingsFrom(parse, body, 0)
      decreases |body| - i
    {
      ScanStep(parse, body, i, out);
      var h, next := ScanLine(parse, body, i);
      out := WithHeading(out, h);
      i := next;
    }
    assert out + [] == out;
  }

  predicate LineStart(body: Bytes, i: nat) {
    i < |body| && (i == 0 || body[i - 1] == NEWLINE)
  }

  /** `h` is the heading of some line that starts at or after `i`. */
  ghost predicate IsHeading(parse: Bytes -> Option<Parsed>, body: Bytes, i: nat, h: Heading) {
    i <= h.markerStart && LineStart(body, h.markerStart) && HeadingAt(parse, body, h.markerStart) == Some(h)
  }

  lemma NextLine(parse: Bytes -> Option<Parsed>, body: Bytes, i: nat, h: Heading)
    requires LineStart(body, i)
    ensures IsHeading(parse, body, i, h) <==>
            HeadingAt(parse, body, i) == Some(h) || IsHeading(parse, body, LineEnd(body, i) + 1, h)
  {
    var p, next := h.markerStart, LineEnd(body, i) + 1;
    if i < p < next {
      assert body[p - 1] != NEWLINE;
    }
  }

  /** The scan finds exactly the line starts whose line is a heading. */
  lemma {:induction false} ScanIsExact(parse: Bytes -> Option<Parsed>, body: Bytes, i: nat)
    requires LineStart(body, i) || i >= |body|
    ensures forall h :: h in HeadingsFrom(parse, body, i) <==> IsHeading(parse, body, i, h)
    decreases |body| - i
  {
    if i < |body| {
      var next := LineEnd(body, i) + 1;
      ScanIsExact(parse, body, next);
      var here, rest := HeadingAt(parse, body, i), HeadingsFrom(parse, body, next);
      var all := HeadingsFrom(parse, body, i);
      assert all == WithHeading([], here) + rest;
      forall h
        ensures h in all <==> IsHeading(parse, body, i, h)
      {
        NextLine(parse, body, i, h);
      }
    }
  }

  /** Headings come in order and do not overlap. */
  lemma {:induction false} HeadingBounds(parse: Bytes -> Option<Parsed>, body: Bytes, i: nat)
    requires LineStart(body, i) || i >= |body|
    requires forall line :: parse(line).Some? ==> parse(line).value.depth >= 1
    ensures forall h :: h in HeadingsFrom(parse, body, i) ==>
              && h.depth >= 1 && i <= h.markerStart < h.bodyStart <= |body|
    ensures forall a, b :: 0 <= a < b < |HeadingsFrom(parse, body, i)| ==>
              HeadingsFrom(parse, body, i)[a].bodyStart <= HeadingsFrom(parse, body, i)[b].markerStart
    decreases |body| - i
  {
    hide LineEnd, LineStart, HeadingsFrom;
    if i < |body| {
      var next := LineEnd(body, i) + 1;
      NextStart(body, i);
      HeadingBounds(parse, body, next);
      HeadingHere(parse, body, i);
      HeadingsStep(parse, body, i);
      InFront(HeadingAt(parse, body, i), HeadingsFrom(parse, body, next), i, next, |body|);
    } else {
      NoHeadings(parse, body, i);
    }
  }

  lemma NextStart(body: Bytes, i: nat)
    requires i < |body|
    ensures LineStart(body, LineEnd(body, i) + 1) || LineEnd(body, i) + 1 >= |body|
  {
    hide LineEnd;
  }

  lemma NoHeadings(parse: Bytes -> Option<Parsed>, body: Bytes, i: nat)
    requires i >= |body|
    ensures HeadingsFrom(parse, body, i) == []
  {
  }

  lemma HeadingsStep(parse: Bytes -> Option<Parsed>, body: Bytes, i: nat)
    requires i < |body|
    ensures HeadingsFrom(parse, body, i) ==
            WithHeading([], HeadingAt(parse, body, i)) + HeadingsFrom(parse, body, LineEnd(body, i) + 1)
  {
  }

  lemma HeadingHere(parse: Bytes -> Option<Parsed>, body: Bytes, i: nat)
    requires i < |body| && forall line :: parse(line).Some? ==> parse(line).value.depth >= 1
    ensures var h := HeadingAt(parse, body, i);
      h.Some? ==> h.value.depth >= 1 && h.value.markerStart == i < h.value.bodyStart <= |body|
                  && h.value.bodyStart <= LineEnd(body, i) + 1
  {
    hide LineEnd;
  }

  /** Headings from `i` to `n`, each after the one before it. */
  ghost predicate InOrder(hs: seq<Heading>, i: nat, n: nat) {
    && (forall h :: h in hs ==> h.depth >= 1 && i <= h.markerStart < h.bodyStart <= n)
    && forall a, b :: 0 <= a < b < |hs| ==> hs[a].bodyStart <= hs[b].markerStart
  }

  lemma InFront(here: Option<Heading>, rest: seq<Heading>, i: nat, next: nat, n: nat)
    requires InOrder(rest, next, n) && i <= next
    requires here.Some? ==> here.value.depth >= 1 && here.value.markerStart == i < here.value.bodyStart <= n
                            && here.value.bodyStart <= next
    ensures InOrder(WithHeading([], here) + rest, i, n)
  {
    if here.Some? {
      var all := WithHeading([], here) + rest;
      assert all == [here.value] + rest;
      forall b | 0 <= b < |rest|
        ensures here.value.bodyStart <= rest[b].markerStart
      {
        assert rest[b] in rest;
      }
    }
  }

  /** Every offset of a heading is a character boundary. */
  lemma {:induction false} HeadingBoundaries(parse: Bytes -> Option<Parsed>, body: Bytes, i: nat)
    requires LineStart(body, i) || i >= |body|
    requires WellFormed(body)
    ensures forall h :: h in HeadingsFrom(parse, body, i) ==>
              && h.markerStart <= |body| && h.bodyStart <= |body|
              && CharBoundary(body, h.markerStart) && CharBoundary(body, h.bodyStart)
    decreases |body| - i
  {
    if i < |body| {
      HeadingBoundaries(parse, body, LineEnd(body, i) + 1);
    }
  }
}
