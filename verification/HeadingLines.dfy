/** Which lines are headings, said by how a line is written, and what a whole body's headings are. */
module HeadingLines {
  import opened Wrappers
  import opened Strings
  import opened Utf8
  import opened Numbers
  import opened Headings

  // ---------------------------------------------------------------------------------------
  // Markdown lines
  // ---------------------------------------------------------------------------------------

  /** `s` is `t` followed by `k` hashes, and `t` does not end in one. */
  predicate EndsInHashes(s: Bytes, t: Bytes, k: nat) {
    s == t + Repeat(HASH, k) && (t != [] ==> t[|t| - 1] != HASH)
  }

  /** The title is what is left of `rest` without white space and closing hashes. */
  ghost predicate TitleIs(rest: Bytes, title: Bytes) {
    exists t, k :: EndsInHashes(Trim(rest), t, k) && title == Trim(t)
  }

  /** White space, one to six hashes, and a blank before the title. */
  ghost predicate AtxParts(line: Bytes, p: Parsed, indent: Bytes, rest: Bytes) {
    && line == indent + (Repeat(HASH, p.depth) + rest)
    && AllSpace(indent) && 1 <= p.depth <= 6 && BlankFirst(rest)
    && p.title != [] && TitleIs(rest, p.title)
  }

  ghost predicate IsAtx(line: Bytes, p: Parsed) {
    exists indent, rest :: AtxParts(line, p, indent, rest)
  }

  lemma {:induction false} TrimStartDrops(indent: Bytes, t: Bytes)
    requires AllSpace(indent) && SpaceLen(t) == 0
    ensures TrimStart(indent + t) == t
    decreases |indent|
  {
    hide SpaceLen;
    if indent == [] {
      assert indent + t == t;
    } else {
      var k := SpaceLen(indent);
      assert (indent + t)[..|indent|] == indent && (indent + t)[k..] == indent[k..] + t;
      SpaceLenOfPrefix(indent + t, |indent|);
      TrimStartDrops(indent[k..], t);
    }
  }

  lemma {:induction false} StripEndIs(s: Bytes, t: Bytes, k: nat)
    requires EndsInHashes(s, t, k)
    ensures StripEnd(HASH, s) == t
  {
    if k == 0 {
      assert s == t;
    } else {
      assert s[|s| - 1] == Repeat(HASH, k)[k - 1] == HASH;
      assert Repeat(HASH, k)[..k - 1] == Repeat(HASH, k - 1);
      assert s[..|s| - 1] == t + Repeat(HASH, k - 1);
      StripEndIs(s[..|s| - 1], t, k - 1);
    }
  }

  lemma {:induction false} StripEndStrips(s: Bytes) returns (k: nat)
    ensures EndsInHashes(s, StripEnd(HASH, s), k)
  {
    k := 0;
    if s != [] && s[|s| - 1] == HASH {
      var n := StripEndStrips(s[..|s| - 1]);
      k := n + 1;
      assert Repeat(HASH, k) == Repeat(HASH, n) + [HASH];
      assert s == s[..|s| - 1] + [HASH];
    } else {
      assert s + Repeat(HASH, 0) == s;
    }
  }

  lemma TitleIsStripped(rest: Bytes, title: Bytes)
    ensures TitleIs(rest, title) <==> title == Trim(StripEnd(HASH, Trim(rest)))
  {
    hide Trim, StripEnd;
    var k := StripEndStrips(Trim(rest));
    if TitleIs(rest, title) {
      var t, n :| EndsInHashes(Trim(rest), t, n) && title == Trim(t);
      StripEndIs(Trim(rest), t, n);
    }
  }

  lemma HashesRead(k: nat, rest: Bytes)
    requires rest == [] || rest[0] != HASH
    ensures RunOf(HASH, Repeat(HASH, k) + rest) == k
    ensures (Repeat(HASH, k) + rest)[k..] == rest
    ensures k > 0 ==> SpaceLen(Repeat(HASH, k) + rest) == 0
  {
    var s := Repeat(HASH, k) + rest;
    assert k > 0 ==> s[0] == Repeat(HASH, k)[0] == HASH;
    RunIs(HASH, s, k);
  }

  /** A line reads as a Markdown heading exactly if it is written as one. */
  lemma AtxLineIsExact(line: Bytes, p: Parsed)
    ensures AtxLine(line) == Some(p) <==> IsAtx(line, p)
  {
    hide Trim, TrimStart, StripEnd, SpaceLen, AllSpace, TitleIs, RunOf;
    if IsAtx(line, p) {
      var indent, rest :| AtxParts(line, p, indent, rest);
      HashesRead(p.depth, rest);
      TrimStartDrops(indent, Repeat(HASH, p.depth) + rest);
      TitleIsStripped(rest, p.title);
    }
    if AtxLine(line) == Some(p) {
      var a := TrimStartCuts(line);
      var t := line[a..];
      TitleIsStripped(t[p.depth..], p.title);
      assert t[..p.depth] == Repeat(HASH, p.depth);
      assert line == line[..a] + (Repeat(HASH, p.depth) + t[p.depth..]);
      assert AtxParts(line, p, line[..a], t[p.depth..]);
    }
  }

  /** No hash, seven hashes or more, or hashes without a blank behind them are no heading. */
  lemma HashesAlone(indent: Bytes, k: nat, rest: Bytes)
    requires AllSpace(indent) && (rest == [] || rest[0] != HASH)
    requires k > 6 || !BlankFirst(rest)
    requires k == 0 ==> SpaceLen(rest) == 0
    ensures AtxLine(indent + (Repeat(HASH, k) + rest)) == None
  {
    hide Trim, TrimStart, StripEnd, AllSpace, RunOf;
    HashesRead(k, rest);
    assert k == 0 ==> Repeat(HASH, k) + rest == rest;
    TrimStartDrops(indent, Repeat(HASH, k) + rest);
  }

  // ---------------------------------------------------------------------------------------
  // Marker lines
  // ---------------------------------------------------------------------------------------

  /** White space, the keyword, and a title. */
  ghost predicate SectionParts(line: Bytes, p: Parsed, indent: Bytes, rest: Bytes) {
    && line == indent + (KEYWORD + rest) && AllSpace(indent)
    && p.depth == 1 && p.title == Trim(rest) && p.title != []
  }

  /** White space, one "digits, dot" group for each level, and a blank before the title. */
  ghost predicate NumberedParts(line: Bytes, p: Parsed, indent: Bytes, groups: seq<Bytes>, rest: Bytes) {
    && line == indent + (Numbering(groups) + rest) && AllSpace(indent)
    && groups != [] && (forall g :: g in groups ==> DigitGroup(g)) && BlankFirst(rest)
    && p.depth == |groups| && p.title == Trim(rest) && p.title != []
  }

  ghost predicate IsMarker(line: Bytes, p: Parsed) {
    || (exists indent, rest :: SectionParts(line, p, indent, rest))
    || (exists indent, groups, rest :: NumberedParts(line, p, indent, groups, rest))
  }

  lemma KeywordReads(rest: Bytes)
    ensures var t := KEYWORD + rest;
      SpaceLen(t) == 0 && KEYWORD <= t && t[|KEYWORD|..] == rest
  {
    var t := KEYWORD + rest;
    assert t[0] == KEYWORD[0] == 83;
  }

  /** White space, the keyword and any text: a heading of depth 1 with the trimmed text, or none. */
  lemma SectionReads(indent: Bytes, rest: Bytes)
    requires AllSpace(indent)
    ensures MarkerLine(indent + (KEYWORD + rest)) == if Trim(rest) == [] then None else Some(Parsed(1, Trim(rest)))
  {
    hide Trim, TrimStart, NumberedLine, AllSpace, SpaceLen;
    KeywordReads(rest);
    TrimStartDrops(indent, KEYWORD + rest);
  }

  /** A title the parser leaves alone comes back, whatever white space surrounds it; nothing but
      white space is no heading. */
  lemma SectionRoundTrip(indent: Bytes, title: Bytes, blank: Bytes)
    requires AllSpace(indent)
    ensures Plain(title) ==> MarkerLine(indent + (KEYWORD + ([SPACE] + title))) == Some(Parsed(1, title))
    ensures AllSpace(blank) ==> MarkerLine(indent + (KEYWORD + blank)) == None
  {
    hide MarkerLine, Trim, AllSpace, Plain;
    SectionReads(indent, [SPACE] + title);
    SectionReads(indent, blank);
    if Plain(title) {
      TrimPadded(title);
      PlainIsNotEmpty(title);
    }
    if AllSpace(blank) {
      TrimBlank(blank);
    }
  }

  lemma PlainIsNotEmpty(title: Bytes)
    requires Plain(title)
    ensures title != []
  {
  }

  lemma TrimBlank(blank: Bytes)
    requires AllSpace(blank)
    ensures Trim(blank) == []
  {
    TrimStartDrops(blank, []);
    assert blank + [] == blank;
    NothingToTrim();
  }

  lemma NothingToTrim()
    ensures TrimEnd([]) == []
  {
  }

  /** The groups that the parser walked over. */
  lemma {:induction false} GroupsWalked(s: Bytes, i: nat, depth: nat) returns (groups: seq<Bytes>)
    requires i <= |s| && Groups(s, i, depth).Some?
    ensures var (d, end) := Groups(s, i, depth).value;
      d == depth + |groups| && s[i..end] == Numbering(groups) && forall g :: g in groups ==> DigitGroup(g)
    decreases |s| - i
  {
    var j := DigitsEnd(s, i);
    if j == i {
      groups := [];
    } else {
      var more := GroupsWalked(s, j + 1, depth + 1);
      groups := [s[i..j]] + more;
      var end := Groups(s, i, depth).value.1;
      assert s[i..end] == s[i..j] + [DOT] + s[j + 1..end];
      assert groups[1..] == more;
    }
  }

  lemma NumberedReads(groups: seq<Bytes>, rest: Bytes)
    requires groups != [] && (forall g :: g in groups ==> DigitGroup(g)) && BlankFirst(rest)
    ensures var t := Numbering(groups) + rest;
      && SpaceLen(t) == 0 && !(KEYWORD <= t)
      && NumberedLine(t) == if Trim(rest) == [] then None else Some(Parsed(|groups|, Trim(rest)))
  {
    hide Groups, Stand, Trim, DigitGroup, Numbering, SpaceLen, NumberedLine;
    var t, end := Numbering(groups) + rest, |Numbering(groups)|;
    DropFront(Numbering(groups), rest);
    assert t[end] == rest[0];
    LineStands(groups, rest, t);
    GroupsRead(t, 0, groups, end, 0);
    DigitFirst(groups, rest);
    TitleRead(t, |groups|, end);
  }

  lemma TitleRead(t: Bytes, depth: nat, end: nat)
    requires Groups(t, 0, 0) == Some((depth, end)) && end <= |t| && depth > 0 && BlankFirst(t[end..])
    ensures NumberedLine(t) == if Trim(t[end..]) == [] then None else Some(Parsed(depth, Trim(t[end..])))
  {
    hide Groups, Trim;
  }

  lemma DigitFirst(groups: seq<Bytes>, rest: Bytes)
    requires groups != [] && forall g :: g in groups ==> DigitGroup(g)
    ensures var t := Numbering(groups) + rest; t != [] && IsDigit(t[0]) && SpaceLen(t) == 0 && !(KEYWORD <= t)
  {
    assert DigitGroup(groups[0]);
    var t := Numbering(groups) + rest;
    assert t[0] == groups[0][0];
    assert KEYWORD[0] == 83;
  }

  /** A line reads as a plain-text heading exactly if it is written as one of the two markers. */
  lemma MarkerLineIsExact(line: Bytes, p: Parsed)
    ensures MarkerLine(line) == Some(p) <==> IsMarker(line, p)
  {
    hide Trim, TrimStart, SpaceLen, AllSpace, NumberedLine, DigitGroup, Numbering;
    if MarkerLine(line) == Some(p) {
      var a := TrimStartCuts(line);
      var t := line[a..];
      if KEYWORD <= t {
        assert line == line[..a] + (KEYWORD + t[|KEYWORD|..]);
        assert SectionParts(line, p, line[..a], t[|KEYWORD|..]);
      } else {
        var groups, rest := NumberedWritten(t, p);
        assert line == line[..a] + (Numbering(groups) + rest);
        assert NumberedParts(line, p, line[..a], groups, rest);
      }
    }
    if exists indent, rest :: SectionParts(line, p, indent, rest) {
      var indent, rest :| SectionParts(line, p, indent, rest);
      SectionReads(indent, rest);
    }
    if exists indent, groups, rest :: NumberedParts(line, p, indent, groups, rest) {
      var indent, groups, rest :| NumberedParts(line, p, indent, groups, rest);
      NumberedReads(groups, rest);
      TrimStartDrops(indent, Numbering(groups) + rest);
    }
  }

  lemma NumberedWritten(t: Bytes, p: Parsed) returns (groups: seq<Bytes>, rest: Bytes)
    requires NumberedLine(t) == Some(p)
    ensures t == Numbering(groups) + rest && groups != [] && (forall g :: g in groups ==> DigitGroup(g))
    ensures BlankFirst(rest) && p.depth == |groups| && p.title == Trim(rest) && p.title != []
  {
    hide Trim, Groups, Numbering;
    groups := GroupsWalked(t, 0, 0);
    rest := t[Groups(t, 0, 0).value.1..];
  }

  /** Digits without a dot behind them make a line no heading, whatever comes before or after. */
  lemma DigitsNeedDot(indent: Bytes, groups: seq<Bytes>, digits: Bytes, rest: Bytes)
    requires AllSpace(indent) && (forall g :: g in groups ==> DigitGroup(g)) && DigitGroup(digits)
    requires rest == [] || (rest[0] != DOT && !IsDigit(rest[0]))
    ensures MarkerLine(indent + (Numbering(groups) + (digits + rest))) == None
  {
    hide Trim, TrimStart, AllSpace, Groups, Stand, Numbering;
    var t, end := Numbering(groups) + (digits + rest), |Numbering(groups)|;
    LineStands(groups, digits + rest, t);
    GroupsSkip(t, 0, groups, end, 0);
    UndottedFails(t, end, |groups|, digits, rest);
    DigitFirstOfAll(groups, digits, rest);
    TrimStartDrops(indent, t);
  }

  lemma DigitFirstOfAll(groups: seq<Bytes>, digits: Bytes, rest: Bytes)
    requires (forall g :: g in groups ==> DigitGroup(g)) && DigitGroup(digits)
    ensures var t := Numbering(groups) + (digits + rest); SpaceLen(t) == 0 && !(KEYWORD <= t)
  {
    var t := Numbering(groups) + (digits + rest);
    if groups == [] {
      assert t == digits + rest && t[0] == digits[0];
      assert KEYWORD[0] == 83;
    } else {
      DigitFirst(groups, digits + rest);
    }
  }

  lemma UndottedFails(t: Bytes, end: nat, depth: nat, digits: Bytes, rest: Bytes)
    requires end <= |t| && t[end..] == digits + rest && DigitGroup(digits)
    requires rest == [] || (rest[0] != DOT && !IsDigit(rest[0]))
    ensures Groups(t, end, depth) == None
  {
    var j := end + |digits|;
    assert forall k :: end <= k < |t| ==> t[k] == t[end..][k - end];
    DigitsEndIs(t, end, j);
  }

  // ---------------------------------------------------------------------------------------
  // The whole body
  // ---------------------------------------------------------------------------------------

  /** A line of the body, without its line break. */
  ghost predicate IsLine(body: Bytes, i: nat, j: nat) {
    && LineStart(body, i) && i <= j <= |body| && (j < |body| ==> body[j] == NEWLINE)
    && forall k :: i <= k < j ==> body[k] != NEWLINE
  }

  /** `h` is the line from its marker to `j`, which is written as a Markdown heading; its section's text
      starts behind the line break. */
  ghost predicate AtxAt(body: Bytes, h: Heading, j: nat) {
    && IsLine(body, h.markerStart, j) && h.bodyStart == Min(j + 1, |body|)
    && IsAtx(body[h.markerStart..j], Parsed(h.depth, h.title))
  }

  ghost predicate MarkerAt(body: Bytes, h: Heading, j: nat) {
    && IsLine(body, h.markerStart, j) && h.bodyStart == Min(j + 1, |body|)
    && IsMarker(body[h.markerStart..j], Parsed(h.depth, h.title))
  }

  ghost predicate HasAtx(body: Bytes) {
    exists h, j :: AtxAt(body, h, j)
  }

  /** One after the other. */
  ghost predicate Ascending(hs: seq<Heading>) {
    forall a, b :: 0 <= a < b < |hs| ==> hs[a].markerStart < hs[a].bodyStart <= hs[b].markerStart
  }

  lemma LineEndIs(body: Bytes, i: nat, j: nat)
    requires IsLine(body, i, j)
    ensures LineEnd(body, i) == j
  {
    hide LineEnd;
  }

  lemma AtxHeadingAt(body: Bytes, h: Heading)
    ensures IsHeading(AtxLine, body, 0, h) <==> exists j :: AtxAt(body, h, j)
  {
    hide AtxLine, LineEnd, IsAtx;
    if LineStart(body, h.markerStart) {
      var j := LineEnd(body, h.markerStart);
      AtxLineIsExact(body[h.markerStart..j], Parsed(h.depth, h.title));
      if IsHeading(AtxLine, body, 0, h) {
        assert AtxAt(body, h, j);
      }
    }
    if exists j :: AtxAt(body, h, j) {
      var j :| AtxAt(body, h, j);
      LineEndIs(body, h.markerStart, j);
    }
  }

  lemma MarkerHeadingAt(body: Bytes, h: Heading)
    ensures IsHeading(MarkerLine, body, 0, h) <==> exists j :: MarkerAt(body, h, j)
  {
    hide MarkerLine, LineEnd, IsMarker;
    if LineStart(body, h.markerStart) {
      var j := LineEnd(body, h.markerStart);
      MarkerLineIsExact(body[h.markerStart..j], Parsed(h.depth, h.title));
      if IsHeading(MarkerLine, body, 0, h) {
        assert MarkerAt(body, h, j);
      }
    }
    if exists j :: MarkerAt(body, h, j) {
      var j :| MarkerAt(body, h, j);
      LineEndIs(body, h.markerStart, j);
    }
  }

  /** The headings of a body are its lines written as Markdown headings; if there is none, its lines
      written as markers. They come in order and none comes twice. */
  lemma DetectionIsExact(body: Bytes)
    ensures HasAtx(body) ==> forall h :: h in Detected(body) <==> exists j :: AtxAt(body, h, j)
    ensures !HasAtx(body) ==> forall h :: h in Detected(body) <==> exists j :: MarkerAt(body, h, j)
    ensures Ascending(Detected(body))
  {
    hide HeadingsFrom, IsHeading, AtxLine, MarkerLine, AtxAt, MarkerAt, LineStart;
    var md := HeadingsFrom(AtxLine, body, 0);
    StartsLine(body);
    ScanIsExact(AtxLine, body, 0);
    ScanIsExact(MarkerLine, body, 0);
    forall h
      ensures IsHeading(AtxLine, body, 0, h) <==> exists j :: AtxAt(body, h, j)
      ensures IsHeading(MarkerLine, body, 0, h) <==> exists j :: MarkerAt(body, h, j)
    {
      AtxHeadingAt(body, h);
      MarkerHeadingAt(body, h);
    }
    assert md != [] ==> md[0] in md;
    if HasAtx(body) {
      var h, j :| AtxAt(body, h, j);
      assert IsHeading(AtxLine, body, 0, h) && h in md;
    }
    DetectedInOrder(body);
  }

  /** Markdown headings first; the plain-text markers only when there are none. */
  method DetectHeadings(body: Bytes) returns (out: seq<Heading>)
    ensures out == Detected(body) && Ascending(out)
    ensures HasAtx(body) ==> forall h :: h in out <==> exists j :: AtxAt(body, h, j)
    ensures !HasAtx(body) ==> forall h :: h in out <==> exists j :: MarkerAt(body, h, j)
  {
    hide HeadingsFrom, AtxLine, MarkerLine, AtxAt, MarkerAt, HasAtx, Ascending;
    out := ScanLines(AtxLine, body);
    if out == [] {
      out := ScanLines(MarkerLine, body);
    }
    DetectionIsExact(body);
  }

  lemma StartsLine(body: Bytes)
    ensures LineStart(body, 0) || 0 >= |body|
  {
  }

  lemma DetectedInOrder(body: Bytes)
    ensures Ascending(Detected(body))
  {
    hide AtxLine, MarkerLine;
    forall line
      ensures AtxLine(line).Some? ==> AtxLine(line).value.depth >= 1
      ensures MarkerLine(line).Some? ==> MarkerLine(line).value.depth >= 1
    {
      ParserBounds(line);
    }
    ScanInOrder(AtxLine, body);
    ScanInOrder(MarkerLine, body);
  }

  lemma ScanInOrder(parse: Bytes -> Option<Parsed>, body: Bytes)
    requires forall line :: parse(line).Some? ==> parse(line).value.depth >= 1
    ensures Ascending(HeadingsFrom(parse, body, 0))
  {
    hide LineStart;
    StartsLine(body);
    HeadingBounds(parse, body, 0);
    var hs := HeadingsFrom(parse, body, 0);
    forall a, b | 0 <= a < b < |hs|
      ensures hs[a].markerStart < hs[a].bodyStart <= hs[b].markerStart
    {
      assert hs[a] in hs;
    }
  }
}
