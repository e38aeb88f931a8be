/** Sections, dotted paths and path lookup: the document tree from body to `find`. */
module DocumentTree {
  import opened Wrappers
  import opened Strings
  import opened Utf8
  import opened Headings
  import opened HeadingLines
  import opened DocTree

  // ---------------------------------------------------------------------------------------
  // Sections cut the body
  // ---------------------------------------------------------------------------------------

  /** Each heading governs the bytes up to the next heading; the last one up to the end. */
  function Sections(hs: seq<Heading>, n: nat): (ss: seq<Section>)
    ensures |ss| == |hs|
  {
    seq(|hs|, i requires 0 <= i < |hs| =>
      Section(hs[i].depth, hs[i].title, hs[i].markerStart, hs[i].bodyStart,
              if i + 1 < |hs| then hs[i + 1].markerStart else n))
  }

  /** The window loop over the headings and a closing sentinel of depth 0. */
  method Prepare(headings: seq<Heading>, bodyLen: nat) returns (prepared: seq<Section>)
    requires Ordered(headings, bodyLen)
    ensures prepared == Sections(headings, bodyLen)
    ensures |prepared| == |headings| && forall i :: 0 <= i < |headings| ==> IsSection(prepared[i], headings[i])
  {
    var sections := headings + [Heading(0, [], bodyLen, bodyLen)];
    prepared := [];
    for i := 0 to |sections| - 1
      invariant prepared == Sections(headings, bodyLen)[..i]
    {
      var cur, next := sections[i], sections[i + 1];
      assert cur == headings[i];
      if cur.depth == 0 {
        continue;
      }
      prepared := prepared + [Section(cur.depth, cur.title, cur.markerStart, cur.bodyStart, next.markerStart)];
    }
  }

  /** The section of a heading, up to where it ends. */
  ghost predicate IsSection(s: Section, h: Heading) {
    s.depth == h.depth && s.title == h.title && s.start == h.markerStart && s.bodyStart == h.bodyStart
  }

  function Ranges(body: Bytes, ss: seq<Section>): Bytes
    requires forall s :: s in ss ==> s.start <= s.end <= |body|
  {
    if ss == [] then [] else body[ss[0].start..ss[0].end] + Ranges(body, ss[1..])
  }

  /** Sections in order, end to end, up to `n`; each body slice lies inside its section. */
  ghost predicate Tiles(ss: seq<Section>, n: nat) {
    && (forall i :: 0 <= i < |ss| ==> ss[i].start < ss[i].bodyStart <= ss[i].end <= n)
    && (forall i :: 0 <= i < |ss| - 1 ==> ss[i].end == ss[i + 1].start)
    && (ss != [] ==> ss[|ss| - 1].end == n)
  }

  lemma {:induction false} TilesJoin(body: Bytes, ss: seq<Section>)
    requires Tiles(ss, |body|)
    ensures ss != [] ==> Ranges(body, ss) == body[ss[0].start..]
  {
    if |ss| == 1 {
      assert ss[1..] == [];
    } else if |ss| > 1 {
      assert forall i :: 0 <= i < |ss| - 1 ==> ss[1..][i] == ss[i + 1];
      TilesJoin(body, ss[1..]);
    }
  }

  /** Headings in order, each with room for its own line, as the scan delivers them. */
  ghost predicate Ordered(hs: seq<Heading>, n: nat) {
    && (forall i :: 0 <= i < |hs| ==> hs[i].depth >= 1 && hs[i].markerStart < hs[i].bodyStart <= n)
    && (forall i, j :: 0 <= i < j < |hs| ==> hs[i].bodyStart <= hs[j].markerStart)
  }

  /** All offsets are character boundaries. */
  ghost predicate Bounded(hs: seq<Heading>, body: Bytes) {
    forall i :: 0 <= i < |hs| ==> CharBoundary(body, hs[i].markerStart) && CharBoundary(body, hs[i].bodyStart)
  }

  lemma ScanIsOrdered(parse: Bytes -> Option<Parsed>, body: Bytes)
    requires forall line :: parse(line).Some? ==> parse(line).value.depth >= 1
    ensures Ordered(HeadingsFrom(parse, body, 0), |body|)
  {
    hide HeadingsFrom;
    HeadingBounds(parse, body, 0);
    var hs := HeadingsFrom(parse, body, 0);
    assert forall i :: 0 <= i < |hs| ==> hs[i] in hs;
  }

  lemma ScanIsBounded(parse: Bytes -> Option<Parsed>, body: Bytes)
    requires WellFormed(body)
    ensures Bounded(HeadingsFrom(parse, body, 0), body)
  {
    hide HeadingsFrom;
    HeadingBoundaries(parse, body, 0);
    var hs := HeadingsFrom(parse, body, 0);
    assert forall i :: 0 <= i < |hs| ==> hs[i] in hs;
  }

  lemma DetectedBounds(body: Bytes)
    ensures Ordered(Detected(body), |body|)
    ensures WellFormed(body) ==> Bounded(Detected(body), body)
  {
    hide Ordered, Bounded, HeadingsFrom, AtxLine, MarkerLine, WellFormed;
    forall line
      ensures AtxLine(line).Some? ==> AtxLine(line).value.depth >= 1
      ensures MarkerLine(line).Some? ==> MarkerLine(line).value.depth >= 1
    {
      ParserBounds(line);
    }
    ScanIsOrdered(AtxLine, body);
    ScanIsOrdered(MarkerLine, body);
    if WellFormed(body) {
      ScanIsBounded(AtxLine, body);
      ScanIsBounded(MarkerLine, body);
    }
  }

  lemma OrderedTiles(hs: seq<Heading>, n: nat)
    requires Ordered(hs, n)
    ensures Tiles(Sections(hs, n), n)
  {
    hide Ordered, Sections;
    var ss := Sections(hs, n);
    forall i: nat | i < |ss|
      ensures ss[i].start < ss[i].bodyStart <= ss[i].end <= n
    {
      OneTile(hs, n, i);
    }
    forall i: nat | i < |ss| - 1
      ensures ss[i].end == ss[i + 1].start
    {
      OneTile(hs, n, i);
    }
    if ss != [] {
      OneTile(hs, n, |ss| - 1);
    }
  }

  lemma OneTile(hs: seq<Heading>, n: nat, i: nat)
    requires Ordered(hs, n) && i < |hs|
    ensures var ss := Sections(hs, n);
      && ss[i].start < ss[i].bodyStart <= ss[i].end <= n
      && if i + 1 < |ss| then ss[i].end == ss[i + 1].start else ss[i].end == n
  {
    var ss := Sections(hs, n);
    assert ss[i].bodyStart == hs[i].bodyStart && ss[i].start == hs[i].markerStart;
    if i + 1 < |hs| {
      assert hs[i].bodyStart <= hs[i + 1].markerStart;
    }
  }

  /** The preamble followed by the section ranges, in order, is exactly the body. */
  lemma SectionsPartitionBody(body: Bytes)
    ensures var ss := Sections(Detected(body), |body|);
      Tiles(ss, |body|) && (ss != [] ==> body[..ss[0].start] + Ranges(body, ss) == body)
  {
    hide Detected, Tiles, Sections, Ordered, Ranges, WellFormed;
    var ss := Sections(Detected(body), |body|);
    DetectedBounds(body);
    OrderedTiles(Detected(body), |body|);
    TilesInBounds(ss, |body|);
    TilesJoin(body, ss);
    if ss != [] {
      assert ss[0] in ss;
      assert body[..ss[0].start] + body[ss[0].start..] == body;
    }
  }

  lemma TilesInBounds(ss: seq<Section>, n: nat)
    requires Tiles(ss, n)
    ensures forall s :: s in ss ==> s.start <= s.end <= n
  {
  }

  /** A body slice never fails: both its ends are character boundaries of a UTF-8 body. */
  lemma SectionsAreSliceable(body: Bytes)
    requires WellFormed(body)
    ensures forall s :: s in Sections(Detected(body), |body|) ==>
              CharBoundary(body, s.start) && CharBoundary(body, s.bodyStart) && CharBoundary(body, s.end)
  {
    hide Detected, CharBoundary;
    DetectedBounds(body);
    EndIsBoundary(body);
  }

  lemma EndIsBoundary(body: Bytes)
    ensures CharBoundary(body, |body|)
  {
  }

  // ---------------------------------------------------------------------------------------
  // Dotted paths
  // ---------------------------------------------------------------------------------------

  /** Give the trees their paths: the stem, then their number (counting from `i + 1`). */
  function LabelAll(f: Forest, stem: string, i: nat): (g: Forest)
    ensures |g| == |f|
    decreases f, 0
  {
    if f == [] then [] else [Label(f[0], stem + Show(i + 1))] + LabelAll(f[1..], stem, i + 1)
  }

  function Label(n: Node, path: string): Node
    decreases n, 1
  {
    Node(path, n.sec, LabelAll(n.children, path + ".", 0))
  }

  lemma LabelStep(f: Forest, stem: string, i: nat, done: Forest)
    requires i < |f|
    ensures done + LabelAll(f[i..], stem, i)
         == done + [Label(f[i], stem + Show(i + 1))] + LabelAll(f[i + 1..], stem, i + 1)
  {
    assert f[i..][0] == f[i] && f[i..][1..] == f[i + 1..];
    Assoc(done, [Label(f[i], stem + Show(i + 1))], LabelAll(f[i + 1..], stem, i + 1));
  }

  method AssignPaths(node: Node, path: string) returns (labelled: Node)
    ensures labelled == Label(node, path)
    decreases node
  {
    var children: seq<Node> := [];
    for i := 0 to |node.children|
      invariant |children| == i
      invariant children + LabelAll(node.children[i..], path + ".", i) == LabelAll(node.children, path + ".", 0)
    {
      var c := AssignPaths(node.children[i], path + "." + Show(i + 1));
      LabelStep(node.children, path + ".", i, children);
      children := children + [c];
    }
    labelled := Node(path, node.sec, children);
  }

  /** The path written for an address: its indices, counted from 1, with dots between. */
  function Dotted(a: Address): string
    requires a != []
  {
    if |a| == 1 then Show(a[0] + 1) else Show(a[0] + 1) + "." + Dotted(a[1..])
  }

  lemma {:induction false} LabelIndex(f: Forest, stem: string, i: nat, k: nat)
    requires k < |f|
    ensures LabelAll(f, stem, i)[k] == Label(f[k], stem + Show(i + k + 1))
  {
    if k > 0 {
      LabelIndex(f[1..], stem, i + 1, k - 1);
    }
  }

  /** Every node carries the dotted form of its own address, and labelling changes nothing else. */
  lemma {:induction false} LabelledAt(f: Forest, stem: string, a: Address)
    requires InForest(f, a)
    ensures InForest(LabelAll(f, stem, 0), a)
    ensures NodeAt(LabelAll(f, stem, 0), a) == Label(NodeAt(f, a), stem + Dotted(a))
    decreases |a|
  {
    LabelIndex(f, stem, 0, a[0]);
    if |a| > 1 {
      var path := stem + Show(a[0] + 1);
      LabelledAt(f[a[0]].children, path + ".", a[1..]);
      assert path + "." + Dotted(a[1..]) == stem + Dotted(a);
    }
  }

  lemma LabelledTop(f: Forest, a: Address)
    requires InForest(f, a)
    ensures InForest(LabelAll(f, "", 0), a)
    ensures NodeAt(LabelAll(f, "", 0), a) == Label(NodeAt(f, a), Dotted(a))
  {
    LabelledAt(f, "", a);
    assert "" + Dotted(a) == Dotted(a);
  }

  lemma {:induction false} LabelKeepsNodes(f: Forest, stem: string, i: nat, a: Address)
    requires InForest(LabelAll(f, stem, i), a)
    ensures InForest(f, a)
    decreases |a|
  {
    LabelIndex(f, stem, i, a[0]);
    if |a| > 1 {
      LabelKeepsNodes(f[a[0]].children, stem + Show(i + a[0] + 1) + ".", 0, a[1..]);
    }
  }

  lemma {:induction false} LabelKeepsOrder(f: Forest, stem: string, i: nat)
    ensures Preorder(LabelAll(f, stem, i)) == Preorder(f)
    decreases f
  {
    if f != [] {
      LabelKeepsOrder(f[0].children, stem + Show(i + 1) + ".", 0);
      LabelKeepsOrder(f[1..], stem, i + 1);
      assert LabelAll(f, stem, i)[1..] == LabelAll(f[1..], stem, i + 1);
    }
  }

  lemma HasDot(a: Address)
    requires a != []
    ensures '.' !in Show(a[0] + 1)
    ensures '.' in Dotted(a) <==> |a| > 1
  {
    if |a| > 1 {
      assert Dotted(a)[|Show(a[0] + 1)|] == '.';
    }
  }

  /** Distinct addresses have distinct dotted paths. */
  lemma {:induction false} DottedInjective(a: Address, b: Address)
    requires a != [] && b != [] && Dotted(a) == Dotted(b)
    ensures a == b
    decreases |a|
  {
    HasDot(a);
    HasDot(b);
    ValueOfShow(a[0] + 1);
    ValueOfShow(b[0] + 1);
    if |a| > 1 && |b| > 1 {
      UniqueSplit('.', Show(a[0] + 1), Dotted(a[1..]), Show(b[0] + 1), Dotted(b[1..]));
      DottedInjective(a[1..], b[1..]);
      assert a == [a[0]] + a[1..] && b == [b[0]] + b[1..];
    }
  }

  /** The positions of an address as text, counted from 1. */
  function Positions(a: Address): seq<string> {
    seq(|a|, i requires 0 <= i < |a| => Show(a[i] + 1))
  }

  lemma SplitFront(n: string, rest: string)
    requires '.' !in n
    ensures Split(n, '.') == [n]
    ensures Split(n + "." + rest, '.') == [n] + Split(rest, '.')
  {
    var s := n + "." + rest;
    FindNone(n, '.');
    FindAt(n, '.', rest);
    assert s == n + ['.'] + rest && s[..|n|] == n && s[|n| + 1..] == rest;
  }

  /** Split at its dots, a path is the list of its positions. */
  lemma {:induction false} DottedSplits(a: Address)
    requires a != []
    ensures Split(Dotted(a), '.') == Positions(a)
  {
    hide Split, Show;
    HasDot(a);
    if |a| == 1 {
      SplitFront(Show(a[0] + 1), "");
    } else {
      DottedSplits(a[1..]);
      SplitFront(Show(a[0] + 1), Dotted(a[1..]));
      assert Positions(a) == [Show(a[0] + 1)] + Positions(a[1..]);
    }
  }

  // ---------------------------------------------------------------------------------------
  // Lookup
  // ---------------------------------------------------------------------------------------

  function Find(n: Node, path: string): Option<Node>
    decreases n, 1
  {
    if n.path == path then Some(n) else FindIn(n.children, path)
  }

  function FindIn(f: Forest, path: string): Option<Node>
    decreases f, 0
  {
    if f == [] then None else
      var r := Find(f[0], path);
      if r.Some? then r else FindIn(f[1..], path)
  }

  /** Whatever lookup returns sits somewhere in the forest and carries the path. */
  lemma {:induction false} FindSound(f: Forest, path: string) returns (a: Address)
    requires FindIn(f, path).Some?
    ensures InForest(f, a) && NodeAt(f, a) == FindIn(f, path).value && NodeAt(f, a).path == path
    decreases f
  {
    if f[0].path == path {
      a := [0];
    } else if FindIn(f[0].children, path).Some? {
      var b := FindSound(f[0].children, path);
      a := [0] + b;
      assert a[1..] == b;
    } else {
      var b := FindSound(f[1..], path);
      a := [b[0] + 1] + b[1..];
      assert f[1..][b[0]] == f[a[0]] && a[1..] == b[1..];
    }
  }

  /** Lookup misses nothing. */
  lemma {:induction false} FindComplete(f: Forest, path: string, a: Address)
    requires InForest(f, a) && NodeAt(f, a).path == path
    ensures FindIn(f, path).Some?
    decreases f
  {
    if a[0] == 0 {
      if |a| > 1 {
        FindComplete(f[0].children, path, a[1..]);
      }
    } else {
      var b := [a[0] - 1] + a[1..];
      assert f[1..][b[0]] == f[a[0]] && b[1..] == a[1..];
      FindComplete(f[1..], path, b);
    }
  }

  /** The main result about paths: in a labelled tree, looking up a node's dotted path returns that
      very node, and looking up anything else but the root's empty path returns nothing. */
  lemma FindResolves(f: Forest, root: Section, a: Address)
    requires a != []
    ensures Find(Node("", root, LabelAll(f, "", 0)), Dotted(a))
         == if InForest(f, a) then Some(Label(NodeAt(f, a), Dotted(a))) else None
  {
    var g := LabelAll(f, "", 0);
    var path := Dotted(a);
    assert |path| > 0;
    if InForest(f, a) {
      LabelledTop(f, a);
      FindComplete(g, path, a);
    }
    if FindIn(g, path).Some? {
      var b := FindSound(g, path);
      LabelKeepsNodes(f, "", 0, b);
      LabelledTop(f, b);
      DottedInjective(a, b);
    }
  }

  lemma FindMisses(f: Forest, root: Section, path: string)
    requires path != "" && forall a :: InForest(f, a) ==> Dotted(a) != path
    ensures Find(Node("", root, LabelAll(f, "", 0)), path) == None
  {
    var g := LabelAll(f, "", 0);
    if FindIn(g, path).Some? {
      var b := FindSound(g, path);
      LabelKeepsNodes(f, "", 0, b);
      LabelledTop(f, b);
      assert false;
    }
  }

  /** A node is never nested more deeply than its heading says. */
  lemma {:induction false} NestingLevel(f: Forest, above: nat, a: Address)
    requires Nested(f, above) && InForest(f, a)
    ensures NodeAt(f, a).sec.depth >= above + |a|
    decreases f, |a|
  {
    if a[0] > 0 {
      var b := [a[0] - 1] + a[1..];
      assert f[1..][b[0]] == f[a[0]] && b[1..] == a[1..];
      NestingLevel(f[1..], above, b);
    } else if |a| > 1 {
      NestingLevel(f[0].children, f[0].sec.depth, a[1..]);
    }
  }

  // ---------------------------------------------------------------------------------------
  // The whole construction
  // ---------------------------------------------------------------------------------------

  datatype Tree = Tree(root: Node, maxDepth: nat)

  method LabelRoots(roots: Forest) returns (labelled: Forest)
    ensures labelled == LabelAll(roots, "", 0)
  {
    labelled := [];
    for i := 0 to |roots|
      invariant |labelled| == i
      invariant labelled + LabelAll(roots[i..], "", i) == LabelAll(roots, "", 0)
    {
      var r := AssignPaths(roots[i], Show(i + 1));
      assert "" + Show(i + 1) == Show(i + 1);
      LabelStep(roots, "", i, labelled);
      labelled := labelled + [r];
    }
  }

  method BuildDocumentTree(title: Bytes, body: Bytes) returns (t: Tree)
    ensures t.root.path == "" && t.root.sec == Section(0, title, 0, 0, |body|)
    ensures t.root.children == LabelAll(Build(Sections(Detected(body), |body|)), "", 0)
    ensures t.maxDepth == MaxDepth(Sections(Detected(body), |body|))
  {
    var headings := DetectHeadings(body);
    var whole := Section(0, title, 0, 0, |body|);
    if headings == [] {
      return Tree(Node("", whole, []), 0);
    }
    DetectedBounds(body);
    var prepared := Prepare(headings, |body|);
    var roots, maxDepth := Assemble(prepared);
    var labelled := LabelRoots(roots);
    return Tree(Node("", whole, labelled), maxDepth);
  }

  /** Source order, paths by position and all distinct, nesting within depth. */
  ghost predicate WellLabelled(g: Forest, ss: seq<Section>) {
    && Preorder(g) == ss
    && (forall a :: InForest(g, a) ==> NodeAt(g, a).path == Dotted(a) && |a| <= NodeAt(g, a).sec.depth)
    && forall a, b :: InForest(g, a) && InForest(g, b) && NodeAt(g, a).path == NodeAt(g, b).path ==> a == b
  }

  /** What a reader of the finished tree may rely on, for every body. */
  lemma TreeOfBody(body: Bytes)
    ensures WellLabelled(LabelAll(Build(Sections(Detected(body), |body|)), "", 0), Sections(Detected(body), |body|))
  {
    hide Detected;
    DetectedBounds(body);
    LabelledIsWell(Sections(Detected(body), |body|));
  }

  lemma LabelledIsWell(ss: seq<Section>)
    requires forall s :: s in ss ==> s.depth >= 1
    ensures WellLabelled(LabelAll(Build(ss), "", 0), ss)
  {
    var f := Build(ss);
    var g := LabelAll(f, "", 0);
    BuildKeepsOrder(ss);
    LabelKeepsOrder(f, "", 0);
    forall a | InForest(g, a)
      ensures NodeAt(g, a).path == Dotted(a) && |a| <= NodeAt(g, a).sec.depth
    {
      LabelKeepsNodes(f, "", 0, a);
      LabelledTop(f, a);
      NestingLevel(f, 0, a);
    }
    forall a, b | InForest(g, a) && InForest(g, b) && NodeAt(g, a).path == NodeAt(g, b).path
      ensures a == b
    {
      DottedInjective(a, b);
    }
  }
}
