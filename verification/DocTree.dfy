/** The navigation tree of a document: sections, their assembly through a stack of pointers,
    dotted paths and path lookup. */
module DocTree {
  import opened Strings
  import opened Utf8

  /** One heading and the byte range it governs, `[start, end)`. */
  datatype Section = Section(depth: nat, title: Bytes, start: nat, bodyStart: nat, end: nat)

  /** A tree node; `path` is empty until paths are assigned. */
  datatype Node = Node(path: string, sec: Section, children: seq<Node>)

  type Forest = seq<Node>

  /** Where a node lives: the index to follow in each vector, outermost first. */
  type Address = seq<nat>

  function Last(f: Forest): Node
    requires f != []
  {
    f[|f| - 1]
  }

  // ---------------------------------------------------------------------------------------
  // What the assembly computes
  // ---------------------------------------------------------------------------------------

  /** Hang a section under the deepest node of the right spine that has smaller depth. */
  function Insert(f: Forest, s: Section): Forest
    decreases f
  {
    if f == [] || Last(f).sec.depth >= s.depth then
      f + [Node("", s, [])]
    else
      f[|f| - 1 := Last(f).(children := Insert(Last(f).children, s))]
  }

  function Build(ss: seq<Section>): Forest {
    if ss == [] then [] else Insert(Build(ss[..|ss| - 1]), ss[|ss| - 1])
  }

  function Preorder(f: Forest): seq<Section> {
    if f == [] then [] else [f[0].sec] + Preorder(f[0].children) + Preorder(f[1..])
  }

  /** Children are deeper than their parent, and a node is never deeper than its left sibling. */
  ghost predicate Nested(f: Forest, above: int) {
    f != [] ==>
      && above < f[0].sec.depth
      && (|f| > 1 ==> f[1].sec.depth <= f[0].sec.depth)
      && Nested(f[0].children, f[0].sec.depth)
      && Nested(f[1..], above)
  }

  lemma {:induction false} PreorderConcat(f: Forest, g: Forest)
    ensures Preorder(f + g) == Preorder(f) + Preorder(g)
  {
    if f == [] {
      assert f + g == g;
    } else {
      PreorderConcat(f[1..], g);
      var h, a := f + g, [f[0].sec] + Preorder(f[0].children);
      assert h[0] == f[0] && h[1..] == f[1..] + g;
      Assoc(a, Preorder(f[1..]), Preorder(g));
    }
  }

  lemma PreorderOne(n: Node)
    ensures Preorder([n]) == [n.sec] + Preorder(n.children)
  {
    assert [n][1..] == [];
  }

  lemma PreorderSnoc(front: Forest, n: Node)
    ensures Preorder(front + [n]) == Preorder(front) + [n.sec] + Preorder(n.children)
  {
    PreorderConcat(front, [n]);
    PreorderOne(n);
  }

  lemma {:induction false} PreorderInsert(f: Forest, s: Section)
    ensures Preorder(Insert(f, s)) == Preorder(f) + [s]
    decreases f
  {
    var leaf := Node("", s, []);
    if f == [] || Last(f).sec.depth >= s.depth {
      PreorderConcat(f, [leaf]);
      PreorderOne(leaf);
    } else {
      PreorderInsert(Last(f).children, s);
      var front, n := f[..|f| - 1], Last(f);
      var n' := n.(children := Insert(n.children, s));
      assert f == front + [n] && Insert(f, s) == front + [n'];
      PreorderSnoc(front, n);
      PreorderSnoc(front, n');
    }
  }

  lemma {:induction false} NestedConcat(f: Forest, n: Node, above: int)
    requires Nested(f, above) && above < n.sec.depth && Nested(n.children, n.sec.depth)
    requires f != [] ==> n.sec.depth <= Last(f).sec.depth
    ensures Nested(f + [n], above)
  {
    if f == [] {
      assert (f + [n])[1..] == [];
    } else {
      assert (f + [n])[1..] == f[1..] + [n];
      if |f| > 1 {
        NestedConcat(f[1..], n, above);
      } else {
        assert f[1..] + [n] == [n] && [n][1..] == [];
      }
    }
  }

  lemma {:induction false} NestedSplit(f: Forest, above: int)
    requires Nested(f, above) && f != []
    ensures Nested(f[..|f| - 1], above) && Nested(Last(f).children, Last(f).sec.depth)
    ensures above < Last(f).sec.depth
    ensures |f| > 1 ==> Last(f).sec.depth <= Last(f[..|f| - 1]).sec.depth
  {
    if |f| > 1 {
      NestedSplit(f[1..], above);
      assert f[..|f| - 1][1..] == f[1..][..|f[1..]| - 1];
    }
  }

  lemma {:induction false} NestedInsert(f: Forest, s: Section, above: int)
    requires Nested(f, above) && above < s.depth
    ensures Nested(Insert(f, s), above)
    decreases f
  {
    if f == [] || Last(f).sec.depth >= s.depth {
      NestedConcat(f, Node("", s, []), above);
    } else {
      NestedSplit(f, above);
      NestedInsert(Last(f).children, s, Last(f).sec.depth);
      var n := Last(f).(children := Insert(Last(f).children, s));
      NestedConcat(f[..|f| - 1], n, above);
      assert Insert(f, s) == f[..|f| - 1] + [n];
    }
  }

  /** The forest lists the sections in source order, and is nested. */
  lemma {:induction false} BuildKeepsOrder(ss: seq<Section>)
    requires forall s :: s in ss ==> s.depth >= 1
    ensures Preorder(Build(ss)) == ss && Nested(Build(ss), 0)
  {
    if ss != [] {
      var front := ss[..|ss| - 1];
      BuildKeepsOrder(front);
      PreorderInsert(Build(front), ss[|ss| - 1]);
      NestedInsert(Build(front), ss[|ss| - 1], 0);
      assert front + [ss[|ss| - 1]] == ss;
    }
  }

  // ---------------------------------------------------------------------------------------
  // The parent of a section is the nearest earlier section of smaller depth
  // ---------------------------------------------------------------------------------------

  /** Position of the last section before `i`, at or before `k`, that is less deep; -1 if none. */
  function NearestShallower(ss: seq<Section>, i: nat, k: int): (p: int)
    requires i < |ss| && -1 <= k < i
    ensures -1 <= p <= k
    ensures p >= 0 ==> ss[p].depth < ss[i].depth
    ensures forall j :: p < j <= k ==> ss[j].depth >= ss[i].depth
    decreases k + 1
  {
    if k < 0 || ss[k].depth < ss[i].depth then k else NearestShallower(ss, i, k - 1)
  }

  /** For each node in pre-order, the pre-order position of its parent, when the forest starts at
      position `base` and hangs under position `parent`. */
  function Parents(f: Forest, parent: int, base: nat): seq<int> {
    if f == [] then [] else
      [parent] + Parents(f[0].children, base, base + 1)
      + Parents(f[1..], parent, base + 1 + |Preorder(f[0].children)|)
  }

  lemma {:induction false} ParentsLength(f: Forest, parent: int, base: nat)
    ensures |Parents(f, parent, base)| == |Preorder(f)|
  {
    if f != [] {
      ParentsLength(f[0].children, base, base + 1);
      ParentsLength(f[1..], parent, base + 1 + |Preorder(f[0].children)|);
    }
  }

  lemma {:induction false} NestedDepths(f: Forest, above: int)
    requires Nested(f, above)
    ensures forall s :: s in Preorder(f) ==> above < s.depth
  {
    if f != [] {
      NestedDepths(f[0].children, f[0].sec.depth);
      NestedDepths(f[1..], above);
    }
  }

  lemma NearestIs(ss: seq<Section>, i: nat, p: int)
    requires i < |ss| && -1 <= p < i
    requires p >= 0 ==> ss[p].depth < ss[i].depth
    requires forall j :: p < j < i ==> ss[j].depth >= ss[i].depth
    ensures NearestShallower(ss, i, i - 1) == p
  {
  }

  /** `ss` holds the pre-order of `f` from position `base` on. */
  ghost predicate Holds(ss: seq<Section>, base: nat, f: Forest) {
    && base + |Preorder(f)| <= |ss|
    && forall i :: 0 <= i < |Preorder(f)| ==> ss[base + i] == Preorder(f)[i]
  }

  /** Every position strictly between `parent` and `base` is at least as deep as the next tree. */
  ghost predicate Shadowed(f: Forest, parent: int, base: nat, ss: seq<Section>)
    requires -1 <= parent && base <= |ss|
  {
    f != [] ==> forall k :: parent < k < base ==> ss[k].depth >= f[0].sec.depth
  }

  lemma HoldsParts(f: Forest, base: nat, ss: seq<Section>)
    requires f != [] && Holds(ss, base, f)
    ensures base < |ss| && ss[base] == f[0].sec
    ensures Holds(ss, base + 1, f[0].children)
    ensures Holds(ss, base + 1 + |Preorder(f[0].children)|, f[1..])
  {
    var inner := Preorder(f[0].children);
    var pre := Preorder(f);
    assert pre[0] == f[0].sec;
    assert forall i :: 0 <= i < |inner| ==> inner[i] == pre[1 + i];
    var next := Preorder(f[1..]);
    assert forall i :: 0 <= i < |next| ==> next[i] == pre[1 + |inner| + i];
    forall i | 0 <= i < |inner|
      ensures ss[base + 1 + i] == inner[i]
    {
      assert ss[base + (1 + i)] == pre[1 + i];
    }
    forall i | 0 <= i < |next|
      ensures ss[base + 1 + |inner| + i] == next[i]
    {
      assert ss[base + (1 + |inner| + i)] == pre[1 + |inner| + i];
    }
  }

  lemma NextShadowed(f: Forest, above: int, parent: int, base: nat, ss: seq<Section>)
    requires Nested(f, above) && -1 <= parent < base && f != []
    requires Holds(ss, base, f) && Shadowed(f, parent, base, ss)
    ensures base + 1 + |Preorder(f[0].children)| <= |ss|
    ensures Shadowed(f[1..], parent, base + 1 + |Preorder(f[0].children)|, ss)
  {
    HoldsParts(f, base, ss);
    NestedDepths(f[0].children, f[0].sec.depth);
    var inner := Preorder(f[0].children);
    forall k | parent < k < base + 1 + |inner| && |f| > 1
      ensures ss[k].depth >= f[1].sec.depth
    {
      if k > base {
        assert ss[base + 1 + (k - base - 1)] == inner[k - base - 1];
      }
    }
  }

  /** The first tree of a shadowed forest hangs under its parent, its children under its root. */
  lemma FirstNearest(f: Forest, above: int, parent: int, base: nat, ss: seq<Section>)
    requires Nested(f, above) && f != [] && -1 <= parent < base
    requires Holds(ss, base, f) && Shadowed(f, parent, base, ss)
    requires if parent < 0 then above <= 0 else ss[parent].depth == above
    ensures base < |ss| && ss[base].depth == f[0].sec.depth && NearestShallower(ss, base, base - 1) == parent
    ensures Nested(f[0].children, f[0].sec.depth) && Nested(f[1..], above)
    ensures Shadowed(f[0].children, base, base + 1, ss)
  {
    HoldsParts(f, base, ss);
    NearestIs(ss, base, parent);
  }

  lemma {:induction false} ParentsAreNearest(f: Forest, above: int, parent: int, base: nat, ss: seq<Section>)
    requires Nested(f, above) && -1 <= parent < base
    requires Holds(ss, base, f) && Shadowed(f, parent, base, ss)
    requires if parent < 0 then above <= 0 else ss[parent].depth == above
    ensures |Parents(f, parent, base)| == |Preorder(f)|
    ensures AllNearest(ss, base, Parents(f, parent, base))
  {
    hide NearestShallower, Preorder;
    ParentsLength(f, parent, base);
    if f != [] {
      hide Nested, Shadowed, Holds, AllNearest;
      var next := base + 1 + |Preorder(f[0].children)|;
      HoldsParts(f, base, ss);
      FirstNearest(f, above, parent, base, ss);
      ParentsAreNearest(f[0].children, f[0].sec.depth, base, base + 1, ss);
      NextShadowed(f, above, parent, base, ss);
      ParentsAreNearest(f[1..], above, parent, next, ss);
      JoinNearest(ss, base, parent, Parents(f[0].children, base, base + 1), Parents(f[1..], parent, next));
    }
  }

  ghost predicate AllNearest(ss: seq<Section>, base: nat, ps: seq<int>) {
    && base + |ps| <= |ss|
    && forall i :: 0 <= i < |ps| ==> ps[i] == NearestShallower(ss, base + i, base + i - 1)
  }

  lemma JoinNearest(ss: seq<Section>, base: nat, p: int, ps: seq<int>, qs: seq<int>)
    requires base < |ss| && p == NearestShallower(ss, base, base - 1)
    requires AllNearest(ss, base + 1, ps) && AllNearest(ss, base + 1 + |ps|, qs)
    ensures AllNearest(ss, base, [p] + ps + qs)
  {
    var all := [p] + ps + qs;
    forall i | 0 <= i < |all|
      ensures all[i] == NearestShallower(ss, base + i, base + i - 1)
    {
      if 0 < i <= |ps| {
        assert all[i] == ps[i - 1];
      } else if i > |ps| {
        assert all[i] == qs[i - 1 - |ps|];
      }
    }
  }

  /** The main result about the shape: in the tree built from a section list, pre-order is source
      order and every section's parent is the nearest earlier section of strictly smaller depth
      (none for a top-level section). */
  lemma TreeShape(ss: seq<Section>)
    requires forall s :: s in ss ==> s.depth >= 1
    ensures Preorder(Build(ss)) == ss
    ensures |Parents(Build(ss), -1, 0)| == |ss|
    ensures forall i :: 0 <= i < |ss| ==> Parents(Build(ss), -1, 0)[i] == NearestShallower(ss, i, i - 1)
  {
    BuildKeepsOrder(ss);
    var f := Build(ss);
    assert Holds(ss, 0, f) && Shadowed(f, -1, 0, ss);
    ParentsAreNearest(f, 0, -1, 0, ss);
  }

  /** No other tree will do: a nested forest is determined by its pre-order. */
  lemma {:induction false} NestedUnique(f: Forest, g: Forest, above: int)
    requires Nested(f, above) && Nested(g, above)
    requires Preorder(f) == Preorder(g)
    requires Unlabelled(f) && Unlabelled(g)
    ensures f == g
  {
    if f == [] || g == [] {
      assert f == [] && g == [];
    } else {
      var a, b := Preorder(f[0].children), Preorder(g[0].children);
      ChildrenEnd(f, above);
      ChildrenEnd(g, above);
      SameCut(f[0].sec, a, Preorder(f[1..]), g[0].sec, b, Preorder(g[1..]));
      NestedUnique(f[0].children, g[0].children, f[0].sec.depth);
      NestedUnique(f[1..], g[1..], above);
      assert f == [f[0]] + f[1..] && g == [g[0]] + g[1..];
    }
  }

  /** A list splits in one way into a head, the deeper sections right after it, and the rest. */
  lemma SameCut(x: Section, a: seq<Section>, u: seq<Section>, y: Section, b: seq<Section>, v: seq<Section>)
    requires [x] + a + u == [y] + b + v
    requires (forall s :: s in a ==> s.depth > x.depth) && (u != [] ==> u[0].depth <= x.depth)
    requires (forall s :: s in b ==> s.depth > y.depth) && (v != [] ==> v[0].depth <= y.depth)
    ensures x == y && a == b && u == v
  {
    var l, r := [x] + a + u, [y] + b + v;
    assert l[0] == x && r[0] == y;
    assert forall i :: 1 <= i < 1 + |a| ==> l[i] == a[i - 1];
    assert forall i :: 1 <= i < 1 + |b| ==> r[i] == b[i - 1];
    assert |l| > 1 + |a| ==> l[1 + |a|] == u[0];
    assert |r| > 1 + |b| ==> r[1 + |b|] == v[0];
    assert |a| == |b|;
    assert a == l[1..1 + |a|] && b == r[1..1 + |b|];
    assert u == l[1 + |a|..] && v == r[1 + |b|..];
  }

  ghost predicate Unlabelled(f: Forest) {
    f != [] ==> f[0].path == "" && Unlabelled(f[0].children) && Unlabelled(f[1..])
  }

  /** The first tree of a nested forest is its first section and the deeper ones right after it. */
  lemma ChildrenEnd(f: Forest, above: int)
    requires Nested(f, above) && f != []
    ensures forall s :: s in Preorder(f[0].children) ==> s.depth > f[0].sec.depth
    ensures Preorder(f[1..]) != [] ==> Preorder(f[1..])[0].depth <= f[0].sec.depth
  {
    NestedDepths(f[0].children, f[0].sec.depth);
    if |f| > 1 {
      assert Preorder(f[1..])[0] == f[1].sec;
    }
  }

  // ---------------------------------------------------------------------------------------
  // Addresses, and the right spine
  // ---------------------------------------------------------------------------------------

  predicate InForest(f: Forest, a: Address) {
    a != [] && a[0] < |f| && (|a| > 1 ==> InForest(f[a[0]].children, a[1..]))
  }

  function NodeAt(f: Forest, a: Address): Node
    requires InForest(f, a)
  {
    if |a| == 1 then f[a[0]] else NodeAt(f[a[0]].children, a[1..])
  }

  /** Push a node onto the child vector of the node at `a`. */
  function PushAt(f: Forest, a: Address, n: Node): Forest
    requires InForest(f, a)
  {
    var kids := f[a[0]].children;
    f[a[0] := f[a[0]].(children := if |a| == 1 then kids + [n] else PushAt(kids, a[1..], n))]
  }

  /** The address of the last node in pre-order: always the last element of each vector. */
  function Spine(f: Forest): Address {
    if f == [] then [] else [|f| - 1] + Spine(Last(f).children)
  }

  function SpineDepths(f: Forest): (ds: seq<nat>)
    ensures |ds| == |Spine(f)|
  {
    if f == [] then [] else [Last(f).sec.depth] + SpineDepths(Last(f).children)
  }

  /** How many spine nodes may be the parent of a section of depth `d`. */
  ghost predicate Keeps(f: Forest, d: nat, k: nat) {
    && k <= |Spine(f)|
    && (forall i :: 0 <= i < k ==> SpineDepths(f)[i] < d)
    && (k < |Spine(f)| ==> SpineDepths(f)[k] >= d)
  }

  /** One stack frame: a depth and a raw pointer. */
  datatype Frame = Frame(depth: nat, at: Address)

  /** The stack follows the right spine from the top-level vector down: each entry points to the
      last child of the entry below it. */
  ghost predicate AlongSpine(stack: seq<Frame>, f: Forest) {
    && |stack| <= |Spine(f)|
    && forall i :: 0 <= i < |stack| ==> stack[i] == Frame(SpineDepths(f)[i], Spine(f)[..i + 1])
  }

  /** The stack is exactly the right spine. */
  ghost predicate IsSpine(stack: seq<Frame>, f: Forest) {
    AlongSpine(stack, f) && |stack| == |Spine(f)|
  }

  lemma {:induction false} SpineInForest(f: Forest, k: nat)
    requires 0 < k <= |Spine(f)|
    ensures InForest(f, Spine(f)[..k])
  {
    if k > 1 {
      SpineInForest(Last(f).children, k - 1);
      assert Spine(f)[..k][1..] == Spine(Last(f).children)[..k - 1];
    }
  }

  lemma SpineUnfold(f: Forest)
    requires f != []
    ensures Spine(f) == [|f| - 1] + Spine(Last(f).children)
    ensures SpineDepths(f) == [Last(f).sec.depth] + SpineDepths(Last(f).children)
  {
  }

  lemma SlicePrefix<T>(x: T, s: seq<T>, k: nat)
    requires 0 < k <= 1 + |s|
    ensures ([x] + s)[..k] == [x] + s[..k - 1]
  {
  }

  lemma SpineStep(f: Forest, n: Node, d: nat, k: nat)
    requires Keeps(f, d, k) && k > 0 && f != [] && n == Last(f)
    ensures n.sec.depth < d && Keeps(n.children, d, k - 1)
  {
    SpineUnfold(f);
    var b, b' := SpineDepths(f), SpineDepths(n.children);
    assert b[0] == n.sec.depth;
    forall i | 0 <= i < k - 1
      ensures b'[i] < d
    {
      assert b[i + 1] == b'[i];
    }
    if k < |b| {
      assert b[k] == b'[k - 1];
    }
  }

  lemma SpineSlices(f: Forest, n: Node, k: nat)
    requires f != [] && 0 < k <= |Spine(f)| && n == Last(f)
    ensures k - 1 <= |Spine(n.children)|
    ensures Spine(f)[..k] == [|f| - 1] + Spine(n.children)[..k - 1]
    ensures SpineDepths(f)[..k] == [n.sec.depth] + SpineDepths(n.children)[..k - 1]
  {
    SpineUnfold(f);
    SlicePrefix(|f| - 1, Spine(n.children), k);
    SlicePrefix(n.sec.depth, SpineDepths(n.children), k);
  }

  /** Once the deep frames are popped, pushing through the top pointer is `Insert`. */
  lemma {:induction false} PushIsInsert(f: Forest, s: Section, k: nat)
    requires Keeps(f, s.depth, k) && k > 0 && f != []
    ensures InForest(f, Spine(f)[..k])
    ensures PushAt(f, Spine(f)[..k], Node("", s, [])) == Insert(f, s)
  {
    SpineStep(f, Last(f), s.depth, k);
    SpineSlices(f, Last(f), k);
    SpineInForest(f, k);
    var kids := Last(f).children;
    assert Spine(f)[..k][1..] == Spine(kids)[..k - 1];
    if k == 1 {
      TopInsert(kids, s);
    } else {
      PushIsInsert(kids, s, k - 1);
    }
  }

  /** The new right spine is what is left of the old one plus the new node. */
  lemma {:induction false} SpineOfInsert(f: Forest, s: Section, k: nat)
    requires Keeps(f, s.depth, k) && k > 0 && f != []
    ensures InForest(f, Spine(f)[..k])
    ensures Spine(Insert(f, s)) == Spine(f)[..k] + [|NodeAt(f, Spine(f)[..k]).children|]
    ensures SpineDepths(Insert(f, s)) == SpineDepths(f)[..k] + [s.depth]
  {
    SpineStep(f, Last(f), s.depth, k);
    SpineSlices(f, Last(f), k);
    SpineInForest(f, k);
    var kids := Last(f).children;
    var n' := Last(f).(children := Insert(kids, s));
    assert Insert(f, s) == f[|f| - 1 := n'] && Last(Insert(f, s)) == n';
    assert Spine(f)[..k][1..] == Spine(kids)[..k - 1];
    if k == 1 {
      TopInsert(kids, s);
    } else {
      SpineOfInsert(kids, s, k - 1);
    }
  }

  lemma TopInsert(f: Forest, s: Section)
    requires Keeps(f, s.depth, 0)
    ensures Insert(f, s) == f + [Node("", s, [])]
    ensures Spine(Insert(f, s)) == [|f|] && SpineDepths(Insert(f, s)) == [s.depth]
  {
    var leaf := Node("", s, []);
    if f != [] {
      SpineUnfold(f);
    }
    assert Insert(f, s) == f + [leaf];
    SpineUnfold(f + [leaf]);
  }

  // ---------------------------------------------------------------------------------------
  // Assembly through raw pointers
  // ---------------------------------------------------------------------------------------

  /** The vectors of nodes, owned by value. Pushing onto a vector may move its elements, so every
      raw pointer to one of them stops being usable: `live` holds the pointers that still are. */
  class Arena {
    var roots: Forest
    ghost var live: set<Address>

    constructor ()
      ensures roots == [] && live == {}
    {
      roots := [];
      live := {};
    }

    /** `roots.push(node)`, then a pointer to the pushed element. */
    method PushRoot(node: Node) returns (p: Address)
      modifies this
      ensures roots == old(roots) + [node] && p == [|old(roots)|]
      ensures live == (set a | a in old(live) && |a| != 1) + {p}
    {
      roots := roots + [node];
      p := [|roots| - 1];
      live := (set a | a in live && |a| != 1) + {p};
    }

    /** `(*parent).children.push(node)`, then a pointer to the pushed element. The dereference is
        sound only for a live pointer. */
    method PushChild(parent: Address, node: Node) returns (p: Address)
      requires parent in live && InForest(roots, parent)
      modifies this
      ensures roots == PushAt(old(roots), parent, node)
      ensures p == parent + [|NodeAt(old(roots), parent).children|]
      ensures live == (set a | a in old(live) && !ElementOf(a, parent)) + {p}
    {
      p := parent + [|NodeAt(roots, parent).children|];
      roots := PushAt(roots, parent, node);
      live := (set a | a in live && !ElementOf(a, parent)) + {p};
    }
  }

  /** `a` points into the child vector of the node at `parent`. */
  ghost predicate ElementOf(a: Address, parent: Address) {
    |a| == |parent| + 1 && a[..|parent|] == parent
  }

  lemma PrefixesAgree<T>(s: seq<T>, s': seq<T>, k: nat)
    requires k <= |s| && |s'| == k + 1 && s'[..k] == s[..k]
    ensures s'[..k + 1] == s' && forall i {:trigger s'[..i]} :: 0 <= i <= k ==> s'[..i] == s[..i]
  {
    assert forall i {:trigger s'[i]} :: 0 <= i < k ==> s'[i] == s'[..k][i] == s[i];
  }

  lemma StackAfterPop(stack: seq<Frame>, f: Forest, s: Section)
    requires AlongSpine(stack, f) && Keeps(f, s.depth, |stack|)
    ensures stack == [] ==> Insert(f, s) == f + [Node("", s, [])] && IsSpine([Frame(s.depth, [|f|])], Insert(f, s))
    ensures stack != [] ==>
              && InForest(f, stack[|stack| - 1].at)
              && Insert(f, s) == PushAt(f, stack[|stack| - 1].at, Node("", s, []))
              && var p := stack[|stack| - 1].at + [|NodeAt(f, stack[|stack| - 1].at).children|];
                 IsSpine(stack + [Frame(s.depth, p)], Insert(f, s))
  {
    if stack == [] {
      TopInsert(f, s);
    } else {
      var k := |stack|;
      PushIsInsert(f, s, k);
      SpineOfInsert(f, s, k);
      var sp, sp' := Spine(f), Spine(Insert(f, s));
      PrefixesAgree(sp, sp', k);
    }
  }

  lemma PopsKeep(stack: seq<Frame>, ss: seq<Section>, d: nat)
    requires forall s :: s in ss ==> s.depth >= 1
    requires AlongSpine(stack, Build(ss))
    requires stack == [] || stack[|stack| - 1].depth < d
    requires |stack| < |Spine(Build(ss))| ==> SpineDepths(Build(ss))[|stack|] >= d
    ensures Keeps(Build(ss), d, |stack|)
  {
    BuildKeepsOrder(ss);
    NestedSpine(Build(ss), 0);
  }

  function MaxDepth(ss: seq<Section>): (m: nat)
    ensures forall s :: s in ss ==> s.depth <= m
    ensures m == 0 || exists s :: s in ss && s.depth == m
  {
    if ss == [] then 0 else
      var m := MaxDepth(ss[..|ss| - 1]);
      var s := ss[|ss| - 1];
      assert ss == ss[..|ss| - 1] + [s];
      if s.depth > m then s.depth else m
  }

  /** All stacked pointers may still be dereferenced. */
  ghost predicate AllLive(stack: seq<Frame>, live: set<Address>) {
    forall i :: 0 <= i < |stack| ==> |stack[i].at| == i + 1 && stack[i].at in live
  }

  /** Pop every frame that is at least as deep as the new section. */
  method PopDeeper(arena: Arena, stack: seq<Frame>, ghost ss: seq<Section>, depth: nat) returns (stack': seq<Frame>)
    requires forall s :: s in ss ==> s.depth >= 1
    requires arena.roots == Build(ss) && IsSpine(stack, arena.roots) && AllLive(stack, arena.live)
    ensures AlongSpine(stack', arena.roots) && AllLive(stack', arena.live)
    ensures Keeps(arena.roots, depth, |stack'|)
  {
    stack' := stack;
    while stack' != [] && stack'[|stack'| - 1].depth >= depth
      invariant AlongSpine(stack', arena.roots) && AllLive(stack', arena.live)
      invariant |stack'| < |Spine(arena.roots)| ==> SpineDepths(arena.roots)[|stack'|] >= depth
      decreases |stack'|
    {
      stack' := stack'[..|stack'| - 1];
    }
    PopsKeep(stack', ss, depth);
  }

  /** Hang the new node under the top of the popped stack, or make it a new root. */
  method Attach(arena: Arena, stack: seq<Frame>, ps: Section) returns (stack': seq<Frame>)
    requires AlongSpine(stack, arena.roots) && AllLive(stack, arena.live)
    requires Keeps(arena.roots, ps.depth, |stack|)
    modifies arena
    ensures arena.roots == Insert(old(arena.roots), ps)
    ensures IsSpine(stack', arena.roots) && AllLive(stack', arena.live)
  {
    StackAfterPop(stack, arena.roots, ps);
    if stack != [] {
      var parent := stack[|stack| - 1].at;
      var p := arena.PushChild(parent, Node("", ps, []));
      stack' := stack + [Frame(ps.depth, p)];
    } else {
      var p := arena.PushRoot(Node("", ps, []));
      stack' := [Frame(ps.depth, p)];
    }
  }

  lemma BuildStep(ss: seq<Section>, n: nat)
    requires n < |ss|
    ensures Build(ss[..n + 1]) == Insert(Build(ss[..n]), ss[n])
    ensures MaxDepth(ss[..n + 1]) == if ss[n].depth > MaxDepth(ss[..n]) then ss[n].depth else MaxDepth(ss[..n])
  {
    assert ss[..n + 1][..n] == ss[..n];
  }

  /** The assembly loop. Every dereferenced pointer is live, although the root vector and the child
      vectors keep growing: at each step the stack is the right spine, and a vector is only pushed
      to when none of its elements stays on the stack. */
  method Assemble(prepared: seq<Section>) returns (roots: Forest, maxDepth: nat)
    requires forall s :: s in prepared ==> s.depth >= 1
    ensures roots == Build(prepared)
    ensures maxDepth == MaxDepth(prepared)
  {
    var arena := new Arena();
    var stack: seq<Frame> := [];
    maxDepth := 0;
    for n := 0 to |prepared|
      invariant arena.roots == Build(prepared[..n])
      invariant IsSpine(stack, arena.roots) && AllLive(stack, arena.live)
      invariant maxDepth == MaxDepth(prepared[..n])
    {
      var ps := prepared[n];
      BuildStep(prepared, n);
      maxDepth := if ps.depth > maxDepth then ps.depth else maxDepth;
      stack := PopDeeper(arena, stack, prepared[..n], ps.depth);
      stack := Attach(arena, stack, ps);
    }
    assert prepared[..|prepared|] == prepared;
    roots := arena.roots;
  }

  /** Depths increase strictly along the spine, so the popped frames are a suffix of it. */
  lemma {:induction false} NestedSpine(f: Forest, above: int)
    requires Nested(f, above)
    ensures forall i :: 0 <= i < |SpineDepths(f)| ==> above < SpineDepths(f)[i]
    ensures forall i, j :: 0 <= i < j < |SpineDepths(f)| ==> SpineDepths(f)[i] < SpineDepths(f)[j]
  {
    if f != [] {
      NestedSplit(f, above);
      NestedSpine(Last(f).children, Last(f).sec.depth);
    }
  }

  // ---------------------------------------------------------------------------------------
  // When the root vector grows
  // ---------------------------------------------------------------------------------------

  /** The last root is as shallow as any section. */
  lemma {:induction false} LastRootIsShallowest(ss: seq<Section>)
    requires ss != []
    ensures Build(ss) != []
    ensures forall i :: 0 <= i < |ss| ==> Last(Build(ss)).sec.depth <= ss[i].depth
    ensures exists i :: 0 <= i < |ss| && Last(Build(ss)).sec.depth == ss[i].depth
  {
    var front, s := ss[..|ss| - 1], ss[|ss| - 1];
    if front != [] {
      LastRootIsShallowest(front);
      var i :| 0 <= i < |front| && Last(Build(front)).sec.depth == front[i].depth;
      assert front[i] == ss[i];
    }
  }

  lemma InsertGrows(f: Forest, s: Section)
    ensures |Insert(f, s)| == if f == [] || Last(f).sec.depth >= s.depth then |f| + 1 else |f|
  {
  }

  /** A section is pushed onto the root vector exactly if no section before it is shallower. */
  lemma RootsGrow(ss: seq<Section>, n: nat)
    requires n < |ss|
    ensures |Build(ss[..n])| <= |Build(ss[..n + 1])|
    ensures |Build(ss[..n + 1])| > |Build(ss[..n])| <==> forall i :: 0 <= i < n ==> ss[n].depth <= ss[i].depth
  {
    hide Insert, Build;
    var front := ss[..n];
    BuildStep(ss, n);
    InsertGrows(Build(front), ss[n]);
    assert forall i :: 0 <= i < n ==> front[i] == ss[i];
    if n > 0 {
      LastRootIsShallowest(front);
    } else {
      NoRoots();
    }
  }

  lemma NoRoots()
    ensures Build([]) == []
  {
  }

  /** The root vector is left alone after the first iteration exactly if every later section is
      deeper than the first. */
  lemma {:induction false} RootsKept(ss: seq<Section>)
    requires ss != []
    ensures |Build(ss)| >= 1
    ensures |Build(ss)| == 1 <==> forall i :: 0 < i < |ss| ==> ss[i].depth > ss[0].depth
  {
    var front := ss[..|ss| - 1];
    assert ss[..|ss|] == ss;
    if front != [] {
      RootsKept(front);
      RootsGrow(ss, |front|);
      LastRootIsShallowest(front);
      assert forall i :: 0 <= i < |front| ==> front[i] == ss[i];
    }
  }

  /** Two top-level headings make the root vector grow in the second iteration. */
  lemma SecondRoot(s: Section, t: Section)
    requires s.depth == t.depth == 1
    ensures |Build([s])| == 1 && |Build([s, t])| == 2
  {
    assert [s, t][..1] == [s] && [s, t][..2] == [s, t] && [s][..0] == [];
    BuildStep([s, t], 1);
    assert Build([s]) == [Node("", s, [])];
  }
}
