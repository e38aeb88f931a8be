/** Reading a series key back, as `snapshot` does. */
module LabelParser {
  import opened Wrappers
  import opened Strings
  import opened SeriesKeys

  type LabelMap = map<string, string>

  // --- `parse_labels` ----------------------------------------------------------------------

  function TrimStart(s: string): string {
    if s != [] && s[0] == '"' then TrimStart(s[1..]) else s
  }

  function TrimEnd(s: string): string {
    if s != [] && s[|s| - 1] == '"' then TrimEnd(s[..|s| - 1]) else s
  }

  /** `trim_matches('"')`. */
  function TrimQuotes(s: string): string {
    TrimEnd(TrimStart(s))
  }

  /** One piece between commas: cut at the first equals sign, if there is one. */
  function ReadPiece(out: LabelMap, piece: string): LabelMap {
    var i := Find(piece, '=');
    if i == |piece| then out else out[piece[..i] := TrimQuotes(piece[i + 1..])]
  }

  function ReadPieces(pieces: seq<string>): LabelMap {
    if pieces == [] then map[] else ReadPiece(ReadPieces(pieces[..|pieces| - 1]), pieces[|pieces| - 1])
  }

  /** The slice ends one byte before the end of the key, so it panics after a multi-byte character,
      and on a brace that is the last character. */
  function Labels(key: string): Option<LabelMap> {
    var i := Find(key, '{');
    if i == |key| then Some(map[])
    else if i == |key| - 1 || key[|key| - 1] >= '\U{0080}' then None
    else Some(ReadPieces(Split(key[i + 1..|key| - 1], ',')))
  }

  function NameOf(key: string): string {
    Split(key, '{')[0]
  }

  method ParseLabels(key: string) returns (labels: Option<LabelMap>)
    ensures labels == Labels(key)
  {
    hide ReadPieces, TrimQuotes, Split;
    var out: LabelMap := map[];
    NothingRead();
    var brace := Find(key, '{');
    if brace < |key| {
      if brace + 1 > |key| - 1 || key[|key| - 1] >= '\U{0080}' {
        return None;
      }
      var pairs := Split(key[brace + 1..|key| - 1], ',');
      for n := 0 to |pairs|
        invariant out == ReadPieces(pairs[..n])
      {
        OneMoreRead(pairs, n);
        var eq := Find(pairs[n], '=');
        if eq < |pairs[n]| {
          out := out[pairs[n][..eq] := TrimQuotes(pairs[n][eq + 1..])];
        }
      }
      assert pairs[..|pairs|] == pairs;
    }
    return Some(out);
  }

  lemma NothingRead()
    ensures ReadPieces([]) == map[]
  {
  }

  lemma OneMoreRead(pieces: seq<string>, n: nat)
    requires n < |pieces|
    ensures ReadPieces(pieces[..n + 1]) == ReadPiece(ReadPieces(pieces[..n]), pieces[n])
  {
    assert pieces[..n + 1][..n] == pieces[..n];
  }

  // --- the labels as a map -----------------------------------------------------------------

  function MapOf(labels: seq<Label>): LabelMap {
    if labels == [] then map[] else MapOf(labels[..|labels| - 1])[labels[|labels| - 1].0 := labels[|labels| - 1].1]
  }

  ghost predicate OneValue(labels: seq<Label>) {
    forall x, y :: x in labels && y in labels && x.0 == y.0 ==> x == y
  }

  lemma {:induction false} MapHolds(labels: seq<Label>)
    requires OneValue(labels)
    ensures forall x :: x in labels ==> x.0 in MapOf(labels) && MapOf(labels)[x.0] == x.1
    ensures forall k :: k in MapOf(labels) ==> (k, MapOf(labels)[k]) in labels
  {
    if labels != [] {
      var front := labels[..|labels| - 1];
      assert labels == front + [labels[|labels| - 1]];
      MapHolds(front);
    }
  }

  /** Maps of label lists are equal exactly if the lists hold the same labels. */
  lemma SameMap(a: seq<Label>, b: seq<Label>)
    requires OneValue(a) && OneValue(b)
    ensures MapOf(a) == MapOf(b) <==> forall x :: x in a <==> x in b
  {
    hide MapOf;
    MapHolds(a);
    MapHolds(b);
  }

  // --- trimming an escaped value -----------------------------------------------------------

  /** What a value must not hold to be read back. */
  predicate Special(c: char) {
    c == ',' || Escaped(c)
  }

  predicate Escaped(c: char) {
    c == '"' || c == '\\' || c == '\n'
  }

  lemma {:induction false} EscapeGrows(v: string)
    ensures |EscapeAll(v)| >= |v|
    ensures |EscapeAll(v)| == |v| ==> forall c :: c in v ==> !Escaped(c)
    ensures (forall c :: c in v ==> !Escaped(c)) ==> EscapeAll(v) == v
  {
    if v != [] {
      EscapeGrows(v[1..]);
      assert v == [v[0]] + v[1..];
      if forall c :: c in v ==> !Escaped(c) {
        assert v[0] in v && forall c :: c in v[1..] ==> c in v;
        assert EscapeAll(v) == [v[0]] + v[1..];
      }
    }
  }

  lemma {:induction false} EscapeLast(v: string, c: char)
    ensures EscapeAll(v + [c]) == EscapeAll(v) + EscapeChar(c)
  {
    if v == [] {
      assert [] + [c] == [c] && [c][1..] == [];
      assert EscapeChar(c) + [] == EscapeChar(c);
    } else {
      EscapeLast(v[1..], c);
      assert (v + [c])[1..] == v[1..] + [c];
      Assoc(EscapeChar(v[0]), EscapeAll(v[1..]), EscapeChar(c));
    }
  }

  function Quoted(v: string): string {
    ['"'] + Escape(v) + ['"']
  }

  lemma TrimEndOnce(s: string)
    requires s == [] || s[|s| - 1] != '"'
    ensures TrimEnd(s + ['"']) == s
  {
    assert (s + ['"'])[..|s|] == s;
  }

  lemma TrimStartOnce(s: string)
    requires s != [] && s[0] != '"'
    ensures TrimStart(['"'] + s) == s
  {
    assert (['"'] + s)[1..] == s;
  }

  lemma Unwrap(e: string)
    requires e != [] && e[0] != '"'
    ensures TrimQuotes(['"'] + e + ['"']) == TrimEnd(e + ['"'])
  {
    hide TrimStart, TrimEnd;
    Assoc(['"'], e, ['"']);
    TrimStartOnce(e + ['"']);
  }

  /** Trimming takes away the two quotes that were added, and the quote of an escaped quote that
      ends the value. */
  lemma QuotedTrims(v: string)
    requires v != []
    ensures TrimQuotes(Quoted(v)) ==
            if v[|v| - 1] == '"' then EscapeAll(v[..|v| - 1]) + ['\\'] else EscapeAll(v)
  {
    hide EscapeAll, TrimEnd, TrimQuotes, EscapeChar, Escape;
    var u, c := v[..|v| - 1], v[|v| - 1];
    assert v == u + [c];
    EscapeIsPerCharacter(v);
    EscapeStart(v);
    Unwrap(EscapeAll(v));
    EscapeLast(u, c);
    TrimLast(EscapeAll(u), c);
  }

  lemma TrimLast(e: string, c: char)
    ensures TrimEnd(e + EscapeChar(c) + ['"']) == if c == '"' then e + ['\\'] else e + EscapeChar(c)
  {
    hide TrimEnd;
    if c == '"' {
      var f := e + ['\\'];
      assert e + EscapeChar(c) == f + ['"'];
      TrimEndTwice(f);
      TrimEndOnce(f);
    } else {
      var f := e + EscapeChar(c);
      assert f[|f| - 1] == EscapeChar(c)[|EscapeChar(c)| - 1];
      TrimEndOnce(f);
    }
  }

  lemma TrimEndTwice(s: string)
    ensures TrimEnd(s + ['"'] + ['"']) == TrimEnd(s + ['"'])
  {
    assert (s + ['"'] + ['"'])[..|s| + 1] == s + ['"'];
  }

  lemma EscapeStart(v: string)
    requires v != []
    ensures EscapeAll(v) != [] && EscapeAll(v)[0] != '"'
  {
    NotQuote(v[0], EscapeAll(v[1..]));
  }

  /** A quoted value trims back to itself exactly if escaping left it as it was. */
  lemma TrimsBack(v: string)
    ensures TrimQuotes(Quoted(v)) == v <==> forall c :: c in v ==> !Escaped(c)
  {
    if v == [] {
      assert Escape([]) == [] && Quoted([]) == ['"', '"'];
      assert TrimStart(['"', '"']) == TrimStart(['"']) == [];
    } else {
      hide EscapeAll, TrimQuotes, Quoted;
      QuotedTrims(v);
      EscapeGrows(v);
      assert v[|v| - 1] in v;
    }
  }

  // --- the pieces of a key -----------------------------------------------------------------

  function Parts(s: seq<Label>): seq<string> {
    if s == [] then [] else [Part(s[0])] + Parts(s[1..])
  }

  lemma {:induction false} SplitJoin(s: seq<Label>)
    requires s != [] && forall x :: x in s ==> ',' !in Part(x)
    ensures Split(Join(s), ',') == Parts(s)
  {
    hide Part;
    var p := Part(s[0]);
    if |s| == 1 {
      assert p + [] == p;
      FindNone(p, ',');
    } else {
      SplitJoin(s[1..]);
      var rest := Join(s[1..]);
      Assoc(p, [','], rest);
      FindAt(p, ',', rest);
      assert Join(s)[..|p|] == p && Join(s)[|p| + 1..] == rest;
    }
  }

  /** The label as it is read back when no comma interferes. */
  function Reread(x: Label): Label {
    (x.0, TrimQuotes(Quoted(x.1)))
  }

  function RereadAll(s: seq<Label>): seq<Label> {
    seq(|s|, i requires 0 <= i < |s| => Reread(s[i]))
  }

  lemma PartReads(out: LabelMap, x: Label)
    requires '=' !in x.0
    ensures ReadPiece(out, Part(x)) == out[x.0 := Reread(x).1]
  {
    hide TrimQuotes, Escape;
    FindAt(x.0, '=', Quoted(x.1));
    assert Part(x)[..|x.0|] == x.0 && Part(x)[|x.0| + 1..] == Quoted(x.1);
  }

  lemma {:induction false} PartsFront(s: seq<Label>, x: Label)
    ensures Parts(s + [x]) == Parts(s) + [Part(x)]
  {
    hide Part;
    if s == [] {
      assert [] + [x] == [x] && [x][1..] == [];
    } else {
      PartsFront(s[1..], x);
      assert (s + [x])[1..] == s[1..] + [x];
    }
  }

  lemma {:induction false} PartsRead(s: seq<Label>)
    requires forall x :: x in s ==> '=' !in x.0
    ensures ReadPieces(Parts(s)) == MapOf(RereadAll(s))
  {
    hide Part, TrimQuotes, Quoted, ReadPiece;
    if s != [] {
      var front, x := s[..|s| - 1], s[|s| - 1];
      assert s == front + [x];
      PartsRead(front);
      PartsFront(front, x);
      assert Parts(s)[..|Parts(s)| - 1] == Parts(front);
      PartReads(ReadPieces(Parts(front)), x);
      assert RereadAll(s) == RereadAll(front) + [Reread(x)];
      assert RereadAll(s)[..|front|] == RereadAll(front);
    }
  }

  // --- when a key reads back ---------------------------------------------------------------

  /** No delimiter in the name and none in the keys of the labels. */
  ghost predicate Readable(name: string, labels: seq<Label>) {
    Plain(name, labels) && forall x :: x in labels ==> ',' !in x.0
  }

  ghost predicate NoComma(labels: seq<Label>) {
    forall x :: x in labels ==> ',' !in x.1
  }

  lemma KeySlices(name: string, labels: seq<Label>)
    requires '{' !in name && labels != []
    ensures Labels(SeriesKey(name, labels)) == Some(ReadPieces(Split(Join(SortByKey(labels)), ',')))
  {
    hide Join, SortByKey, ReadPieces, Split;
    var inner := Join(SortByKey(labels));
    var key := SeriesKey(name, labels);
    FindAt(name, '{', inner + ['}']);
    assert key[|name| + 1..|key| - 1] == inner;
    assert key[|key| - 1] == '}';
  }

  lemma {:induction false} ReadHasNoComma(pieces: seq<string>)
    requires forall p :: p in pieces ==> ',' !in p
    ensures forall k :: k in ReadPieces(pieces) ==> ',' !in ReadPieces(pieces)[k]
  {
    hide Find, TrimQuotes;
    if pieces != [] {
      var front, p := pieces[..|pieces| - 1], pieces[|pieces| - 1];
      assert pieces == front + [p];
      ReadHasNoComma(front);
      if Find(p, '=') < |p| {
        var v := p[Find(p, '=') + 1..];
        TrimSlices(v);
        assert forall c :: c in v ==> c in p;
      }
    }
  }

  lemma {:induction false} TrimSlices(s: string)
    ensures forall c :: c in TrimQuotes(s) ==> c in s
  {
    TrimStartSlices(s);
    TrimEndSlices(TrimStart(s));
  }

  lemma {:induction false} TrimStartSlices(s: string)
    ensures forall c :: c in TrimStart(s) ==> c in s
  {
    if s != [] && s[0] == '"' {
      TrimStartSlices(s[1..]);
    }
  }

  lemma {:induction false} TrimEndSlices(s: string)
    ensures forall c :: c in TrimEnd(s) ==> c in s
  {
    if s != [] && s[|s| - 1] == '"' {
      TrimEndSlices(s[..|s| - 1]);
    }
  }

  lemma SpecialFreeEscape(v: string, c: char)
    requires c != '\\' && c != '"' && c != 'n' && c !in v
    ensures c !in EscapeAll(v)
  {
  }

  /** Values without commas are read back escaped, except for quotes at their ends. */
  lemma ReadsEscaped(name: string, labels: seq<Label>)
    requires Readable(name, labels) && labels != [] && NoComma(labels)
    ensures Labels(SeriesKey(name, labels)) == Some(MapOf(RereadAll(SortByKey(labels))))
  {
    hide Labels, SeriesKey, MapOf, RereadAll, Join, Split, ReadPieces, Escape;
    var s := SortByKey(labels);
    KeySlices(name, labels);
    SortSorts(labels);
    assert |s| == |multiset(s)| == |labels|;
    forall x | x in s
      ensures '=' !in x.0 && ',' !in Part(x)
    {
      assert x in multiset(s) && x in labels;
      EscapeIsPerCharacter(x.1);
      SpecialFreeEscape(x.1, ',');
    }
    SplitJoin(s);
    PartsRead(s);
  }

  /** A key reads back as its name and label map exactly if no value holds a comma, a quote, a
      backslash or a line break. */
  lemma ReadsBack(name: string, labels: seq<Label>)
    requires Readable(name, labels) && DistinctKeys(multiset(labels))
    ensures NameOf(SeriesKey(name, labels)) == name
    ensures Labels(SeriesKey(name, labels)) == Some(MapOf(labels)) <==>
            forall x, c :: x in labels && c in x.1 ==> !Special(c)
  {
    hide Labels, SeriesKey, MapOf;
    NameComesBack(name, labels);
    if labels == [] {
      NoLabels(name);
    } else if NoComma(labels) {
      ReadsEscaped(name, labels);
      RereadIsSame(labels);
    } else {
      var x :| x in labels && ',' in x.1;
      assert Special(',');
      CommaIsLost(name, labels);
    }
  }

  lemma NameComesBack(name: string, labels: seq<Label>)
    requires '{' !in name
    ensures NameOf(SeriesKey(name, labels)) == name
  {
    hide Join, SortByKey;
    if labels == [] {
      FindNone(name, '{');
    } else {
      FindAt(name, '{', Join(SortByKey(labels)) + ['}']);
    }
  }

  /** Reading panics only for a series without labels whose name ends in its first brace, or holds a
      brace and ends in a multi-byte character. */
  lemma ReadingPanics(name: string, labels: seq<Label>)
    ensures Labels(SeriesKey(name, labels)).None? <==>
            labels == [] && '{' in name && (name[|name| - 1] >= '\U{0080}' || '{' !in name[..|name| - 1])
  {
    hide Join, SortByKey, ReadPieces, Split;
    var key := SeriesKey(name, labels);
    var i := Find(key, '{');
    if labels == [] {
      assert '{' in name ==> i < |name| && (i == |name| - 1 <==> '{' !in name[..|name| - 1]) by {
        if '{' in name && i < |name| - 1 {
          assert name[..|name| - 1][i] == '{';
        }
      }
    } else {
      assert key[|name|] == '{' && key[|key| - 1] == '}';
      assert forall k :: 0 <= k < i ==> key[k] in key[..i];
    }
  }

  lemma NoLabels(name: string)
    requires '{' !in name
    ensures Labels(SeriesKey(name, [])) == Some(MapOf([]))
  {
    FindNone(name, '{');
  }

  lemma CommaIsLost(name: string, labels: seq<Label>)
    requires '{' !in name && DistinctKeys(multiset(labels)) && !NoComma(labels)
    ensures Labels(SeriesKey(name, labels)) != Some(MapOf(labels))
  {
    hide Labels, SeriesKey, Join, SortByKey, Split, ReadPieces;
    KeySlices(name, labels);
    var pieces := Split(Join(SortByKey(labels)), ',');
    PiecesHaveNone(Join(SortByKey(labels)), ',');
    ReadHasNoComma(pieces);
    OneValueEach(labels);
    MapHolds(labels);
  }

  lemma OneValueEach(labels: seq<Label>)
    requires DistinctKeys(multiset(labels))
    ensures OneValue(labels)
  {
    assert forall x :: x in labels ==> x in multiset(labels);
  }

  lemma RereadIsSame(labels: seq<Label>)
    requires DistinctKeys(multiset(labels)) && NoComma(labels)
    ensures MapOf(RereadAll(SortByKey(labels))) == MapOf(labels) <==>
            forall x, c :: x in labels && c in x.1 ==> !Special(c)
  {
    hide MapOf, SortByKey, RereadAll, Reread, OneValue, DistinctKeys;
    var s := SortByKey(labels);
    SortSorts(labels);
    assert forall x :: x in s <==> x in labels by {
      assert forall x :: (x in s <==> x in multiset(s)) && (x in labels <==> x in multiset(labels));
    }
    OneValueEach(labels);
    RereadMembers(s, labels);
    SameMap(RereadAll(s), labels);
    forall x | x in labels
      ensures Reread(x) == x <==> forall c :: c in x.1 ==> !Special(c)
    {
      RereadValue(x);
    }
  }

  lemma RereadValue(x: Label)
    requires ',' !in x.1
    ensures Reread(x) == x <==> forall c :: c in x.1 ==> !Special(c)
  {
    hide TrimQuotes, Quoted;
    TrimsBack(x.1);
    assert forall c :: c in x.1 ==> (Special(c) <==> Escaped(c));
  }

  lemma RereadMembers(s: seq<Label>, labels: seq<Label>)
    requires OneValue(labels) && forall x :: x in s <==> x in labels
    ensures OneValue(RereadAll(s))
    ensures (forall x :: x in RereadAll(s) <==> x in labels) <==> forall x :: x in labels ==> Reread(x) == x
  {
    hide RereadAll, TrimQuotes, Quoted;
    RereadHas(s);
    if forall x :: x in RereadAll(s) <==> x in labels {
      forall x | x in labels
        ensures Reread(x) == x
      {
        assert Reread(x) in labels;
      }
    }
  }

  lemma RereadHas(s: seq<Label>)
    ensures forall x :: x in s ==> Reread(x) in RereadAll(s)
    ensures forall y :: y in RereadAll(s) ==> exists x :: x in s && Reread(x) == y
  {
    hide Reread;
    forall x | x in s
      ensures Reread(x) in RereadAll(s)
    {
      var i :| 0 <= i < |s| && s[i] == x;
      assert RereadAll(s)[i] == Reread(x);
    }
    forall y | y in RereadAll(s)
      ensures exists x :: x in s && Reread(x) == y
    {
      var i :| 0 <= i < |s| && RereadAll(s)[i] == y;
      assert s[i] in s;
    }
  }

  /** A backslash comes back doubled. */
  lemma BackslashIsDoubled()
    ensures Labels(SeriesKey("m", [("k", "a\\b")])) == Some(map["k" := "a\\\\b"])
  {
    hide Labels, SeriesKey, TrimQuotes, Quoted;
    var x: Label := ("k", "a\\b");
    ReadsEscaped("m", [x]);
    OneLabel(x);
    EscapedBackslash();
    QuotedTrims(x.1);
  }

  lemma OneLabel(x: Label)
    ensures MapOf(RereadAll(SortByKey([x]))) == map[x.0 := Reread(x).1]
  {
    hide TrimQuotes, Quoted;
    assert [x][..0] == [] && SortByKey([]) == [] && [] + [x] == [x];
    assert RereadAll([x]) == [Reread(x)] && [Reread(x)][..0] == [];
  }

  lemma EscapedBackslash()
    ensures EscapeAll("a\\b") == "a\\\\b"
  {
    assert "a\\b"[1..] == "\\b" && "\\b"[1..] == "b" && "b"[1..] == "";
    assert EscapeAll("b") == "b" && EscapeAll("\\b") == "\\\\b";
  }
}
