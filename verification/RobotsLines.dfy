/** How a line of a robots.txt file reads, however it is written, and what makes no difference. */
module RobotsLines {
  import opened Wrappers
  import opened Strings
  import opened Robots

  predicate AllSpace(s: string) {
    forall i :: 0 <= i < |s| ==> Space(s[i])
  }

  /** Nothing to trim. */
  predicate Trimmed(s: string) {
    s != [] ==> !Space(s[0]) && !Space(s[|s| - 1])
  }

  lemma {:induction false} TrimStartDrops(w: string, s: string)
    requires AllSpace(w) && (s != [] ==> !Space(s[0]))
    ensures TrimStart(w + s) == s
  {
    hide Space;
    if w == [] {
      assert w + s == s;
    } else {
      assert (w + s)[1..] == w[1..] + s;
      TrimStartDrops(w[1..], s);
    }
  }

  lemma {:induction false} TrimEndDrops(s: string, w: string)
    requires AllSpace(w) && (s != [] ==> !Space(s[|s| - 1]))
    ensures TrimEnd(s + w) == s
  {
    hide Space;
    if w == [] {
      assert s + w == s;
    } else {
      assert (s + w)[..|s + w| - 1] == s + w[..|w| - 1];
      TrimEndDrops(s, w[..|w| - 1]);
    }
  }

  lemma TrimDrops(w: string, s: string, v: string)
    requires AllSpace(w) && AllSpace(v) && Trimmed(s)
    ensures Trim(w + s + v) == s
  {
    hide Space, TrimStart, TrimEnd;
    if s == [] {
      assert w + s + v == (w + v) + [];
      TrimStartDrops(w + v, []);
      TrimEndDrops(s, s);
      assert s + s == s;
    } else {
      assert w + s + v == w + (s + v);
      TrimStartDrops(w, s + v);
      TrimEndDrops(s, v);
    }
  }

  lemma CommentGoes(s: string, comment: string)
    requires '#' !in s
    ensures StripComment(s) == s
    ensures StripComment(s + ['#'] + comment) == s
  {
    FindNone(s, '#');
    FindAt(s, '#', comment);
    assert s[..|s|] == s && (s + ['#'] + comment)[..|s|] == s;
  }

  /** A field with any white space around its name and its value. */
  function Spaced(a: string, name: string, b: string, c: string, value: string, d: string): string {
    a + (name + b + [':'] + (c + value)) + d
  }

  /** Whatever white space stands around name and value, and whatever comment follows, the line says the
      same. */
  lemma LineReads(a: string, name: string, b: string, c: string, value: string, d: string, comment: string)
    requires AllSpace(a) && AllSpace(b) && AllSpace(c) && AllSpace(d)
    requires FieldName(name) && Trimmed(value) && '#' !in value
    ensures ParseLine(Spaced(a, name, b, c, value, d)) == DirectiveOf(Lower(name), value)
    ensures ParseLine(Spaced(a, name, b, c, value, d) + ['#'] + comment) == DirectiveOf(Lower(name), value)
  {
    hide Lower, Trim, StripComment, Find, Space, AllSpace, FieldName;
    var line := Spaced(a, name, b, c, value, d);
    NoCommentSign(a, name, b, c, value, d);
    CommentGoes(line, comment);
    FieldSplits(a, name, b, c, value, d);
  }

  lemma NoCommentSign(a: string, name: string, b: string, c: string, value: string, d: string)
    requires AllSpace(a) && AllSpace(b) && AllSpace(c) && AllSpace(d) && FieldName(name) && '#' !in value
    ensures '#' !in Spaced(a, name, b, c, value, d)
  {
    SpaceIsNoSign(a);
    SpaceIsNoSign(b);
    SpaceIsNoSign(c);
    SpaceIsNoSign(d);
  }

  lemma SpaceIsNoSign(s: string)
    requires AllSpace(s)
    ensures '#' !in s && ':' !in s
  {
  }

  /** What is left of the line after trimming splits at the first colon into name and value. */
  lemma FieldSplits(a: string, name: string, b: string, c: string, value: string, d: string)
    requires AllSpace(a) && AllSpace(b) && AllSpace(c) && AllSpace(d) && FieldName(name) && Trimmed(value)
    ensures var line := Trim(Spaced(a, name, b, c, value, d));
      var i := Find(line, ':');
      i < |line| && Trim(line[..i]) == name && Trim(line[i + 1..]) == value
  {
    hide Trim, Find, AllSpace, FieldName, Spaced;
    var rest := if value == [] then [] else c + value;
    TrimmedSpaced(a, name, b, c, value, d);
    var line := name + b + [':'] + rest;
    NameEnds(name, b);
    FindAt(name + b, ':', rest);
    assert line[..|name + b|] == name + b && line[|name + b| + 1..] == rest;
    TrimName(name, b);
    TrimValue(c, value);
  }

  lemma NameEnds(name: string, b: string)
    requires AllSpace(b) && FieldName(name)
    ensures ':' !in name + b
  {
    SpaceIsNoSign(b);
  }

  lemma TrimName(name: string, b: string)
    requires AllSpace(b) && FieldName(name)
    ensures Trim(name + b) == name
  {
    hide Trim, Space;
    TrimDrops([], name, b);
    assert [] + name + b == name + b;
  }

  lemma TrimValue(c: string, value: string)
    requires AllSpace(c) && Trimmed(value)
    ensures Trim(if value == [] then [] else c + value) == value
  {
    hide Trim, Space;
    TrimDrops(if value == [] then [] else c, value, []);
    assert c + value + [] == c + value && [] + value + [] == value;
  }

  lemma TrimmedSpaced(a: string, name: string, b: string, c: string, value: string, d: string)
    requires AllSpace(a) && AllSpace(b) && AllSpace(c) && AllSpace(d) && FieldName(name) && Trimmed(value)
    ensures Trim(Spaced(a, name, b, c, value, d)) == name + b + [':'] + if value == [] then [] else c + value
  {
    hide Trim, Space;
    ColonIsNoSpace();
    var rest := if value == [] then [] else c + value;
    var core := name + b + [':'] + rest;
    assert core[0] == name[0];
    if value == [] {
      assert core[|core| - 1] == ':';
      assert Spaced(a, name, b, c, value, d) == a + core + (c + d);
      TrimDrops(a, core, c + d);
    } else {
      assert core[|core| - 1] == value[|value| - 1];
      assert Spaced(a, name, b, c, value, d) == a + core + d;
      TrimDrops(a, core, d);
    }
  }

  lemma ColonIsNoSpace()
    ensures !Space(':')
  {
  }

  // ---------------------------------------------------------------------------------------
  // Letter case
  // ---------------------------------------------------------------------------------------

  /** Equal but for the case of ASCII letters. */
  ghost predicate SameLetters(s: string, t: string) {
    |s| == |t| && forall i :: 0 <= i < |s| ==> SameLetter(s[i], t[i])
  }

  predicate SameLetter(c: char, d: char) {
    || c == d
    || ('A' <= c <= 'Z' && d as int == c as int + 32)
    || ('A' <= d <= 'Z' && c as int == d as int + 32)
  }

  /** Two texts have one lower-case form exactly if they differ in letter case only. */
  lemma LowerForgetsCase(s: string, t: string)
    ensures Lower(s) == Lower(t) <==> SameLetters(s, t)
  {
    hide SameLetter, LowerChar;
    forall c, d
      ensures LowerChar(c) == LowerChar(d) <==> SameLetter(c, d)
    {
      LowerLetter(c, d);
    }
    if Lower(s) == Lower(t) {
      forall i | 0 <= i < |s|
        ensures SameLetter(s[i], t[i])
      {
        assert Lower(s)[i] == Lower(t)[i];
      }
    }
  }

  lemma LowerLetter(c: char, d: char)
    ensures LowerChar(c) == LowerChar(d) <==> SameLetter(c, d)
  {
  }

  /** The names of the four fields, in any letter case; any other field is ignored. */
  lemma FieldNames(a: string, name: string, b: string, c: string, value: string, d: string)
    requires AllSpace(a) && AllSpace(b) && AllSpace(c) && AllSpace(d)
    requires FieldName(name) && Trimmed(value) && '#' !in value
    ensures var r := ParseLine(Spaced(a, name, b, c, value, d));
      if SameLetters(name, "User-agent") then r == UserAgent(value)
      else if SameLetters(name, "Allow") then r == Says(Allow(value))
      else if SameLetters(name, "Disallow") then r == Says(Disallow(value))
      else if SameLetters(name, "Crawl-delay") then r == Says(CrawlDelay(value))
      else r == Ignored
  {
    hide ParseLine, Lower, SameLetters, FieldName, Spaced, AllSpace;
    LineReads(a, name, b, c, value, d, []);
    LowerNames();
    LowerForgetsCase(name, "User-agent");
    LowerForgetsCase(name, "Allow");
    LowerForgetsCase(name, "Disallow");
    LowerForgetsCase(name, "Crawl-delay");
  }

  // ---------------------------------------------------------------------------------------
  // Lines that say nothing
  // ---------------------------------------------------------------------------------------

  /** A line without a colon in front of its comment says nothing; so do blank lines and comments. */
  lemma NoColonIsIgnored(s: string, comment: string)
    requires '#' !in s && ':' !in s
    ensures ParseLine(s) == Ignored && ParseLine(s + ['#'] + comment) == Ignored
  {
    hide Trim, StripComment;
    CommentGoes(s, comment);
    TrimKeepsOut(s);
    FindNone(Trim(s), ':');
  }

  lemma TrimKeepsOut(s: string)
    ensures ':' !in s ==> ':' !in Trim(s)
  {
    TrimStartPart(s);
    TrimEndPart(TrimStart(s));
  }

  lemma {:induction false} TrimStartPart(s: string)
    ensures forall c :: c in TrimStart(s) ==> c in s
  {
    if s != [] && Space(s[0]) {
      TrimStartPart(s[1..]);
    }
  }

  lemma {:induction false} TrimEndPart(s: string)
    ensures forall c :: c in TrimEnd(s) ==> c in s
  {
    if s != [] && Space(s[|s| - 1]) {
      TrimEndPart(s[..|s| - 1]);
    }
  }

  /** The directives that say something. */
  function Meaningful(ds: seq<Directive>): seq<Directive> {
    if ds == [] then [] else
      Meaningful(ds[..|ds| - 1]) + if ds[|ds| - 1].Ignored? then [] else [ds[|ds| - 1]]
  }

  lemma {:induction false} IgnoredChangesNothing(p: Parser, ds: seq<Directive>, read: Reader)
    ensures Steps(p, ds, read) == Steps(p, Meaningful(ds), read)
  {
    if ds != [] {
      var front, d, kept := ds[..|ds| - 1], ds[|ds| - 1], Meaningful(ds[..|ds| - 1]);
      IgnoredChangesNothing(p, front, read);
      if d.Ignored? {
        assert kept + [] == kept;
      } else {
        assert (kept + [d])[..|kept|] == kept;
      }
    }
  }

  /** Two files whose lines say the same, leaving out those that say nothing, have the same groups. */
  lemma SameMeaning(body: string, body': string, read: Reader)
    requires Meaningful(Directives(Lines(body))) == Meaningful(Directives(Lines(body')))
    ensures Parsed(body, read) == Parsed(body', read)
  {
    hide Lines, ParseLine, Steps;
    IgnoredChangesNothing(START, Directives(Lines(body)), read);
    IgnoredChangesNothing(START, Directives(Lines(body')), read);
  }

  // ---------------------------------------------------------------------------------------
  // Any file is a list of sections
  // ---------------------------------------------------------------------------------------

  /** The names on the agent lines at the end. */
  function LastAgents(ds: seq<Directive>): seq<string> {
    if ds != [] && ds[|ds| - 1].UserAgent? then LastAgents(ds[..|ds| - 1]) + [Lower(ds[|ds| - 1].agent)] else []
  }

  /** The agents that a rule which comes next is for. */
  function CurrentAgents(ds: seq<Directive>): seq<string> {
    if ds != [] && ds[|ds| - 1].Says? then CurrentAgents(ds[..|ds| - 1]) else LastAgents(ds)
  }

  /** Agent lines from `i` to `j` and nothing but rules after them; before them there is a rule or
      nothing. `agents` are their names. */
  ghost predicate Headed(ds: seq<Directive>, i: nat, j: nat, agents: seq<string>) {
    && i <= j <= |ds| && (forall k :: j <= k < |ds| ==> ds[k].Says?)
    && |agents| == j - i && (forall k :: i <= k < j ==> ds[k].UserAgent? && agents[k - i] == Lower(ds[k].agent))
    && (i > 0 ==> ds[i - 1].Says?)
  }

  ghost predicate NoneIgnored(ds: seq<Directive>) {
    forall k :: 0 <= k < |ds| ==> !ds[k].Ignored?
  }

  lemma {:induction false} LastAreHeading(ds: seq<Directive>) returns (i: nat)
    requires NoneIgnored(ds)
    ensures Headed(ds, i, |ds|, LastAgents(ds))
  {
    hide Lower;
    if ds != [] && ds[|ds| - 1].UserAgent? {
      i := LastAreHeading(ds[..|ds| - 1]);
    } else {
      i := |ds|;
    }
  }

  /** Those agents are the ones on the agent lines above the rules that stand last. */
  lemma {:induction false} CurrentAreHeading(ds: seq<Directive>) returns (i: nat, j: nat)
    requires NoneIgnored(ds)
    ensures Headed(ds, i, j, CurrentAgents(ds))
  {
    hide Lower;
    if ds != [] && ds[|ds| - 1].Says? {
      i, j := CurrentAreHeading(ds[..|ds| - 1]);
    } else {
      i := LastAreHeading(ds);
      j := |ds|;
    }
  }

  /** Each rule with the agents it is for. */
  function StatementsIn(ds: seq<Directive>): seq<Statement> {
    if ds == [] then [] else
      var front, d := ds[..|ds| - 1], ds[|ds| - 1];
      StatementsIn(front) + if d.Says? then [Statement(CurrentAgents(front), d.rule)] else []
  }

  lemma {:induction false} ParserFollows(ds: seq<Directive>, read: Reader)
    requires NoneIgnored(ds)
    ensures var p := Steps(START, ds, read);
      && p.groups == ApplyAll(StatementsIn(ds), read) && p.agents == CurrentAgents(ds)
      && p.sawRule == (ds != [] && ds[|ds| - 1].Says?)
  {
    hide AddToAll, Lower;
    if ds != [] {
      var front, d := ds[..|ds| - 1], ds[|ds| - 1];
      ParserFollows(front, read);
      match d {
        case Says(rule) => ApplyOne(StatementsIn(front), Statement(CurrentAgents(front), rule), read);
        case UserAgent(agent) =>
          AgentJoins(ds);
          assert StatementsIn(front) + [] == StatementsIn(front);
      }
    }
  }

  lemma AgentJoins(ds: seq<Directive>)
    requires NoneIgnored(ds) && ds != [] && ds[|ds| - 1].UserAgent?
    ensures var front := ds[..|ds| - 1];
      CurrentAgents(ds) == (if front != [] && front[|front| - 1].Says? then [] else CurrentAgents(front))
                           + [Lower(ds[|ds| - 1].agent)]
  {
    hide Lower;
    var front := ds[..|ds| - 1];
    assert LastAgents(ds) == LastAgents(front) + [Lower(ds[|ds| - 1].agent)];
  }

  lemma ApplyOne(es: seq<Statement>, e: Statement, read: Reader)
    ensures ApplyAll(es + [e], read) == AddToAll(ApplyAll(es, read), e.agents, e.rule, read)
  {
    hide AddToAll;
    assert (es + [e])[..|es|] == es;
  }

  lemma {:induction false} MeaningfulKeepsNone(ds: seq<Directive>)
    ensures NoneIgnored(Meaningful(ds))
  {
    if ds != [] {
      MeaningfulKeepsNone(ds[..|ds| - 1]);
    }
  }

  /** Parsing any file at all gives, for every agent, the merge of the rules that stand under its
      name, in order, and no entry for anyone else. */
  lemma BodyMerges(body: string, read: Reader)
    ensures MergeOf(Parsed(body, read), StatementsIn(Meaningful(Directives(Lines(body)))), read)
  {
    hide MergeOf, Lines, Directives, ApplyAll, StatementsIn, Steps, Meaningful;
    var ds := Directives(Lines(body));
    IgnoredChangesNothing(START, ds, read);
    MeaningfulKeepsNone(ds);
    ParserFollows(Meaningful(ds), read);
    AllMerged(StatementsIn(Meaningful(ds)), read);
  }

  // ---------------------------------------------------------------------------------------
  // Line breaks
  // ---------------------------------------------------------------------------------------

  /** A line with a line feed behind it, or a carriage return and a line feed. */
  function Broken(line: string, cr: bool): string {
    (if cr then line + ['\r'] else line) + ['\n']
  }

  /** No line feed in the line, and no carriage return that the break could take away. */
  predicate Breakable(line: string, cr: bool) {
    '\n' !in line && (cr || DropReturn(line) == line)
  }

  function JoinBreaks(lines: seq<string>, cr: seq<bool>, last: string): string
    requires |cr| == |lines|
  {
    if lines == [] then last else Broken(lines[0], cr[0]) + JoinBreaks(lines[1..], cr[1..], last)
  }

  lemma OneBreak(line: string, cr: bool, rest: string)
    requires Breakable(line, cr)
    ensures Lines(Broken(line, cr) + rest) == [line] + Lines(rest)
  {
    var first := if cr then line + ['\r'] else line;
    var s := Broken(line, cr) + rest;
    FindAt(first, '\n', rest);
    assert s == first + ['\n'] + rest;
    assert s[..|first|] == first && s[|first| + 1..] == rest;
    ReturnDrops(line);
  }

  lemma ReturnDrops(s: string)
    ensures DropReturn(s + ['\r']) == s
  {
  }

  lemma LastLine(last: string)
    requires '\n' !in last
    ensures Lines(last) == if last == [] then [] else [last]
  {
    FindNone(last, '\n');
  }

  /** Either break ends a line, and the last line needs none. */
  lemma {:induction false} BreaksReadBack(lines: seq<string>, cr: seq<bool>, last: string)
    requires |cr| == |lines| && '\n' !in last
    requires forall i :: 0 <= i < |lines| ==> Breakable(lines[i], cr[i])
    ensures Lines(JoinBreaks(lines, cr, last)) == lines + if last == [] then [] else [last]
  {
    hide Breakable, Broken, Lines;
    if lines == [] {
      LastLine(last);
      assert lines + (if last == [] then [] else [last]) == if last == [] then [] else [last];
    } else {
      BreaksReadBack(lines[1..], cr[1..], last);
      OneBreak(lines[0], cr[0], JoinBreaks(lines[1..], cr[1..], last));
      assert lines == [lines[0]] + lines[1..];
      Assoc([lines[0]], lines[1..], if last == [] then [] else [last]);
    }
  }
}
