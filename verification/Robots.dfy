/** robots.txt: parsing, group choice and verdicts (sections 2.2.1 and 2.2.2 of RFC 9309). Text is
    a sequence of characters. */
module Robots {
  import opened Wrappers
  import opened Sequences
  import opened Strings

  datatype Group = Group(allow: seq<string>, disallow: seq<string>, delay: Option<nat>)

  type Groups = map<string, Group>

  datatype Rule = Allow(path: string) | Disallow(path: string) | CrawlDelay(value: string)

  /** What one line says. */
  datatype Directive = UserAgent(agent: string) | Says(rule: Rule) | Ignored

  /** How a delay value reads, in milliseconds: `None` for text that is no finite number of
      seconds from zero up. */
  type Reader = string -> Option<nat>

  // ---------------------------------------------------------------------------------------
  // Text
  // ---------------------------------------------------------------------------------------

  /** The characters of Unicode's White_Space property. */
  predicate Space(c: char) {
    || '\t' <= c <= '\r' || c == ' ' || c == '\U{0085}' || c == '\U{00A0}' || c == '\U{1680}'
    || '\U{2000}' <= c <= '\U{200A}' || c == '\U{2028}' || c == '\U{2029}'
    || c == '\U{202F}' || c == '\U{205F}' || c == '\U{3000}'
  }

  function TrimStart(s: string): string {
    if s != [] && Space(s[0]) then TrimStart(s[1..]) else s
  }

  function TrimEnd(s: string): string {
    if s != [] && Space(s[|s| - 1]) then TrimEnd(s[..|s| - 1]) else s
  }

  function Trim(s: string): string {
    TrimEnd(TrimStart(s))
  }

  function LowerChar(c: char): char {
    if 'A' <= c <= 'Z' then c + (32 as char) else c
  }

  /** `to_ascii_lowercase`. */
  function Lower(s: string): (r: string)
    ensures |r| == |s|
  {
    seq(|s|, i requires 0 <= i < |s| => LowerChar(s[i]))
  }

  /** `str::lines`. */
  function Lines(s: string): seq<string>
    decreases |s|
  {
    if s == [] then []
    else
      var i := Find(s, '\n');
      if i == |s| then [s] else [DropReturn(s[..i])] + Lines(s[i + 1..])
  }

  function DropReturn(s: string): string {
    if s != [] && s[|s| - 1] == '\r' then s[..|s| - 1] else s
  }

  // ---------------------------------------------------------------------------------------
  // Parsing
  // ---------------------------------------------------------------------------------------

  function StripComment(line: string): string {
    line[..Find(line, '#')]
  }

  function ParseLine(line: string): Directive {
    var line := Trim(StripComment(line));
    var i := Find(line, ':');
    if i == |line| then Ignored
    else
      var key, value := Lower(Trim(line[..i])), Trim(line[i + 1..]);
      if key == "user-agent" then UserAgent(value)
      else if key == "allow" then Says(Allow(value))
      else if key == "disallow" then Says(Disallow(value))
      else if key == "crawl-delay" then Says(CrawlDelay(value))
      else Ignored
  }

  const EMPTY: Group := Group([], [], None)

  function Entry(groups: Groups, agent: string): Group {
    if agent in groups then groups[agent] else EMPTY
  }

  function AddRule(g: Group, rule: Rule, read: Reader): Group {
    match rule
    case Allow(path) => if path == "" then g else g.(allow := g.allow + [path])
    case Disallow(path) => if path == "" then g else g.(disallow := g.disallow + [path])
    case CrawlDelay(value) => if read(value).None? then g else g.(delay := read(value))
  }

  /** Add a rule for every current agent. */
  function AddToAll(groups: Groups, agents: seq<string>, rule: Rule, read: Reader): Groups {
    if agents == [] then groups else
      var gs, agent := AddToAll(groups, agents[..|agents| - 1], rule, read), agents[|agents| - 1];
      gs[agent := AddRule(Entry(gs, agent), rule, read)]
  }

  datatype Parser = Parser(agents: seq<string>, sawRule: bool, groups: Groups)

  function Step(p: Parser, d: Directive, read: Reader): Parser {
    match d
    case UserAgent(agent) => Parser((if p.sawRule then [] else p.agents) + [Lower(agent)], false, p.groups)
    case Says(rule) => Parser(p.agents, true, AddToAll(p.groups, p.agents, rule, read))
    case Ignored => p
  }

  function Steps(p: Parser, ds: seq<Directive>, read: Reader): Parser {
    if ds == [] then p else Step(Steps(p, ds[..|ds| - 1], read), ds[|ds| - 1], read)
  }

  const START: Parser := Parser([], false, map[])

  function Directives(lines: seq<string>): seq<Directive> {
    seq(|lines|, i requires 0 <= i < |lines| => ParseLine(lines[i]))
  }

  function Parsed(body: string, read: Reader): Groups {
    Steps(START, Directives(Lines(body)), read).groups
  }

  method Parse(body: string, read: Reader) returns (groups: Groups)
    ensures groups == Parsed(body, read)
  {
    hide ParseLine, Lower;
    groups := map[];
    var agents: seq<string>, justSawDirective := [], false;
    var lines := Lines(body);
    for n := 0 to |lines|
      invariant Parser(agents, justSawDirective, groups) == Steps(START, Directives(lines)[..n], read)
    {
      assert Directives(lines)[..n + 1][..n] == Directives(lines)[..n];
      match ParseLine(lines[n])
      case UserAgent(agent) =>
        if justSawDirective {
          agents := [];
        }
        agents := agents + [Lower(agent)];
        justSawDirective := false;
      case Says(rule) =>
        groups := AddForAgents(groups, agents, rule, read);
        justSawDirective := true;
      case Ignored =>
    }
    assert Directives(lines)[..|lines|] == Directives(lines);
  }

  method AddForAgents(before: Groups, agents: seq<string>, rule: Rule, read: Reader) returns (groups: Groups)
    ensures groups == AddToAll(before, agents, rule, read)
  {
    groups := before;
    for k := 0 to |agents|
      invariant groups == AddToAll(before, agents[..k], rule, read)
    {
      AddLast(before, agents[..k], agents[k], rule, read);
      assert agents[..k + 1] == agents[..k] + [agents[k]];
      var g := if agents[k] in groups then groups[agents[k]] else EMPTY;
      match rule {
        case Allow(path) => if path != "" { g := g.(allow := g.allow + [path]); }
        case Disallow(path) => if path != "" { g := g.(disallow := g.disallow + [path]); }
        case CrawlDelay(value) =>
          var millis := read(value);
          if millis.Some? { g := g.(delay := millis); }
      }
      assert g == AddRule(Entry(groups, agents[k]), rule, read);
      groups := groups[agents[k] := g];
    }
    assert agents[..|agents|] == agents;
  }

  lemma AddLast(groups: Groups, agents: seq<string>, agent: string, rule: Rule, read: Reader)
    ensures var gs := AddToAll(groups, agents, rule, read);
      AddToAll(groups, agents + [agent], rule, read) == gs[agent := AddRule(Entry(gs, agent), rule, read)]
  {
    hide AddRule;
    assert (agents + [agent])[..|agents|] == agents;
  }

  // ---------------------------------------------------------------------------------------
  // Printing
  // ---------------------------------------------------------------------------------------

  /** A group as it is written: some agents, some rules. */
  datatype Section = Section(agents: seq<string>, rules: seq<Rule>)

  function PrintAgent(agent: string): string {
    "User-agent" + [':'] + ([' '] + agent)
  }

  function PrintRule(rule: Rule): string {
    match rule
    case Allow(path) => "Allow" + [':'] + ([' '] + path)
    case Disallow(path) => "Disallow" + [':'] + ([' '] + path)
    case CrawlDelay(value) => "Crawl-delay" + [':'] + ([' '] + value)
  }

  function SectionLines(s: Section): seq<string> {
    seq(|s.agents|, i requires 0 <= i < |s.agents| => PrintAgent(s.agents[i]))
    + seq(|s.rules|, i requires 0 <= i < |s.rules| => PrintRule(s.rules[i]))
  }

  function AllLines(ss: seq<Section>): seq<string> {
    if ss == [] then [] else AllLines(ss[..|ss| - 1]) + SectionLines(ss[|ss| - 1])
  }

  function JoinLines(lines: seq<string>): string {
    if lines == [] then [] else lines[0] + ['\n'] + JoinLines(lines[1..])
  }

  function Print(ss: seq<Section>): string {
    JoinLines(AllLines(ss))
  }

  /** Text that survives on a line of its own: no line break, no comment sign, nothing to trim. */
  predicate Clean(s: string) {
    '\n' !in s && '#' !in s && (s != [] ==> !Space(s[0]) && !Space(s[|s| - 1]))
  }

  function RuleText(rule: Rule): string {
    match rule
    case Allow(path) => path
    case Disallow(path) => path
    case CrawlDelay(value) => value
  }

  ghost predicate Printable(s: Section) {
    && s.agents != [] && s.rules != []
    && (forall a :: a in s.agents ==> Clean(a))
    && (forall r :: r in s.rules ==> Clean(RuleText(r)))
  }

  // ---------------------------------------------------------------------------------------
  // A printed line reads back
  // ---------------------------------------------------------------------------------------

  /** A field name: nothing to trim, no sign with a meaning. */
  predicate FieldName(s: string) {
    Clean(s) && s != [] && ':' !in s
  }

  function DirectiveOf(key: string, value: string): Directive {
    if key == "user-agent" then UserAgent(value)
    else if key == "allow" then Says(Allow(value))
    else if key == "disallow" then Says(Disallow(value))
    else if key == "crawl-delay" then Says(CrawlDelay(value))
    else Ignored
  }

  lemma FieldReadsBack(name: string, value: string)
    requires FieldName(name) && Clean(value)
    ensures ParseLine(name + [':'] + ([' '] + value)) == DirectiveOf(Lower(name), value)
  {
    hide Lower, Trim, StripComment, Find, FieldName, Clean;
    TrimmedField(name, value);
    SplitField(name, if value == [] then [] else [' '] + value);
    TrimClean(name, value);
  }

  lemma TrimmedField(name: string, value: string)
    requires FieldName(name) && Clean(value)
    ensures Trim(StripComment(name + [':'] + ([' '] + value))) == name + [':'] + if value == [] then [] else [' '] + value
  {
    hide Space, Find;
    var line := name + [':'] + ([' '] + value);
    FindNone(line, '#');
    assert line[..|line|] == line;
    SpaceIsSpace();
    if value == [] {
      assert line == name + [':'] + [] + [' '];
      TrimLine(name + [':'] + [], [' ']);
    } else {
      assert line[|line| - 1] == value[|value| - 1];
    }
  }

  lemma SplitField(name: string, rest: string)
    requires FieldName(name)
    ensures var line := name + [':'] + rest;
      Find(line, ':') == |name| < |line| && line[..|name|] == name && line[|name| + 1..] == rest
  {
    hide Space;
    FindAt(name, ':', rest);
  }

  lemma TrimClean(name: string, value: string)
    requires FieldName(name) && Clean(value)
    ensures Trim(name) == name && Trim(if value == [] then [] else [' '] + value) == value
  {
    hide Space;
    if value != [] {
      TrimOne(value);
    }
  }

  lemma SpaceIsSpace()
    ensures Space(' ') && !Space(':')
  {
  }

  lemma TrimLine(s: string, t: string)
    requires s != [] && !Space(s[0]) && !Space(s[|s| - 1]) && t == [' ']
    ensures Trim(s + t) == s
  {
    hide Space;
    SpaceIsSpace();
    var line := s + t;
    assert line[..|line| - 1] == s && line[0] == s[0] && line[|line| - 1] == ' ';
    assert TrimStart(line) == line && TrimEnd(line) == TrimEnd(s) == s;
  }

  lemma TrimOne(s: string)
    requires s != [] ==> !Space(s[0]) && !Space(s[|s| - 1])
    ensures Trim([' '] + s) == s
  {
    hide Space;
    SpaceIsSpace();
    var line := [' '] + s;
    assert line[1..] == s && line[0] == ' ';
    assert TrimStart(line) == TrimStart(s) == s;
  }

  lemma LowerNames()
    ensures Lower("User-agent") == "user-agent" && Lower("Allow") == "allow"
    ensures Lower("Disallow") == "disallow" && Lower("Crawl-delay") == "crawl-delay"
  {
  }

  lemma AgentReadsBack(agent: string)
    requires Clean(agent)
    ensures ParseLine(PrintAgent(agent)) == UserAgent(agent)
  {
    hide Lower, ParseLine;
    LowerNames();
    FieldReadsBack("User-agent", agent);
  }

  lemma RuleReadsBack(rule: Rule)
    requires Clean(RuleText(rule))
    ensures ParseLine(PrintRule(rule)) == Says(rule)
  {
    hide Lower, ParseLine;
    LowerNames();
    match rule {
      case Allow(path) => FieldReadsBack("Allow", path);
      case Disallow(path) => FieldReadsBack("Disallow", path);
      case CrawlDelay(value) => FieldReadsBack("Crawl-delay", value);
    }
  }

  lemma {:induction false} LinesReadBack(lines: seq<string>)
    requires forall l :: l in lines ==> '\n' !in l && DropReturn(l) == l
    ensures Lines(JoinLines(lines)) == lines
  {
    hide DropReturn;
    if lines != [] {
      LinesReadBack(lines[1..]);
      var s, rest := JoinLines(lines), JoinLines(lines[1..]);
      FindAt(lines[0], '\n', rest);
      assert s[..|lines[0]|] == lines[0] && s[|lines[0]| + 1..] == rest;
      assert lines == [lines[0]] + lines[1..];
    }
  }

  // ---------------------------------------------------------------------------------------
  // Merging
  // ---------------------------------------------------------------------------------------

  /** One rule with the agents it is written for. */
  datatype Statement = Statement(agents: seq<string>, rule: Rule)

  function Lowered(agents: seq<string>): seq<string> {
    seq(|agents|, i requires 0 <= i < |agents| => Lower(agents[i]))
  }

  function ForAgents(agents: seq<string>, rules: seq<Rule>): seq<Statement> {
    seq(|rules|, i requires 0 <= i < |rules| => Statement(agents, rules[i]))
  }

  function Statements(s: Section): seq<Statement> {
    ForAgents(Lowered(s.agents), s.rules)
  }

  /** All rules of all sections, in order, with their agents. */
  function AllStatements(ss: seq<Section>): seq<Statement> {
    if ss == [] then [] else AllStatements(ss[..|ss| - 1]) + Statements(ss[|ss| - 1])
  }

  /** The rules written for one agent, in order, once for each time the agent is named with them. */
  function RulesFor(es: seq<Statement>, agent: string): seq<Rule> {
    if es == [] then [] else
      RulesFor(es[..|es| - 1], agent) + Times(es[|es| - 1].rule, Count(es[|es| - 1].agents, agent))
  }

  function AllowPaths(rules: seq<Rule>): seq<string> {
    if rules == [] then [] else
      var r := rules[|rules| - 1];
      AllowPaths(rules[..|rules| - 1]) + if r.Allow? && r.path != "" then [r.path] else []
  }

  function DisallowPaths(rules: seq<Rule>): seq<string> {
    if rules == [] then [] else
      var r := rules[|rules| - 1];
      DisallowPaths(rules[..|rules| - 1]) + if r.Disallow? && r.path != "" then [r.path] else []
  }

  /** The last delay that reads as a number. */
  function LastDelay(rules: seq<Rule>, read: Reader): Option<nat> {
    if rules == [] then None else
      var r := rules[|rules| - 1];
      if r.CrawlDelay? && read(r.value).Some? then read(r.value) else LastDelay(rules[..|rules| - 1], read)
  }

  function Merged(rules: seq<Rule>, read: Reader): Group {
    Group(AllowPaths(rules), DisallowPaths(rules), LastDelay(rules, read))
  }

  lemma MergeOne(rules: seq<Rule>, rule: Rule, read: Reader)
    ensures Merged(rules + [rule], read) == AddRule(Merged(rules, read), rule, read)
  {
    assert (rules + [rule])[..|rules|] == rules;
  }

  predicate Named(es: seq<Statement>, agent: string) {
    exists i :: 0 <= i < |es| && agent in es[i].agents
  }

  ghost predicate MergeOf(groups: Groups, es: seq<Statement>, read: Reader) {
    forall a :: (a in groups <==> Named(es, a)) && (a in groups ==> groups[a] == Merged(RulesFor(es, a), read))
  }

  function ApplyAll(es: seq<Statement>, read: Reader): Groups {
    if es == [] then map[] else
      AddToAll(ApplyAll(es[..|es| - 1], read), es[|es| - 1].agents, es[|es| - 1].rule, read)
  }

  /** Entry of one agent after a rule was added for a list of agents. */
  lemma {:induction false} AddedFor(groups: Groups, agents: seq<string>, rule: Rule, read: Reader, rules: seq<Rule>,
                                    a: string)
    requires Entry(groups, a) == Merged(rules, read)
    ensures a in AddToAll(groups, agents, rule, read) <==> a in groups || a in agents
    ensures Entry(AddToAll(groups, agents, rule, read), a) == Merged(rules + Times(rule, Count(agents, a)), read)
  {
    hide Merged, AddRule;
    if agents == [] {
      assert rules + [] == rules;
    } else {
      var front, last := agents[..|agents| - 1], agents[|agents| - 1];
      AddedFor(groups, front, rule, read, rules, a);
      assert a in agents <==> a in front || a == last by { assert agents == front + [last]; }
      if last == a {
        OneMoreTime(rules, rule, Count(front, a), read);
      }
    }
  }

  lemma OneMoreTime(rules: seq<Rule>, rule: Rule, k: nat, read: Reader)
    ensures Merged(rules + Times(rule, k + 1), read) == AddRule(Merged(rules + Times(rule, k), read), rule, read)
  {
    hide Merged, AddRule;
    Assoc(rules, Times(rule, k), [rule]);
    MergeOne(rules + Times(rule, k), rule, read);
  }

  lemma NothingMerged(read: Reader)
    ensures Merged([], read) == EMPTY
  {
  }

  lemma {:induction false} ApplyMerges(es: seq<Statement>, read: Reader, a: string)
    ensures a in ApplyAll(es, read) <==> Named(es, a)
    ensures Entry(ApplyAll(es, read), a) == Merged(RulesFor(es, a), read)
  {
    hide Merged, AddToAll;
    if es == [] {
      NothingMerged(read);
    } else {
      var front, e := es[..|es| - 1], es[|es| - 1];
      ApplyMerges(front, read, a);
      AddedFor(ApplyAll(front, read), e.agents, e.rule, read, RulesFor(front, a), a);
      NamedGrows(front, e, a);
      assert es == front + [e];
    }
  }

  lemma NamedGrows(es: seq<Statement>, e: Statement, a: string)
    ensures Named(es + [e], a) <==> Named(es, a) || a in e.agents
  {
    if Named(es, a) {
      var i :| 0 <= i < |es| && a in es[i].agents;
      assert (es + [e])[i] == es[i];
    }
    assert (es + [e])[|es|] == e;
  }

  // ---------------------------------------------------------------------------------------
  // The parser merges what was printed
  // ---------------------------------------------------------------------------------------

  lemma {:induction false} StepsAppend(p: Parser, a: seq<Directive>, b: seq<Directive>, read: Reader)
    ensures Steps(p, a + b, read) == Steps(Steps(p, a, read), b, read)
    decreases |b|
  {
    hide Step;
    if b == [] {
      assert a + b == a;
    } else {
      StepsAppend(p, a, b[..|b| - 1], read);
      assert (a + b)[..|a + b| - 1] == a + b[..|b| - 1];
    }
  }

  function AgentDirectives(agents: seq<string>): seq<Directive> {
    seq(|agents|, i requires 0 <= i < |agents| => UserAgent(agents[i]))
  }

  function RuleDirectives(rules: seq<Rule>): seq<Directive> {
    seq(|rules|, i requires 0 <= i < |rules| => Says(rules[i]))
  }

  /** Agent lines after a rule, or at the start, replace the current agents. */
  lemma {:induction false} AgentsCollect(p: Parser, agents: seq<string>, read: Reader)
    requires agents != [] && (p.sawRule || p.agents == [])
    ensures Steps(p, AgentDirectives(agents), read) == Parser(Lowered(agents), false, p.groups)
  {
    hide Lower;
    var front, last := agents[..|agents| - 1], agents[|agents| - 1];
    var ds := AgentDirectives(agents);
    assert ds[..|ds| - 1] == AgentDirectives(front);
    if front != [] {
      AgentsCollect(p, front, read);
      assert Lowered(agents) == Lowered(front) + [Lower(last)];
    } else {
      assert Lowered(agents) == [Lower(last)];
    }
  }

  /** Rule lines add each rule for the current agents. */
  lemma {:induction false} RulesApply(p: Parser, es: seq<Statement>, rules: seq<Rule>, read: Reader)
    requires p.groups == ApplyAll(es, read)
    ensures Steps(p, RuleDirectives(rules), read) ==
            Parser(p.agents, p.sawRule || rules != [], ApplyAll(es + ForAgents(p.agents, rules), read))
  {
    hide AddToAll;
    var more := ForAgents(p.agents, rules);
    if rules == [] {
      assert es + more == es;
    } else {
      var front := rules[..|rules| - 1];
      RulesApply(p, es, front, read);
      assert RuleDirectives(rules)[..|rules| - 1] == RuleDirectives(front);
      assert (es + more)[..|es + more| - 1] == es + ForAgents(p.agents, front);
    }
  }

  lemma {:induction false} SectionsApply(ss: seq<Section>, read: Reader)
    requires forall s :: s in ss ==> Printable(s)
    ensures var p := Steps(START, Directives(AllLines(ss)), read);
      && p.groups == ApplyAll(AllStatements(ss), read)
      && (p.sawRule || p.agents == [])
  {
    hide Step, ApplyAll, Printable, Directives, SectionLines;
    if ss != [] {
      var front, s := ss[..|ss| - 1], ss[|ss| - 1];
      SectionsApply(front, read);
      SectionApplies(Steps(START, Directives(AllLines(front)), read), AllStatements(front), s, read);
      DirectivesJoin(AllLines(front), SectionLines(s));
      StepsAppend(START, Directives(AllLines(front)), Directives(SectionLines(s)), read);
    } else {
      NoStatements(read);
    }
  }

  lemma NoStatements(read: Reader)
    ensures ApplyAll([], read) == map[]
    ensures Directives([]) == []
  {
  }

  lemma DirectivesJoin(a: seq<string>, b: seq<string>)
    ensures Directives(a + b) == Directives(a) + Directives(b)
  {
    hide ParseLine;
  }

  lemma SectionApplies(p: Parser, es: seq<Statement>, s: Section, read: Reader)
    requires Printable(s) && p.groups == ApplyAll(es, read) && (p.sawRule || p.agents == [])
    ensures Steps(p, Directives(SectionLines(s)), read) == Parser(Lowered(s.agents), true, ApplyAll(es + Statements(s), read))
  {
    hide Steps, ApplyAll, SectionLines, Directives, Clean, Lower;
    SectionReadsBack(s);
    StepsAppend(p, AgentDirectives(s.agents), RuleDirectives(s.rules), read);
    AgentsCollect(p, s.agents, read);
    RulesApply(Parser(Lowered(s.agents), false, p.groups), es, s.rules, read);
  }

  lemma SectionReadsBack(s: Section)
    requires Printable(s)
    ensures Directives(SectionLines(s)) == AgentDirectives(s.agents) + RuleDirectives(s.rules)
  {
    hide ParseLine, PrintAgent, PrintRule, Clean;
    forall i | 0 <= i < |s.agents|
      ensures ParseLine(PrintAgent(s.agents[i])) == UserAgent(s.agents[i])
    {
      AgentReadsBack(s.agents[i]);
    }
    forall i | 0 <= i < |s.rules|
      ensures ParseLine(PrintRule(s.rules[i])) == Says(s.rules[i])
    {
      RuleReadsBack(s.rules[i]);
    }
  }

  lemma {:induction false} LinesAreLines(ss: seq<Section>)
    requires forall s :: s in ss ==> Printable(s)
    ensures forall l :: l in AllLines(ss) ==> '\n' !in l && DropReturn(l) == l
  {
    hide PrintAgent, PrintRule, DropReturn;
    if ss != [] {
      LinesAreLines(ss[..|ss| - 1]);
      var s := ss[|ss| - 1];
      assert s in ss && Printable(s);
      forall l | l in SectionLines(s)
        ensures '\n' !in l && DropReturn(l) == l
      {
        if i :| 0 <= i < |s.agents| && l == PrintAgent(s.agents[i]) {
          assert s.agents[i] in s.agents;
          AgentIsLine(s.agents[i]);
        } else {
          var i :| 0 <= i < |s.rules| && l == PrintRule(s.rules[i]);
          assert s.rules[i] in s.rules;
          RuleIsLine(s.rules[i]);
        }
      }
    }
  }

  lemma FieldIsLine(name: string, value: string)
    requires '\n' !in name && Clean(value)
    ensures var line := name + [':'] + ([' '] + value); '\n' !in line && DropReturn(line) == line
  {
    var line := name + [':'] + ([' '] + value);
    assert line[|line| - 1] == if value == [] then ' ' else value[|value| - 1];
  }

  lemma AgentIsLine(agent: string)
    requires Clean(agent)
    ensures '\n' !in PrintAgent(agent) && DropReturn(PrintAgent(agent)) == PrintAgent(agent)
  {
    FieldIsLine("User-agent", agent);
  }

  lemma RuleIsLine(rule: Rule)
    requires Clean(RuleText(rule))
    ensures '\n' !in PrintRule(rule) && DropReturn(PrintRule(rule)) == PrintRule(rule)
  {
    hide DropReturn, Clean;
    match rule {
      case Allow(path) => FieldIsLine("Allow", path);
      case Disallow(path) => FieldIsLine("Disallow", path);
      case CrawlDelay(value) => FieldIsLine("Crawl-delay", value);
    }
  }

  /** Printing any sections and parsing the text gives, for every agent, the merge of the rules
      written for it, and no entry for anyone else. */
  lemma PrintedMerges(ss: seq<Section>, read: Reader)
    requires forall s :: s in ss ==> Printable(s)
    ensures MergeOf(Parsed(Print(ss), read), AllStatements(ss), read)
  {
    hide ParseLine, Steps, JoinLines, DropReturn, Printable, MergeOf, Lines, AllLines, AllStatements, Directives, ApplyAll;
    LinesAreLines(ss);
    LinesReadBack(AllLines(ss));
    SectionsApply(ss, read);
    AllMerged(AllStatements(ss), read);
  }

  lemma AllMerged(es: seq<Statement>, read: Reader)
    ensures MergeOf(ApplyAll(es, read), es, read)
  {
    hide Merged, ApplyAll, RulesFor, Named;
    forall a: string
      ensures a in ApplyAll(es, read) <==> Named(es, a)
      ensures Entry(ApplyAll(es, read), a) == Merged(RulesFor(es, a), read)
    {
      ApplyMerges(es, read, a);
    }
  }

  // ---------------------------------------------------------------------------------------
  // Group choice
  // ---------------------------------------------------------------------------------------

  /** The agent whose group applies: the name itself, else the longest agent that is a prefix of
      it, else the wildcard. */
  ghost predicate Chosen(groups: Groups, ua: string, r: Option<string>) {
    if ua in groups then r == Some(ua)
    else if exists a :: Candidate(groups, ua, a) then
      && r.Some? && Candidate(groups, ua, r.value)
      && forall a :: Candidate(groups, ua, a) ==> |a| <= |r.value|
    else r == if "*" in groups then Some("*") else None
  }

  ghost predicate Candidate(groups: Groups, ua: string, a: string) {
    a in groups && a != "*" && a <= ua
  }

  /** One agent at most is chosen, so the order in which the map is walked does not matter. */
  lemma ChosenUnique(groups: Groups, ua: string, r: Option<string>, s: Option<string>)
    requires Chosen(groups, ua, r) && Chosen(groups, ua, s)
    ensures r == s
  {
    if ua !in groups && exists a :: Candidate(groups, ua, a) {
      assert |r.value| == |s.value|;
      assert r.value == ua[..|r.value|] && s.value == ua[..|s.value|];
    }
  }

  /** Walks the groups in any order. */
  method MatchingGroup(groups: Groups, userAgent: string) returns (r: Option<string>)
    ensures Chosen(groups, Lower(userAgent), r)
    ensures r.Some? ==> r.value in groups
  {
    hide Lower;
    var ua := Lower(userAgent);
    if ua in groups {
      return Some(ua);
    }
    var best: Option<string> := None;
    var rest := groups.Keys;
    while rest != {}
      invariant rest <= groups.Keys
      invariant best.Some? ==> Candidate(groups, ua, best.value)
      invariant forall a :: Candidate(groups, ua, a) && a !in rest ==> best.Some? && |a| <= |best.value|
      decreases |rest|
    {
      var agent :| agent in rest;
      rest := rest - {agent};
      if agent == "*" {
        continue;
      }
      if agent <= ua && (best.None? || |agent| > |best.value|) {
        best := Some(agent);
      }
    }
    if best.Some? {
      return best;
    }
    return if "*" in groups then Some("*") else None;
  }

  // ---------------------------------------------------------------------------------------
  // Verdicts
  // ---------------------------------------------------------------------------------------

  function LongestMatch(rules: seq<string>, path: string): (r: Option<nat>)
    ensures r.None? ==> forall p :: p in rules ==> !(p <= path)
    ensures r.Some? ==> (exists p :: p in rules && p <= path && |p| == r.value)
                        && forall p :: p in rules && p <= path ==> |p| <= r.value
  {
    if rules == [] then None else
      assert rules == rules[..|rules| - 1] + [rules[|rules| - 1]];
      var r, p := LongestMatch(rules[..|rules| - 1], path), rules[|rules| - 1];
      if p <= path && (r.None? || r.value <= |p|) then Some(|p|) else r
  }

  /** `is_allowed`, given the group that applies. */
  function Allowed(group: Option<Group>, path: string): bool {
    var a := if group.Some? then LongestMatch(group.value.allow, path) else None;
    var d := if group.Some? then LongestMatch(group.value.disallow, path) else None;
    d.None? || (a.Some? && a.value >= d.value)
  }

  /** A rule that applies to the path. */
  ghost predicate Applies(rules: seq<string>, path: string, p: string) {
    p in rules && p <= path
  }

  /** The longest matching rule decides, and an allow rule wins a tie: a path is allowed exactly
      when every disallow rule that matches it is matched by an allow rule at least as long. */
  lemma LongestRuleDecides(group: Group, path: string)
    ensures Allowed(Some(group), path) <==>
            forall d :: Applies(group.disallow, path, d) ==> exists a :: Applies(group.allow, path, a) && |a| >= |d|
    ensures Allowed(None, path)
  {
    var a, d := LongestMatch(group.allow, path), LongestMatch(group.disallow, path);
    if d.Some? {
      var p :| p in group.disallow && p <= path && |p| == d.value;
      assert Applies(group.disallow, path, p);
    }
    if a.Some? {
      var p :| p in group.allow && p <= path && |p| == a.value;
      assert Applies(group.allow, path, p);
    }
  }

  method IsAllowed(groups: Groups, userAgent: string, path: string) returns (allowed: bool)
    ensures forall r :: Chosen(groups, Lower(userAgent), r) ==>
              allowed == Allowed(if r.Some? then Some(groups[r.value]) else None, path)
  {
    hide Lower, Chosen, Allowed;
    var r := MatchingGroup(groups, userAgent);
    forall s | Chosen(groups, Lower(userAgent), s)
      ensures s == r
    {
      ChosenUnique(groups, Lower(userAgent), r, s);
    }
    allowed := Allowed(if r.Some? then Some(groups[r.value]) else None, path);
  }
}
