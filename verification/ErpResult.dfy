/** Return-stack rows inside a JSON reply: which values count as rows, and which rows are failures. */
module ErpResult {
  import opened Wrappers
  import opened JsonValues

  const MAX_DEPTH: nat := 8

  // ---------------------------------------------------------------------------------------
  // Rows
  // ---------------------------------------------------------------------------------------

  predicate HasKey(fields: seq<(string, Json)>, key: string) {
    exists i :: 0 <= i < |fields| && fields[i].0 == key
  }

  /** An object with a type and a message, each spelled in capitals or in small letters. */
  predicate IsRow(v: Json) {
    && v.Obj?
    && (HasKey(v.fields, "TYPE") || HasKey(v.fields, "type"))
    && (HasKey(v.fields, "MESSAGE") || HasKey(v.fields, "message"))
  }

  function Children(v: Json): seq<Json> {
    match v
    case Obj(fields) => seq(|fields|, i requires 0 <= i < |fields| => fields[i].1)
    case Arr(items) => items
    case _ => []
  }

  function Left(depth: nat): nat {
    if depth > MAX_DEPTH + 1 then 0 else MAX_DEPTH + 2 - depth
  }

  /** The rows of a value found at `depth`, in document order: nothing below the depth limit, and
      nothing inside a row. */
  function Rows(v: Json, depth: nat): seq<Json>
    decreases Left(depth), 0
  {
    if depth > MAX_DEPTH then []
    else if IsRow(v) then [v]
    else RowsOf(Children(v), |Children(v)|, depth + 1)
  }

  function RowsOf(vs: seq<Json>, k: nat, depth: nat): seq<Json>
    requires k <= |vs|
    decreases Left(depth), k + 1
  {
    if k == 0 then [] else RowsOf(vs, k - 1, depth) + Rows(vs[k - 1], depth)
  }

  /** The recursive walk pushes onto one list. */
  method Walk(v: Json, before: seq<Json>, depth: nat) returns (out: seq<Json>)
    ensures out == before + Rows(v, depth)
    decreases Left(depth)
  {
    out := before;
    if depth > MAX_DEPTH {
      return;
    }
    if IsRow(v) {
      return out + [v];
    }
    var vs := Children(v);
    for i := 0 to |vs|
      invariant out == before + RowsOf(vs, i, depth + 1)
    {
      out := Walk(vs[i], out, depth + 1);
    }
  }

  // ---------------------------------------------------------------------------------------
  // Rows by path
  // ---------------------------------------------------------------------------------------

  /** The value at a path of child positions. */
  function At(v: Json, path: seq<nat>): Option<Json>
    decreases |path|
  {
    if path == [] then Some(v)
    else if path[0] < |Children(v)| then At(Children(v)[path[0]], path[1..])
    else None
  }

  /** A row at the end of the path, and none on the way. */
  ghost predicate RowAt(v: Json, path: seq<nat>) {
    && At(v, path).Some? && IsRow(At(v, path).value)
    && forall k :: 0 <= k < |path| ==> At(v, path[..k]).Some? && !IsRow(At(v, path[..k]).value)
  }

  /** A path of length at most `reach` to a row. */
  ghost predicate Reaches(v: Json, r: Json, path: seq<nat>, reach: int) {
    RowAt(v, path) && At(v, path) == Some(r) && |path| <= reach
  }

  lemma RowAtStep(v: Json, i: nat, path: seq<nat>)
    requires i < |Children(v)|
    ensures RowAt(v, [i] + path) <==> !IsRow(v) && RowAt(Children(v)[i], path)
    ensures At(v, [i] + path) == At(Children(v)[i], path)
  {
    hide IsRow, Children;
    var long := [i] + path;
    assert long[1..] == path;
    forall k | 0 < k <= |long|
      ensures At(v, long[..k]) == At(Children(v)[i], path[..k - 1])
    {
      assert long[..k][1..] == path[..k - 1];
    }
    if RowAt(v, long) {
      assert At(v, long[..0]) == Some(v);
      forall k | 0 <= k < |path|
        ensures At(Children(v)[i], path[..k]).Some? && !IsRow(At(Children(v)[i], path[..k]).value)
      {
        assert At(v, long[..k + 1]) == At(Children(v)[i], path[..(k + 1) - 1]);
      }
    }
  }

  /** A reached row is found. */
  lemma {:induction false} ReachedIsFound(v: Json, r: Json, path: seq<nat>, depth: nat)
    requires Reaches(v, r, path, MAX_DEPTH - depth)
    ensures r in Rows(v, depth)
    decreases |path|
  {
    if path != [] {
      var i, rest := path[0], path[1..];
      assert path == [i] + rest;
      RowAtStep(v, i, rest);
      ReachedIsFound(Children(v)[i], r, rest, depth + 1);
      FoundInOne(Children(v), |Children(v)|, i, depth + 1, r);
    }
  }

  lemma {:induction false} FoundInOne(vs: seq<Json>, k: nat, i: nat, depth: nat, r: Json)
    requires i < k <= |vs| && r in Rows(vs[i], depth)
    ensures r in RowsOf(vs, k, depth)
    decreases k
  {
    if i < k - 1 {
      FoundInOne(vs, k - 1, i, depth, r);
    }
  }

  /** A found row is reached. */
  lemma {:induction false} FoundIsReached(v: Json, r: Json, depth: nat) returns (path: seq<nat>)
    requires r in Rows(v, depth)
    ensures Reaches(v, r, path, MAX_DEPTH - depth)
    decreases Left(depth)
  {
    if IsRow(v) {
      path := [];
    } else {
      var i := FoundSomewhere(Children(v), |Children(v)|, depth + 1, r);
      var rest := FoundIsReached(Children(v)[i], r, depth + 1);
      RowAtStep(v, i, rest);
      path := [i] + rest;
    }
  }

  lemma {:induction false} FoundSomewhere(vs: seq<Json>, k: nat, depth: nat, r: Json) returns (i: nat)
    requires k <= |vs| && r in RowsOf(vs, k, depth)
    ensures i < k && r in Rows(vs[i], depth)
    decreases k
  {
    if r in Rows(vs[k - 1], depth) {
      i := k - 1;
    } else {
      i := FoundSomewhere(vs, k - 1, depth, r);
    }
  }

  /** The walk finds exactly the rows at depth at most eight that are not inside another row. */
  lemma WalkFindsRows(v: Json, r: Json)
    ensures r in Rows(v, 0) <==> exists path :: Reaches(v, r, path, MAX_DEPTH)
  {
    if r in Rows(v, 0) {
      var path := FoundIsReached(v, r, 0);
    }
    if path :| Reaches(v, r, path, MAX_DEPTH) {
      ReachedIsFound(v, r, path, 0);
    }
  }

  // ---------------------------------------------------------------------------------------
  // Messages
  // ---------------------------------------------------------------------------------------

  datatype Severity = Success | Error | Warning | Info | Abort | Unknown(c: char)

  datatype ErpMessage = ErpMessage(severity: Severity, messageClass: string, messageNumber: string, text: string,
                                   parameter: Option<string>, field: Option<string>, system: Option<string>)

  function UpperChar(c: char): char {
    if 'a' <= c <= 'z' then c - (32 as char) else c
  }

  function FromChar(c: char): Severity {
    var u := UpperChar(c);
    if u == 'S' then Success
    else if u == 'E' then Error
    else if u == 'W' then Warning
    else if u == 'I' then Info
    else if u == 'A' then Abort
    else Unknown(u)
  }

  predicate IsFailure(s: Severity) {
    s.Error? || s.Abort? || s.Unknown?
  }

  function TextOf(v: Option<Json>): Option<string> {
    match v
    case Some(Str(s)) => Some(s)
    case Some(Num(text)) => Some(text)
    case _ => None
  }

  /** The first of two spellings that holds a string or a number. */
  function FirstText(fields: seq<(string, Json)>, upper: string, lower: string): Option<string> {
    var t := TextOf(Field(fields, upper));
    if t.Some? then t else TextOf(Field(fields, lower))
  }

  function OrEmpty(s: Option<string>): string {
    if s.Some? then s.value else ""
  }

  function ParseOne(v: Json): ErpMessage
    requires v.Obj?
  {
    var fields := v.fields;
    var typ := OrEmpty(FirstText(fields, "TYPE", "type"));
    ErpMessage(
      if typ == "" then Unknown(' ') else FromChar(typ[0]),
      OrEmpty(FirstText(fields, "ID", "id")),
      OrEmpty(FirstText(fields, "NUMBER", "number")),
      OrEmpty(FirstText(fields, "MESSAGE", "message")),
      FirstText(fields, "PARAMETER", "parameter"),
      FirstText(fields, "FIELD", "field"),
      FirstText(fields, "SYSTEM", "system"))
  }

  /** The first entry for `key` is the string or the number `s`. */
  ghost predicate Holds(fields: seq<(string, Json)>, key: string, s: string) {
    exists i :: IsFirstEntry(fields, i, key) && (fields[i].1 == Str(s) || fields[i].1 == Num(s))
  }

  ghost predicate IsFirstEntry(fields: seq<(string, Json)>, i: int, key: string) {
    0 <= i < |fields| && fields[i].0 == key && forall j :: 0 <= j < i ==> fields[j].0 != key
  }

  /** The text under the capital spelling if that holds one, else the text under the small spelling. */
  ghost predicate ReadsAs(fields: seq<(string, Json)>, upper: string, lower: string, t: Option<string>) {
    if exists s :: Holds(fields, upper, s) then t.Some? && Holds(fields, upper, t.value)
    else if exists s :: Holds(fields, lower, s) then t.Some? && Holds(fields, lower, t.value)
    else t.None?
  }

  /** The same, an absent text reading as the empty one. */
  ghost predicate ReadsPlain(fields: seq<(string, Json)>, upper: string, lower: string, s: string) {
    ReadsAs(fields, upper, lower, Some(s)) || (ReadsAs(fields, upper, lower, None) && s == "")
  }

  /** A type's first letter in either case; anything else is kept, in capitals. */
  ghost predicate SeverityReads(typ: string, severity: Severity) {
    if typ == "" then severity == Unknown(' ')
    else
      && (severity.Success? <==> typ[0] in {'S', 's'}) && (severity.Error? <==> typ[0] in {'E', 'e'})
      && (severity.Warning? <==> typ[0] in {'W', 'w'}) && (severity.Info? <==> typ[0] in {'I', 'i'})
      && (severity.Abort? <==> typ[0] in {'A', 'a'})
      && (severity.Unknown? ==> severity.c == typ[0] || severity.c as int == typ[0] as int - 32)
  }

  lemma {:induction false} FieldIsFirst(fields: seq<(string, Json)>, key: string)
    ensures Field(fields, key).Some? ==>
              exists i :: IsFirstEntry(fields, i, key) && fields[i].1 == Field(fields, key).value
    ensures Field(fields, key).None? ==> forall i :: 0 <= i < |fields| ==> fields[i].0 != key
  {
    if fields != [] {
      FieldIsFirst(fields[1..], key);
      if fields[0].0 == key {
        assert IsFirstEntry(fields, 0, key);
      } else if Field(fields[1..], key).Some? {
        var i :| IsFirstEntry(fields[1..], i, key) && fields[1..][i].1 == Field(fields[1..], key).value;
        assert IsFirstEntry(fields, i + 1, key);
      }
    }
  }

  lemma TextIsHeld(fields: seq<(string, Json)>, key: string, s: string)
    ensures Holds(fields, key, s) <==> TextOf(Field(fields, key)) == Some(s)
  {
    FieldIsFirst(fields, key);
    if Field(fields, key).Some? {
      var i :| IsFirstEntry(fields, i, key) && fields[i].1 == Field(fields, key).value;
      assert forall j :: IsFirstEntry(fields, j, key) ==> j == i;
    }
  }

  lemma FirstTextReads(fields: seq<(string, Json)>, upper: string, lower: string)
    ensures ReadsAs(fields, upper, lower, FirstText(fields, upper, lower))
  {
    hide Holds, TextOf, Field;
    forall key, s
      ensures Holds(fields, key, s) <==> TextOf(Field(fields, key)) == Some(s)
    {
      TextIsHeld(fields, key, s);
    }
  }

  /** How a row reads, field by field. */
  lemma RowReads(v: Json)
    requires v.Obj?
    ensures var m := ParseOne(v);
      && (exists typ :: ReadsPlain(v.fields, "TYPE", "type", typ) && SeverityReads(typ, m.severity))
      && ReadsPlain(v.fields, "ID", "id", m.messageClass)
      && ReadsPlain(v.fields, "NUMBER", "number", m.messageNumber)
      && ReadsPlain(v.fields, "MESSAGE", "message", m.text)
      && ReadsAs(v.fields, "PARAMETER", "parameter", m.parameter)
      && ReadsAs(v.fields, "FIELD", "field", m.field)
      && ReadsAs(v.fields, "SYSTEM", "system", m.system)
  {
    hide ReadsAs, FirstText, FromChar, SeverityReads;
    forall upper, lower
      ensures ReadsAs(v.fields, upper, lower, FirstText(v.fields, upper, lower))
    {
      FirstTextReads(v.fields, upper, lower);
    }
    var typ := OrEmpty(FirstText(v.fields, "TYPE", "type"));
    assert ReadsPlain(v.fields, "TYPE", "type", typ);
    SeverityIsRead(typ, ParseOne(v).severity);
  }

  lemma SeverityIsRead(typ: string, severity: Severity)
    requires severity == if typ == "" then Unknown(' ') else FromChar(typ[0])
    ensures SeverityReads(typ, severity)
  {
  }

  function ParseAll(rows: seq<Json>): seq<ErpMessage>
    requires forall r :: r in rows ==> r.Obj?
  {
    seq(|rows|, i requires 0 <= i < |rows| => ParseOne(rows[i]))
  }

  lemma {:induction false} RowsAreRows(v: Json, depth: nat)
    ensures forall r :: r in Rows(v, depth) ==> IsRow(r)
  {
    forall r | r in Rows(v, depth)
      ensures IsRow(r)
    {
      var path := FoundIsReached(v, r, depth);
    }
  }

  function Messages(v: Json): seq<ErpMessage> {
    RowsAreRows(v, 0);
    ParseAll(Rows(v, 0))
  }

  predicate HasFailure(messages: seq<ErpMessage>) {
    exists i :: 0 <= i < |messages| && IsFailure(messages[i].severity)
  }

  method ParseErpMessages(v: Json) returns (messages: seq<ErpMessage>)
    ensures messages == Messages(v)
  {
    var candidates := Walk(v, [], 0);
    RowsAreRows(v, 0);
    messages := ParseAll(candidates);
  }

  // ---------------------------------------------------------------------------------------
  // Failures by path
  // ---------------------------------------------------------------------------------------

  /** Anything but success, warning and information fails: no type text at all, too. */
  ghost predicate FailingRow(r: Json)
    requires r.Obj?
  {
    var typ := OrEmpty(FirstText(r.fields, "TYPE", "type"));
    typ == "" || typ[0] !in {'S', 's', 'W', 'w', 'I', 'i'}
  }

  ghost predicate ReachesFailure(v: Json, r: Json) {
    IsRow(r) && FailingRow(r) && exists path :: Reaches(v, r, path, MAX_DEPTH)
  }

  lemma FailureIsFailingRow(r: Json)
    requires r.Obj?
    ensures IsFailure(ParseOne(r).severity) <==> FailingRow(r)
  {
    hide FirstText;
    var typ := OrEmpty(FirstText(r.fields, "TYPE", "type"));
    if typ != "" {
      SeverityOf(typ[0]);
    }
  }

  lemma SeverityOf(c: char)
    ensures IsFailure(FromChar(c)) <==> c !in {'S', 's', 'W', 'w', 'I', 'i'}
  {
  }

  /** A reply fails exactly when it holds a failing row within reach. */
  lemma FailureByPath(v: Json)
    ensures HasFailure(Messages(v)) <==> exists r :: ReachesFailure(v, r)
  {
    hide ParseOne, FailingRow, Reaches, Rows, IsFailure;
    RowsAreRows(v, 0);
    var rows := Rows(v, 0);
    forall i | 0 <= i < |rows|
      ensures IsRow(rows[i])
    {
      assert rows[i] in rows;
    }
    forall i | 0 <= i < |rows|
      ensures IsFailure(Messages(v)[i].severity) <==> FailingRow(rows[i])
      ensures exists path :: Reaches(v, rows[i], path, MAX_DEPTH)
    {
      FailureIsFailingRow(rows[i]);
      WalkFindsRows(v, rows[i]);
    }
    if HasFailure(Messages(v)) {
      var i :| 0 <= i < |rows| && IsFailure(Messages(v)[i].severity);
      assert ReachesFailure(v, rows[i]);
    }
    if r :| ReachesFailure(v, r) {
      WalkFindsRows(v, r);
      var i :| 0 <= i < |rows| && rows[i] == r;
    }
  }

  /** A reply is silent exactly when no row is within reach. */
  lemma SilenceByPath(v: Json)
    ensures Messages(v) == [] <==> forall r, path :: !Reaches(v, r, path, MAX_DEPTH)
  {
    hide Reaches, Rows, ParseOne;
    RowsAreRows(v, 0);
    var rows := Rows(v, 0);
    if rows != [] {
      WalkFindsRows(v, rows[0]);
    }
    forall r, path | Reaches(v, r, path, MAX_DEPTH)
      ensures r in rows
    {
      WalkFindsRows(v, r);
    }
  }
}
