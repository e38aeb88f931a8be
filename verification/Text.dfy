/** Options, and the few facts about text that several components share. */
module Wrappers {
  datatype Option<+T> = None | Some(value: T)
}

module Numbers {
  function Min(a: nat, b: nat): nat {
    if a < b then a else b
  }

  function Max(a: nat, b: nat): nat {
    if a < b then b else a
  }
}

module Sequences {
  ghost predicate Distinct<T>(s: seq<T>) {
    forall i, j :: 0 <= i < j < |s| ==> s[i] != s[j]
  }

  function Elements<T>(s: seq<T>): set<T> {
    set x | x in s
  }

  /** How often `x` occurs. */
  function Count<T(==)>(s: seq<T>, x: T): nat {
    if s == [] then 0 else Count(s[..|s| - 1], x) + if s[|s| - 1] == x then 1 else 0
  }

  /** `x`, `k` times. */
  function Times<T>(x: T, k: nat): seq<T> {
    if k == 0 then [] else Times(x, k - 1) + [x]
  }
}

module Strings {

  lemma Assoc<T>(a: seq<T>, b: seq<T>, c: seq<T>)
    ensures a + b + c == a + (b + c)
  {
  }

  lemma DropFront<T>(a: seq<T>, b: seq<T>)
    ensures (a + b)[|a|..] == b && (a + b)[0..] == a + b
  {
  }

  /** Cutting at the first occurrence of a separator is unambiguous. */
  lemma UniqueSplit<T>(sep: T, u: seq<T>, v: seq<T>, u': seq<T>, v': seq<T>)
    requires sep !in u && sep !in u'
    requires u + [sep] + v == u' + [sep] + v'
    ensures u == u' && v == v'
  {
    var s, s' := u + [sep] + v, u' + [sep] + v';
    assert s[|u|] == sep && s'[|u'|] == sep;
    assert forall i :: 0 <= i < |u| ==> s[i] == u[i];
    assert forall i :: 0 <= i < |u'| ==> s'[i] == u'[i];
    assert u == s[..|u|] && u' == s'[..|u'|];
    assert v == s[|u| + 1..] && v' == s'[|u'| + 1..];
  }

  /** Offset of the first `c`, the length if there is none. */
  function Find(s: string, c: char): (i: nat)
    ensures i <= |s| && (i < |s| ==> s[i] == c) && c !in s[..i]
  {
    if s == [] || s[0] == c then 0 else
      var i := Find(s[1..], c);
      assert s[..i + 1] == [s[0]] + s[1..][..i];
      i + 1
  }

  lemma {:induction false} FindAt(u: string, c: char, v: string)
    requires c !in u
    ensures Find(u + [c] + v, c) == |u|
  {
    if u != [] {
      FindAt(u[1..], c, v);
      assert (u + [c] + v)[1..] == u[1..] + [c] + v;
    }
  }

  lemma FindNone(s: string, c: char)
    requires c !in s
    ensures Find(s, c) == |s|
  {
  }

  /** `str::split` at a character: there is always a piece. */
  function Split(s: string, c: char): (r: seq<string>)
    ensures |r| > 0
    decreases |s|
  {
    var i := Find(s, c);
    if i == |s| then [s] else [s[..i]] + Split(s[i + 1..], c)
  }

  lemma {:induction false} PiecesHaveNone(s: string, c: char)
    ensures forall p :: p in Split(s, c) ==> c !in p
    decreases |s|
  {
    var i := Find(s, c);
    assert s[..|s|] == s;
    if i < |s| {
      PiecesHaveNone(s[i + 1..], c);
    }
  }

  function Digit(d: nat): (c: char)
    requires d < 10
    ensures '0' <= c <= '9'
  {
    '0' + (d as char)
  }

  /** Decimal rendering of a natural number, as `format!("{}", n)` prints it. */
  function Show(n: nat): (s: string)
    ensures |s| > 0
    ensures forall i :: 0 <= i < |s| ==> '0' <= s[i] <= '9'
  {
    if n < 10 then [Digit(n)] else Show(n / 10) + [Digit(n % 10)]
  }

  /** Reads a digit string back. */
  function Value(s: string): int {
    if s == [] then 0 else 10 * Value(s[..|s| - 1]) + (s[|s| - 1] as int - '0' as int)
  }

  lemma {:induction false} ValueOfShow(n: nat)
    ensures Value(Show(n)) == n
  {
    if n < 10 {
      assert Show(n)[..|Show(n)| - 1] == [];
    } else {
      ValueOfShow(n / 10);
      assert Show(n)[..|Show(n)| - 1] == Show(n / 10);
    }
  }
}

/** Bodies are byte strings holding UTF-8, as Rust's `str` is. */
module Utf8 {
  type Byte = int  // nothing below depends on the range 0..255
  type Bytes = seq<Byte>

  const TAB: Byte := 9
  const NEWLINE: Byte := 10
  const SPACE: Byte := 32

  /** A byte that continues a multi-byte character. */
  predicate Continuation(b: Byte) {
    0x80 <= b < 0xC0
  }

  /** `str::is_char_boundary`. */
  predicate CharBoundary(s: Bytes, i: nat) {
    i == 0 || i == |s| || (i < |s| && !Continuation(s[i]))
  }

  /** What the proofs use of UTF-8 validity: a character is at most four bytes long, so at most
      three continuation bytes follow one another, and a continuation byte never follows ASCII. */
  ghost predicate WellFormed(s: Bytes) {
    && (s != [] ==> !Continuation(s[0]))
    && (forall i :: 0 < i < |s| && Continuation(s[i]) ==> s[i - 1] >= 0x80)
    && (forall i :: 0 <= i && i + 3 < |s| && Continuation(s[i]) && Continuation(s[i + 1]) && Continuation(s[i + 2])
                    ==> !Continuation(s[i + 3]))
  }

  predicate WideSpace(a: Byte, b: Byte, c: Byte) {
    || (a == 0xE1 && b == 0x9A && c == 0x80)
    || (a == 0xE2 && b == 0x80 && (0x80 <= c <= 0x8A || c == 0xA8 || c == 0xA9 || c == 0xAF))
    || (a == 0xE2 && b == 0x81 && c == 0x9F)
    || (a == 0xE3 && b == 0x80 && c == 0x80)
  }

  /** Byte length of the white-space character that starts `s`, 0 if there is none
      (the characters of Unicode's White_Space property). */
  function SpaceLen(s: Bytes): (k: nat)
    ensures k <= |s|
  {
    if |s| >= 1 && (9 <= s[0] <= 13 || s[0] == SPACE) then 1
    else if |s| >= 2 && s[0] == 0xC2 && (s[1] == 0x85 || s[1] == 0xA0) then 2
    else if |s| >= 3 && WideSpace(s[0], s[1], s[2]) then 3
    else 0
  }

  /** Byte length of the white-space character that ends `s`. */
  function SpaceLenBack(s: Bytes): (k: nat)
    ensures k <= |s|
  {
    if |s| >= 1 && SpaceLen(s[|s| - 1..]) == 1 then 1
    else if |s| >= 2 && SpaceLen(s[|s| - 2..]) == 2 then 2
    else if |s| >= 3 && SpaceLen(s[|s| - 3..]) == 3 then 3
    else 0
  }

  function TrimStart(s: Bytes): Bytes
    decreases |s|
  {
    var k := SpaceLen(s);
    if k == 0 then s else TrimStart(s[k..])
  }

  function TrimEnd(s: Bytes): Bytes
    decreases |s|
  {
    var k := SpaceLenBack(s);
    if k == 0 then s else TrimEnd(s[..|s| - k])
  }

  function Trim(s: Bytes): Bytes {
    TrimEnd(TrimStart(s))
  }

  /** White-space characters and nothing else. */
  predicate AllSpace(s: Bytes)
    decreases |s|
  {
    s == [] || (SpaceLen(s) > 0 && AllSpace(s[SpaceLen(s)..]))
  }

  lemma SpaceLenOfPrefix(s: Bytes, a: nat)
    requires a <= |s|
    ensures SpaceLen(s[..a]) > 0 ==> SpaceLen(s) == SpaceLen(s[..a])
    ensures 0 < SpaceLen(s) <= a ==> SpaceLen(s[..a]) == SpaceLen(s)
  {
  }

  lemma {:induction false} AllSpaceConcat(s: Bytes, t: Bytes)
    requires AllSpace(s) && AllSpace(t)
    ensures AllSpace(s + t)
    decreases |s|
  {
    hide SpaceLen;
    if s == [] {
      assert s + t == t;
    } else {
      var k := SpaceLen(s);
      AllSpaceConcat(s[k..], t);
      assert (s + t)[..|s|] == s && (s + t)[k..] == s[k..] + t;
      SpaceLenOfPrefix(s + t, |s|);
    }
  }

  lemma LastSpaceIsOne(s: Bytes)
    ensures AllSpace(s[|s| - SpaceLenBack(s)..])
  {
    var k := SpaceLenBack(s);
    var t := s[|s| - k..];
    assert |t| == k && (k > 0 ==> SpaceLen(t) == k && t[k..] == []);
  }

  /** What is cut off in front is white space, and all that there is of it. */
  lemma {:induction false} TrimStartCuts(s: Bytes) returns (a: nat)
    ensures a <= |s| && TrimStart(s) == s[a..] && AllSpace(s[..a]) && SpaceLen(s[a..]) == 0
    decreases |s|
  {
    hide SpaceLen;
    var k := SpaceLen(s);
    if k == 0 {
      a := 0;
      assert s[0..] == s;
    } else {
      var b := TrimStartCuts(s[k..]);
      a := k + b;
      SpaceLenOfPrefix(s, a);
      assert s[..a][k..] == s[k..][..b] && s[a..] == s[k..][b..];
    }
  }

  /** What is cut off behind is white space, and all that there is of it. */
  lemma {:induction false} TrimEndCuts(s: Bytes) returns (b: nat)
    ensures b <= |s| && TrimEnd(s) == s[..b] && AllSpace(s[b..]) && SpaceLenBack(s[..b]) == 0
    decreases |s|
  {
    hide SpaceLenBack, AllSpace;
    var k := SpaceLenBack(s);
    if k == 0 {
      b := |s|;
      assert s[..b] == s && AllSpace(s[b..]) by { NothingIsSpace(s[b..]); }
    } else {
      b := TrimEndCuts(s[..|s| - k]);
      LastSpaceIsOne(s);
      AllSpaceConcat(s[..|s| - k][b..], s[|s| - k..]);
      assert s[b..] == s[..|s| - k][b..] + s[|s| - k..] && s[..b] == s[..|s| - k][..b];
    }
  }

  lemma NothingIsSpace(s: Bytes)
    requires s == []
    ensures AllSpace(s)
  {
  }

  /** Trimming keeps a slice that neither begins nor ends with white space, and cuts off white space
      only. */
  lemma TrimCuts(s: Bytes) returns (a: nat, b: nat)
    ensures a <= b <= |s| && Trim(s) == s[a..b]
    ensures AllSpace(s[..a]) && AllSpace(s[b..])
    ensures SpaceLen(Trim(s)) == 0 && SpaceLenBack(Trim(s)) == 0
  {
    hide TrimStart, TrimEnd, SpaceLen, AllSpace, SpaceLenBack;
    a := TrimStartCuts(s);
    var n := TrimEndCuts(s[a..]);
    b := a + n;
    assert s[a..][..n] == s[a..b] && s[a..][n..] == s[b..];
    SpaceLenOfPrefix(s[a..], n);
  }
}
