/** Glob patterns: their grammar and their declarative, backtracking meaning.
    Nothing here searches greedily; the matcher of pkg/glob/match.go is in GlobMatch. */
module Glob {
  import opened Bytes

  const STAR: byte := 42       // '*'
  const DASH: byte := 45       // '-'
  const QUESTION: byte := 63   // '?'
  const OPEN: byte := 91       // '['
  const CLOSE: byte := 93      // ']'
  const CARET: byte := 94      // '^'

  const RUNE_ERROR := 0xFFFD

  /** A decoded rune and the number of bytes it took. */
  datatype Rune = Rune(value: int, width: nat)

  predicate Continuation(s: Str, i: nat, lo: int, hi: int) {
    i < |s| && lo <= s[i] <= hi
  }

  function Low6(b: byte): int {
    b as int - 0x80
  }

  /** UTF-8 decoding of the first rune, (RUNE_ERROR, 1) on any malformed sequence. */
  function DecodeRune(s: Str): (r: Rune)
    requires s != []
    ensures 1 <= r.width <= |s|
    ensures s[0] < 0x80 ==> r == Rune(s[0], 1)
    ensures s[0] >= 0x80 ==> r == Rune(RUNE_ERROR, 1) || forall i :: 0 <= i < r.width ==> s[i] >= 0x80
  {
    var b: int := s[0];
    if b < 0x80 then Rune(b, 1)
    else if 0xC2 <= b <= 0xDF && Continuation(s, 1, 0x80, 0xBF) then
      Rune((b - 0xC0) * 64 + Low6(s[1]), 2)
    else if 0xE0 <= b <= 0xEF
         && Continuation(s, 1, if b == 0xE0 then 0xA0 else 0x80, if b == 0xED then 0x9F else 0xBF)
         && Continuation(s, 2, 0x80, 0xBF) then
      Rune((b - 0xE0) * 4096 + Low6(s[1]) * 64 + Low6(s[2]), 3)
    else if 0xF0 <= b <= 0xF4
         && Continuation(s, 1, if b == 0xF0 then 0x90 else 0x80, if b == 0xF4 then 0x8F else 0xBF)
         && Continuation(s, 2, 0x80, 0xBF) && Continuation(s, 3, 0x80, 0xBF) then
      Rune((b - 0xF0) * 262144 + Low6(s[1]) * 4096 + Low6(s[2]) * 64 + Low6(s[3]), 4)
    else Rune(RUNE_ERROR, 1)
  }

  /** A well-decoded rune depends only on the bytes it spans. */
  lemma DecodeLocal(a: Str, x: Str, y: Str)
    requires a + x != []
    requires DecodeRune(a + x).width == |a| && DecodeRune(a + x) != Rune(RUNE_ERROR, 1)
    ensures DecodeRune(a + y) == DecodeRune(a + x)
  {
    assert forall i :: 0 <= i < |a| ==> (a + x)[i] == a[i] && (a + y)[i] == a[i];
  }

  /** No position of the name begins a character of three or four bytes. */
  ghost predicate Narrow(s: Str) {
    forall i :: 0 <= i < |s| ==> DecodeRune(s[i..]).width <= 2
  }

  lemma NarrowSuffix(s: Str, k: nat)
    requires Narrow(s) && k <= |s|
    ensures Narrow(s[k..])
  {
    hide DecodeRune;
    forall i | 0 <= i < |s[k..]| ensures DecodeRune(s[k..][i..]).width <= 2 {
      assert s[k..][i..] == s[k + i..];
    }
  }

  // ----- grammar

  datatype Tok =
    | Star
    | Any
    | Lit(b: byte)
    | Class(negated: bool, ranges: seq<(int, int)>)

  datatype Esc = Esc(rune: int, rest: Str) | BadEsc

  /** A possibly escaped character of a class; something must follow it. */
  function GetEsc(chunk: Str): (e: Esc)
    ensures e.Esc? ==> 0 < |e.rest| < |chunk|
  {
    if chunk == [] || chunk[0] == DASH || chunk[0] == CLOSE then BadEsc
    else
      var c := if chunk[0] == BACKSLASH then chunk[1..] else chunk;
      if c == [] then BadEsc
      else
        var r := DecodeRune(c);
        if r == Rune(RUNE_ERROR, 1) || r.width == |c| then BadEsc
        else Esc(r.value, c[r.width..])
  }

  datatype Range = Range(lo: int, hi: int, rest: Str) | BadRange

  /** One member of a class: a character, or two joined by a dash. */
  function GetRange(c: Str): (r: Range)
    ensures r.Range? ==> 0 < |r.rest| < |c|
  {
    var lo := GetEsc(c);
    if lo.BadEsc? then BadRange
    else if lo.rest[0] == DASH then
      var hi := GetEsc(lo.rest[1..]);
      if hi.BadEsc? then BadRange else Range(lo.rune, hi.rune, hi.rest)
    else Range(lo.rune, lo.rune, lo.rest)
  }

  datatype ClassBody = ClassBody(ranges: seq<(int, int)>, rest: Str) | BadClass

  /** The ranges of a class up to and including its closing bracket;
      `n` ranges have been read already, and at least one is needed. */
  function ParseRanges(c: Str, n: nat): (r: ClassBody)
    ensures r.ClassBody? ==> |r.rest| < |c|
    decreases |c|
  {
    if c != [] && c[0] == CLOSE && n > 0 then ClassBody([], c[1..])
    else
      var g := GetRange(c);
      if g.BadRange? then BadClass
      else
        var tail := ParseRanges(g.rest, n + 1);
        if tail.BadClass? then BadClass
        else ClassBody([(g.lo, g.hi)] + tail.ranges, tail.rest)
  }

  datatype Head = Head(tok: Tok, rest: Str) | BadHead

  /** The first token of a nonempty pattern. */
  function ParseHead(p: Str): (h: Head)
    requires p != []
    ensures h.Head? ==> |h.rest| < |p|
  {
    if p[0] == STAR then Head(Star, p[1..])
    else if p[0] == QUESTION then Head(Any, p[1..])
    else if p[0] == BACKSLASH then
      if |p| < 2 then BadHead else Head(Lit(p[1]), p[2..])
    else if p[0] == OPEN then
      var negated := |p| > 1 && p[1] == CARET;
      var body := ParseRanges(if negated then p[2..] else p[1..], 0);
      if body.BadClass? then BadHead else Head(Class(negated, body.ranges), body.rest)
    else Head(Lit(p[0]), p[1..])
  }

  /** The tokens of a pattern, None when it is malformed. */
  function ParseToks(p: Str): (r: Option<seq<Tok>>)
    decreases |p|
  {
    if p == [] then Some([])
    else
      var h := ParseHead(p);
      if h.BadHead? then None
      else
        var tail := ParseToks(h.rest);
        if tail.None? then None else Some([h.tok] + tail.value)
  }

  // ----- meaning

  predicate InRanges(ranges: seq<(int, int)>, r: int) {
    exists i :: 0 <= i < |ranges| && ranges[i].0 <= r <= ranges[i].1
  }

  /** The number of bytes a token other than a star takes off the front of a name, zero if it does not match:
      a literal takes its byte, a question mark or a class one character. */
  function Takes(t: Tok, s: Str): (n: nat)
    ensures n <= |s|
  {
    if s == [] then 0
    else
      var r := DecodeRune(s);
      match t
      case Star => 0
      case Any => r.width
      case Lit(c) => if s[0] == c then 1 else 0
      case Class(negated, ranges) => if InRanges(ranges, r.value) != negated then r.width else 0
  }

  /** The declarative meaning: a star stands for any stretch of the name. */
  ghost predicate Matches(toks: seq<Tok>, name: Str)
    decreases |toks|
  {
    if toks == [] then name == []
    else if toks[0].Star? then exists k :: 0 <= k <= |name| && Matches(toks[1..], name[k..])
    else Takes(toks[0], name) > 0 && Matches(toks[1..], name[Takes(toks[0], name)..])
  }

  /** `p` is well formed and `name` is one of the names it denotes. */
  ghost predicate Denotes(p: Str, name: Str) {
    ParseToks(p).Some? && Matches(ParseToks(p).value, name)
  }

  // ----- what a token reads is local to it

  /** `rest` is what is left of `c` after some bytes. */
  ghost predicate Leaves(c: Str, rest: Str) {
    exists k :: 0 <= k <= |c| && c[k..] == rest
  }

  lemma LeavesTrans(a: Str, b: Str, c: Str)
    requires Leaves(a, b) && Leaves(b, c)
    ensures Leaves(a, c)
  {
    var j :| 0 <= j <= |a| && a[j..] == b;
    var k :| 0 <= k <= |b| && b[k..] == c;
    assert a[j + k..] == c;
  }

  /** A remainder of `a + x` longer than `x` starts inside `a`. */
  lemma SplitAt(a: Str, x: Str, rest: Str) returns (a1: Str, a2: Str)
    requires |x| <= |rest| && Leaves(a + x, rest)
    ensures a == a1 + a2 && rest == a2 + x
  {
    var k :| 0 <= k <= |a + x| && (a + x)[k..] == rest;
    a1, a2 := a[..k], a[k..];
  }

  lemma Front(c: Str, rest: Str) returns (a: Str)
    requires Leaves(c, rest)
    ensures c == a + rest
  {
    var k :| 0 <= k <= |c| && c[k..] == rest;
    a := c[..k];
  }

  lemma GetEscLeaves(c: Str)
    requires GetEsc(c).Esc?
    ensures Leaves(c, GetEsc(c).rest)
  {
    hide DecodeRune;
    var k := if c[0] == BACKSLASH then 1 else 0;
    assert c[k..][DecodeRune(c[k..]).width..] == c[k + DecodeRune(c[k..]).width..];
  }

  lemma GetRangeLeaves(c: Str)
    requires GetRange(c).Range?
    ensures Leaves(c, GetRange(c).rest)
  {
    hide GetEsc;
    var lo := GetEsc(c);
    GetEscLeaves(c);
    if lo.rest[0] == DASH {
      GetEscLeaves(lo.rest[1..]);
      assert Leaves(lo.rest, lo.rest[1..]);
      LeavesTrans(lo.rest, lo.rest[1..], GetRange(c).rest);
      LeavesTrans(c, lo.rest, GetRange(c).rest);
    }
  }

  lemma {:induction false} ParseRangesLeaves(c: Str, n: nat)
    requires ParseRanges(c, n).ClassBody?
    ensures Leaves(c, ParseRanges(c, n).rest)
    decreases |c|
  {
    hide GetRange;
    if !(c != [] && c[0] == CLOSE && n > 0) {
      var g := GetRange(c);
      GetRangeLeaves(c);
      ParseRangesLeaves(g.rest, n + 1);
      LeavesTrans(c, g.rest, ParseRanges(c, n).rest);
    }
  }

  lemma ParseHeadLeaves(p: Str)
    requires p != [] && ParseHead(p).Head?
    ensures Leaves(p, ParseHead(p).rest)
  {
    hide ParseRanges;
    if p[0] == OPEN {
      var k := if |p| > 1 && p[1] == CARET then 2 else 1;
      ParseRangesLeaves(p[k..], 0);
      assert Leaves(p, p[k..]);
      LeavesTrans(p, p[k..], ParseHead(p).rest);
    }
  }

  lemma GetEscLocal(a: Str, x: Str, y: Str)
    requires x != [] && y != []
    requires GetEsc(a + x).Esc? && GetEsc(a + x).rest == x
    ensures GetEsc(a + y) == Esc(GetEsc(a + x).rune, y)
  {
    hide DecodeRune;
    var k := if (a + x)[0] == BACKSLASH then 1 else 0;
    assert (a + x)[k..] == a[k..] + x && (a + y)[k..] == a[k..] + y;
    DecodeLocal(a[k..], x, y);
    assert (a[k..] + y)[|a| - k..] == y;
  }

  lemma GetRangeLocal(a: Str, x: Str, y: Str)
    requires x != [] && y != [] && x[0] == y[0]
    requires GetRange(a + x).Range? && GetRange(a + x).rest == x
    ensures GetRange(a + y) == Range(GetRange(a + x).lo, GetRange(a + x).hi, y)
  {
    hide GetEsc;
    var lo := GetEsc(a + x);
    if lo.rest[0] == DASH {
      GetEscLeaves(a + x);
      var a1, a2 := SplitAt(a, x, lo.rest);
      GetRangeLocalDashed(a1, a2, x, y);
    } else {
      GetEscLocal(a, x, y);
    }
  }

  lemma GetRangeLocalDashed(a1: Str, a2: Str, x: Str, y: Str)
    requires x != [] && y != []
    requires GetEsc(a1 + a2 + x).Esc? && GetEsc(a1 + a2 + x).rest == a2 + x
    requires a2 != [] && a2[0] == DASH
    requires GetRange(a1 + a2 + x).Range? && GetRange(a1 + a2 + x).rest == x
    ensures GetRange(a1 + a2 + y) == Range(GetRange(a1 + a2 + x).lo, GetRange(a1 + a2 + x).hi, y)
  {
    hide GetEsc;
    assert a1 + a2 + x == a1 + (a2 + x) && a1 + a2 + y == a1 + (a2 + y);
    GetEscLocal(a1, a2 + x, a2 + y);
    assert (a2 + x)[1..] == a2[1..] + x && (a2 + y)[1..] == a2[1..] + y;
    GetEscLocal(a2[1..], x, y);
  }

  lemma {:induction false} ParseRangesLocal(a: Str, n: nat, x: Str, y: Str)
    requires ParseRanges(a + x, n).ClassBody? && ParseRanges(a + x, n).rest == x
    ensures ParseRanges(a + y, n) == ClassBody(ParseRanges(a + x, n).ranges, y)
    decreases |a|
  {
    hide GetRange, Leaves;
    var c := a + x;
    if c[0] == CLOSE && n > 0 {
      assert (a + y)[1..] == y;
    } else {
      var g := GetRange(c);
      GetRangeLeaves(c);
      var a1, a2 := SplitAt(a, x, g.rest);
      assert c == a1 + (a2 + x);
      GetRangeLocal(a1, a2 + x, a2 + y);
      assert a + y == a1 + (a2 + y);
      ParseRangesLocal(a2, n + 1, x, y);
    }
  }

  lemma ParseHeadLocal(a: Str, x: Str, y: Str)
    requires a != [] && ParseHead(a + x).Head? && ParseHead(a + x).rest == x
    ensures ParseHead(a + y) == Head(ParseHead(a + x).tok, y)
  {
    hide ParseRanges;
    var p, q := a + x, a + y;
    assert q[|a|..] == y;
    if p[0] == OPEN {
      var k := if |p| > 1 && p[1] == CARET then 2 else 1;
      assert p[k..] == a[k..] + x && q[k..] == a[k..] + y;
      ParseRangesLocal(a[k..], 0, x, y);
      assert a[k..] != [];
    }
  }

  /** Well-formed patterns concatenate, and so do their tokens. */
  lemma {:induction false} ParseAppend(a: Str, b: Str)
    requires ParseToks(a).Some? && ParseToks(b).Some?
    ensures ParseToks(a + b) == Some(ParseToks(a).value + ParseToks(b).value)
    decreases |a|
  {
    hide ParseHead, Leaves;
    if a == [] {
      assert a + b == b;
      assert ParseToks(a).value + ParseToks(b).value == ParseToks(b).value;
    } else {
      var h := ParseHead(a);
      ParseHeadLeaves(a);
      var a1 := Front(a, h.rest);
      assert a + b == a1 + (h.rest + b);
      ParseHeadLocal(a1, h.rest, h.rest + b);
      ParseAppend(h.rest, b);
      var t := ParseToks(h.rest).value;
      assert [h.tok] + (t + ParseToks(b).value) == ([h.tok] + t) + ParseToks(b).value;
    }
  }
}
