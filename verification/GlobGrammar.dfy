/** What the bytes of a pattern spell: the documented grammar as a relation between patterns and tokens, and its
    agreement with the reader of Glob. Characters of a class are spelled in UTF-8. */
module GlobGrammar {
  import opened Bytes
  import opened Glob

  // ----- characters

  predicate IsScalar(r: int) {
    0 <= r < 0xD800 || 0xE000 <= r < 0x110000
  }

  /** The UTF-8 form of a character. */
  function EncodeRune(r: int): (s: Str)
    requires IsScalar(r)
    ensures s != []
  {
    if r < 0x80 then [r]
    else if r < 0x800 then [0xC0 + r / 64, 0x80 + r % 64]
    else if r < 0x10000 then [0xE0 + r / 4096, 0x80 + r / 64 % 64, 0x80 + r % 64]
    else [0xF0 + r / 262144, 0x80 + r / 4096 % 64, 0x80 + r / 64 % 64, 0x80 + r % 64]
  }

  lemma LastDigit(q: int, d: int)
    requires 0 <= d < 64
    ensures (q * 64 + d) / 64 == q && (q * 64 + d) % 64 == d
  {}

  lemma DropTwo(r: int)
    requires r >= 0
    ensures r / 4096 == r / 64 / 64 && r / 262144 == r / 64 / 64 / 64
  {}

  lemma Digits64(a: int, b: int, c: int, d: int)
    requires 0 <= a && 0 <= b < 64 && 0 <= c < 64 && 0 <= d < 64
    ensures var r := a * 262144 + b * 4096 + c * 64 + d;
            r / 262144 == a && r / 4096 % 64 == b && r / 64 % 64 == c && r % 64 == d
  {
    var r := a * 262144 + b * 4096 + c * 64 + d;
    DropTwo(r);
    LastDigit((a * 64 + b) * 64 + c, d);
    LastDigit(a * 64 + b, c);
    LastDigit(a, b);
  }

  lemma SplitRune(r: int)
    requires 0 <= r
    ensures r == r / 262144 * 262144 + r / 4096 % 64 * 4096 + r / 64 % 64 * 64 + r % 64
  {
    DropTwo(r);
    var x := r / 64;
    var y := x / 64;
    assert r == x * 64 + r % 64 && x == y * 64 + x % 64 && y == y / 64 * 64 + y % 64;
  }

  lemma DecodeTwo(s: Str, b: int, c: int)
    requires |s| >= 2 && 2 <= b < 32 && 0 <= c < 64 && s[0] == 0xC0 + b && s[1] == 0x80 + c
    ensures DecodeRune(s) == Rune(b * 64 + c, 2)
  {}

  lemma DecodeThree(s: Str, a: int, b: int, c: int)
    requires |s| >= 3 && 0 <= a < 16 && 0 <= b < 64 && 0 <= c < 64
    requires a * 64 + b >= 32 && (a == 13 ==> b < 32)
    requires s[0] == 0xE0 + a && s[1] == 0x80 + b && s[2] == 0x80 + c
    ensures DecodeRune(s) == Rune(a * 4096 + b * 64 + c, 3)
  {}

  lemma DecodeFour(s: Str, a: int, b: int, c: int, d: int)
    requires |s| >= 4 && 0 <= a <= 4 && 0 <= b < 64 && 0 <= c < 64 && 0 <= d < 64
    requires a * 64 + b >= 16 && (a == 4 ==> b < 16)
    requires s[0] == 0xF0 + a && s[1] == 0x80 + b && s[2] == 0x80 + c && s[3] == 0x80 + d
    ensures DecodeRune(s) == Rune(a * 262144 + b * 4096 + c * 64 + d, 4)
  {}

  /** Decoding undoes encoding ... */
  lemma DecodeEncoded(r: int, rest: Str)
    requires IsScalar(r)
    ensures DecodeRune(EncodeRune(r) + rest) == Rune(r, |EncodeRune(r)|)
  {
    var e := EncodeRune(r);
    var s := e + rest;
    assert forall i :: 0 <= i < |e| ==> s[i] == e[i];
    SplitRune(r);
    DropTwo(r);
    if r >= 0x80 {
      hide DecodeRune;
      if r < 0x800 {
        DecodeTwo(s, r / 64, r % 64);
      } else if r < 0x10000 {
        DecodeThree(s, r / 4096, r / 64 % 64, r % 64);
      } else {
        DecodeFour(s, r / 262144, r / 4096 % 64, r / 64 % 64, r % 64);
      }
    }
  }

  /** ... and whatever it decodes without an error is the encoding of a character. */
  lemma EncodeDecoded(s: Str)
    requires s != [] && DecodeRune(s) != Rune(RUNE_ERROR, 1)
    ensures var r := DecodeRune(s);
            IsScalar(r.value) && |EncodeRune(r.value)| == r.width && EncodeRune(r.value) <= s
  {
    var w := DecodeRune(s).width;
    assert 1 <= w <= 4;
    if w == 2 { EncodeTwo(s); } else if w == 3 { EncodeThree(s); } else if w == 4 { EncodeFour(s); }
  }

  lemma EncodeTwo(s: Str)
    requires s != [] && DecodeRune(s).width == 2
    ensures var r := DecodeRune(s).value; IsScalar(r) && |EncodeRune(r)| == 2 && EncodeRune(r) <= s
  {
    Digits64(0, 0, s[0] - 0xC0, Low6(s[1]));
  }

  lemma EncodeThree(s: Str)
    requires s != [] && DecodeRune(s).width == 3
    ensures var r := DecodeRune(s).value; IsScalar(r) && |EncodeRune(r)| == 3 && EncodeRune(r) <= s
  {
    Digits64(0, s[0] - 0xE0, Low6(s[1]), Low6(s[2]));
  }

  lemma EncodeFour(s: Str)
    requires s != [] && DecodeRune(s).width == 4
    ensures var r := DecodeRune(s).value; IsScalar(r) && |EncodeRune(r)| == 4 && EncodeRune(r) <= s
  {
    Digits64(s[0] - 0xF0, Low6(s[1]), Low6(s[2]), Low6(s[3]));
  }

  // ----- the grammar

  /** A character of a class: itself, or escaped. */
  ghost predicate MemberSpells(s: Str, r: int) {
    IsScalar(r) && (s == [BACKSLASH] + EncodeRune(r)
                    || (s == EncodeRune(r) && s[0] != BACKSLASH && s[0] != DASH && s[0] != CLOSE))
  }

  /** One character, or the first and the last of a range with a dash between them. */
  ghost predicate RangeSpells(s: Str, range: (int, int)) {
    || (range.0 == range.1 && MemberSpells(s, range.0))
    || exists a, b :: s == a + [DASH] + b && MemberSpells(a, range.0) && MemberSpells(b, range.1)
  }

  ghost predicate RangesSpell(s: Str, ranges: seq<(int, int)>)
    decreases |ranges|
  {
    if ranges == [] then s == []
    else exists a, b :: s == a + b && RangeSpells(a, ranges[0]) && RangesSpell(b, ranges[1..])
  }

  /** A bracket, perhaps a caret, one range or more, and the closing bracket. */
  ghost predicate ClassSpells(s: Str, negated: bool, ranges: seq<(int, int)>) {
    exists body :: && s == [OPEN] + (if negated then [CARET] else []) + body + [CLOSE]
                   && ranges != [] && RangesSpell(body, ranges) && (!negated ==> !([CARET] <= body))
  }

  ghost predicate TokSpells(s: Str, t: Tok) {
    match t
    case Star => s == [STAR]
    case Any => s == [QUESTION]
    case Lit(c) =>
      || s == [BACKSLASH, c]
      || (s == [c] && c != STAR && c != QUESTION && c != OPEN && c != BACKSLASH)
    case Class(negated, ranges) => ClassSpells(s, negated, ranges)
  }

  ghost predicate Spells(p: Str, toks: seq<Tok>)
    decreases |toks|
  {
    if toks == [] then p == []
    else exists a, b :: p == a + b && TokSpells(a, toks[0]) && Spells(b, toks[1..])
  }

  // ----- the reader reads characters

  lemma MemberFirst(s: Str, r: int)
    requires MemberSpells(s, r)
    ensures s != [] && s[0] != DASH && s[0] != CLOSE
  {}

  lemma GetEscReads(s: Str, r: int, rest: Str)
    requires MemberSpells(s, r) && rest != []
    ensures GetEsc(s + rest) == Esc(r, rest)
  {
    var e := EncodeRune(r);
    hide DecodeRune, EncodeRune;
    DecodeEncoded(r, rest);
    if s == [BACKSLASH] + e {
      assert (s + rest)[1..] == e + rest;
    }
    assert (e + rest)[|e|..] == rest;
  }

  lemma GetEscSpelled(c: Str) returns (s: Str)
    requires GetEsc(c).Esc?
    ensures c == s + GetEsc(c).rest && MemberSpells(s, GetEsc(c).rune)
  {
    hide DecodeRune, EncodeRune;
    var k := if c[0] == BACKSLASH then 1 else 0;
    var d := c[k..];
    EncodeDecoded(d);
    var r := DecodeRune(d);
    s := c[..k + r.width];
    var e := EncodeRune(r.value);
    assert d[..r.width] == e;
    assert s == c[..k] + e;
    if k == 1 { assert c[..1] == [BACKSLASH]; } else { assert e[0] == c[0]; }
    assert d[r.width..] == c[k + r.width..];
  }

  // ----- ranges

  lemma RangeFirst(s: Str, range: (int, int))
    requires RangeSpells(s, range)
    ensures s != [] && s[0] != DASH && s[0] != CLOSE
  {
    hide MemberSpells;
    if range.0 == range.1 && MemberSpells(s, range.0) {
      MemberFirst(s, range.0);
    } else {
      var a, b :| s == a + [DASH] + b && MemberSpells(a, range.0) && MemberSpells(b, range.1);
      MemberFirst(a, range.0);
    }
  }

  lemma GetRangeReads(s: Str, range: (int, int), rest: Str)
    requires RangeSpells(s, range) && rest != [] && rest[0] != DASH
    ensures GetRange(s + rest) == Range(range.0, range.1, rest)
  {
    hide MemberSpells, GetEsc;
    if range.0 == range.1 && MemberSpells(s, range.0) {
      GetEscReads(s, range.0, rest);
    } else {
      var a, b :| s == a + [DASH] + b && MemberSpells(a, range.0) && MemberSpells(b, range.1);
      var more := [DASH] + (b + rest);
      assert s + rest == a + more && more[1..] == b + rest;
      GetEscReads(a, range.0, more);
      GetEscReads(b, range.1, rest);
    }
  }

  lemma GetRangeSpelled(c: Str) returns (s: Str)
    requires GetRange(c).Range?
    ensures var g := GetRange(c); c == s + g.rest && RangeSpells(s, (g.lo, g.hi))
  {
    hide MemberSpells, GetEsc;
    var lo := GetEsc(c);
    s := GetEscSpelled(c);
    if lo.rest[0] == DASH {
      var b := GetEscSpelled(lo.rest[1..]);
      var a := s;
      s := a + [DASH] + b;
      assert lo.rest == [DASH] + lo.rest[1..];
    }
  }

  // ----- classes

  lemma {:induction false} ParseRangesReads(s: Str, ranges: seq<(int, int)>, n: nat, rest: Str)
    requires RangesSpell(s, ranges) && (n == 0 ==> ranges != [])
    ensures ParseRanges(s + [CLOSE] + rest, n) == ClassBody(ranges, rest)
    decreases |ranges|
  {
    hide RangeSpells, RangesSpell, ParseRanges;
    if ranges == [] {
      NoMoreRanges(s, n, rest);
    } else {
      var a, b := FirstRange(s, ranges);
      ParseRangesReads(b, ranges[1..], n + 1, rest);
      NotDash(b, ranges[1..], rest);
      assert s + [CLOSE] + rest == a + (b + [CLOSE] + rest);
      OneMoreRange(a, ranges[0], n, b + [CLOSE] + rest, ranges[1..], rest);
      assert ranges == [ranges[0]] + ranges[1..];
    }
  }

  lemma NoMoreRanges(s: Str, n: nat, rest: Str)
    requires RangesSpell(s, []) && n > 0
    ensures ParseRanges(s + [CLOSE] + rest, n) == ClassBody([], rest)
  {
    assert (s + [CLOSE] + rest)[1..] == rest;
  }

  lemma FirstRange(s: Str, ranges: seq<(int, int)>) returns (a: Str, b: Str)
    requires RangesSpell(s, ranges) && ranges != []
    ensures s == a + b && RangeSpells(a, ranges[0]) && RangesSpell(b, ranges[1..])
  {
    hide RangeSpells;
    a, b :| s == a + b && RangeSpells(a, ranges[0]) && RangesSpell(b, ranges[1..]);
  }

  lemma OneMoreRange(a: Str, range: (int, int), n: nat, more: Str, ranges: seq<(int, int)>, rest: Str)
    requires RangeSpells(a, range) && more != [] && more[0] != DASH
    requires ParseRanges(more, n + 1) == ClassBody(ranges, rest)
    ensures ParseRanges(a + more, n) == ClassBody([range] + ranges, rest)
  {
    hide RangeSpells, GetRange;
    RangeFirst(a, range);
    GetRangeReads(a, range, more);
    assert (a + more)[0] == a[0];
  }

  lemma NotDash(s: Str, ranges: seq<(int, int)>, rest: Str)
    requires RangesSpell(s, ranges)
    ensures (s + [CLOSE] + rest)[0] != DASH
  {
    if ranges != [] {
      hide RangeSpells, RangesSpell;
      var a, _ := FirstRange(s, ranges);
      RangeFirst(a, ranges[0]);
      assert (s + [CLOSE] + rest)[0] == a[0];
    }
  }

  lemma MoreRanges(a: Str, range: (int, int), b: Str, ranges: seq<(int, int)>)
    requires RangeSpells(a, range) && RangesSpell(b, ranges)
    ensures RangesSpell(a + b, [range] + ranges)
  {
    hide RangeSpells;
    assert ([range] + ranges)[1..] == ranges;
  }

  lemma {:induction false} ParseRangesSpelled(c: Str, n: nat) returns (s: Str)
    requires ParseRanges(c, n).ClassBody?
    ensures var body := ParseRanges(c, n);
            c == s + [CLOSE] + body.rest && RangesSpell(s, body.ranges) && (n == 0 ==> body.ranges != [])
    decreases |c|
  {
    hide RangeSpells, GetRange, RangesSpell;
    if c != [] && c[0] == CLOSE && n > 0 {
      s := [];
      NoRanges();
      assert c == [CLOSE] + c[1..];
    } else {
      var g := GetRange(c);
      var a := GetRangeSpelled(c);
      var tail := ParseRanges(g.rest, n + 1);
      var b := ParseRangesSpelled(g.rest, n + 1);
      assert ParseRanges(c, n) == ClassBody([(g.lo, g.hi)] + tail.ranges, tail.rest);
      hide ParseRanges;
      MoreRanges(a, (g.lo, g.hi), b, tail.ranges);
      s := a + b;
      assert c == a + (b + [CLOSE] + tail.rest);
    }
  }

  lemma NoRanges()
    ensures RangesSpell([], [])
  {}

  // ----- tokens and patterns

  lemma ParseHeadReads(s: Str, t: Tok, rest: Str)
    requires TokSpells(s, t)
    ensures s != [] && ParseHead(s + rest) == Head(t, rest)
  {
    hide ClassSpells, ParseRanges;
    match t
    case Class(negated, ranges) =>
      ClassReads(s, negated, ranges, rest);
    case _ =>
      assert (s + rest)[|s|..] == rest;
  }

  lemma ClassReads(s: Str, negated: bool, ranges: seq<(int, int)>, rest: Str)
    requires ClassSpells(s, negated, ranges)
    ensures s != [] && ParseHead(s + rest) == Head(Class(negated, ranges), rest)
  {
    hide RangesSpell, ParseRanges;
    var caret: Str := if negated then [CARET] else [];
    var body :| && s == [OPEN] + caret + body + [CLOSE]
                && ranges != [] && RangesSpell(body, ranges) && (!negated ==> !([CARET] <= body));
    RangesFirst(body, ranges);
    ParseRangesReads(body, ranges, 0, rest);
    var p, q := s + rest, body + [CLOSE] + rest;
    assert p == [OPEN] + caret + q;
    if negated {
      assert p[1] == CARET && p[2..] == q;
    } else {
      assert p[1] == body[0] && p[1..] == q;
    }
  }

  lemma RangesFirst(s: Str, ranges: seq<(int, int)>)
    requires RangesSpell(s, ranges) && ranges != []
    ensures s != []
  {
    hide RangeSpells, RangesSpell;
    var a, _ := FirstRange(s, ranges);
    RangeFirst(a, ranges[0]);
  }

  lemma ParseHeadSpelled(p: Str) returns (s: Str)
    requires p != [] && ParseHead(p).Head?
    ensures p == s + ParseHead(p).rest && TokSpells(s, ParseHead(p).tok)
  {
    hide RangesSpell, ParseRanges;
    var h := ParseHead(p);
    if p[0] == OPEN {
      var negated := |p| > 1 && p[1] == CARET;
      var k := if negated then 2 else 1;
      var body := ParseRangesSpelled(p[k..], 0);
      var caret: Str := if negated then [CARET] else [];
      assert p[..k] == [OPEN] + caret;
      s := [OPEN] + caret + body + [CLOSE];
      assert p == p[..k] + p[k..];
      RangesFirst(body, h.tok.ranges);
      assert !negated ==> p[1] == body[0];
    } else {
      s := if p[0] == BACKSLASH then p[..2] else p[..1];
    }
  }

  /** Reading a pattern gives exactly the tokens it spells; a pattern that spells nothing is malformed. */
  lemma ParseIff(p: Str, toks: seq<Tok>)
    ensures ParseToks(p) == Some(toks) <==> Spells(p, toks)
  {
    hide ParseToks, Spells;
    if Spells(p, toks) { ParseReads(p, toks); }
    if ParseToks(p) == Some(toks) { ParseSpelled(p); }
  }

  lemma {:induction false} ParseReads(p: Str, toks: seq<Tok>)
    requires Spells(p, toks)
    ensures ParseToks(p) == Some(toks)
    decreases |toks|
  {
    hide TokSpells, ParseHead;
    if toks != [] {
      var a, b :| p == a + b && TokSpells(a, toks[0]) && Spells(b, toks[1..]);
      ParseHeadReads(a, toks[0], b);
      ParseReads(b, toks[1..]);
      assert toks == [toks[0]] + toks[1..];
    }
  }

  lemma {:induction false} ParseSpelled(p: Str)
    requires ParseToks(p).Some?
    ensures Spells(p, ParseToks(p).value)
    decreases |p|
  {
    hide TokSpells, ParseHead;
    if p != [] {
      var h := ParseHead(p);
      var a := ParseHeadSpelled(p);
      ParseSpelled(h.rest);
      assert ParseToks(p).value[1..] == ParseToks(h.rest).value;
    }
  }

  // ----- what a class denotes

  /** A class denotes the characters of its ranges, or with a caret all others. */
  lemma ClassDenotes(s: Str, negated: bool, ranges: seq<(int, int)>, r: int)
    requires ClassSpells(s, negated, ranges) && IsScalar(r)
    ensures Denotes(s, EncodeRune(r)) <==> (exists i :: 0 <= i < |ranges| && ranges[i].0 <= r <= ranges[i].1) != negated
  {
    hide ClassSpells, ParseToks, DecodeRune, EncodeRune;
    var t := Class(negated, ranges);
    ClassAlone(s, t);
    var name := EncodeRune(r);
    DecodeEncoded(r, []);
    assert name + [] == name;
    OneTok(t, name);
  }

  lemma ClassAlone(s: Str, t: Tok)
    requires TokSpells(s, t)
    ensures ParseToks(s) == Some([t])
  {
    hide TokSpells;
    assert s == s + [] && [t][1..] == [];
    assert Spells(s, [t]);
    ParseReads(s, [t]);
  }

  lemma OneTok(t: Tok, name: Str)
    requires !t.Star? && name != []
    ensures Matches([t], name) <==> Takes(t, name) == |name|
  {
    hide DecodeRune, Takes;
    assert [t][1..] == [];
    var n := Takes(t, name);
    assert name[n..] == [] <==> n == |name|;
  }

  predicate PlainMember(c: byte) {
    c < 0x80 && c != BACKSLASH && c != DASH && c != CLOSE
  }

  lemma PlainSpells(c: byte)
    ensures PlainMember(c) ==> MemberSpells([c], c)
    ensures c < 0x80 ==> MemberSpells([BACKSLASH, c], c)
  {}

  lemma OneRange(s: Str, range: (int, int))
    requires RangeSpells(s, range)
    ensures RangesSpell(s, [range])
  {
    hide RangeSpells;
    assert s == s + [] && [range][1..] == [];
    assert RangesSpell([], [range][1..]);
  }

  /** The forms of the documentation, byte by byte: a range, a list, an escaped member, each also with a caret. */
  lemma ClassForms(lo: byte, hi: byte, c: byte)
    requires PlainMember(lo) && PlainMember(hi) && lo != CARET && c < 0x80
    ensures Denotes([OPEN, lo, DASH, hi, CLOSE], [c]) <==> lo <= c <= hi
    ensures Denotes([OPEN, CARET, lo, DASH, hi, CLOSE], [c]) <==> !(lo <= c <= hi)
    ensures Denotes([OPEN, lo, CLOSE], [c]) <==> c == lo
    ensures Denotes([OPEN, lo, hi, CLOSE], [c]) <==> c == lo || c == hi
    ensures Denotes([OPEN, BACKSLASH, CLOSE, CLOSE], [c]) <==> c == CLOSE
  {
    hide Denotes, MemberSpells;
    PlainSpells(lo);
    PlainSpells(hi);
    PlainSpells(CLOSE);
    var dashed: Str := [lo] + [DASH] + [hi];
    assert RangeSpells(dashed, (lo, hi)) && dashed[0] == lo;
    FormDenotes([OPEN, lo, DASH, hi, CLOSE], false, dashed, (lo, hi), c);
    FormDenotes([OPEN, CARET, lo, DASH, hi, CLOSE], true, dashed, (lo, hi), c);
    FormDenotes([OPEN, lo, CLOSE], false, [lo], (lo, lo), c);
    FormDenotes([OPEN, BACKSLASH, CLOSE, CLOSE], false, [BACKSLASH, CLOSE], (CLOSE, CLOSE), c);
    TwoDenote(lo, hi, c);
  }

  lemma FormDenotes(s: Str, negated: bool, body: Str, range: (int, int), c: byte)
    requires s == [OPEN] + (if negated then [CARET] else []) + body + [CLOSE]
    requires RangeSpells(body, range) && !([CARET] <= body) && c < 0x80
    ensures Denotes(s, [c]) <==> (range.0 <= c <= range.1) != negated
  {
    hide Denotes, RangeSpells;
    OneRange(body, range);
    hide RangesSpell;
    assert ClassSpells(s, negated, [range]);
    ClassDenotes(s, negated, [range], c);
    assert [range][0] == range;
  }

  lemma TwoDenote(x: byte, y: byte, c: byte)
    requires PlainMember(x) && PlainMember(y) && x != CARET && c < 0x80
    ensures Denotes([OPEN, x, y, CLOSE], [c]) <==> c == x || c == y
  {
    hide Denotes, MemberSpells;
    PlainSpells(x);
    PlainSpells(y);
    OneRange([y], (y, y));
    MoreRanges([x], (x, x), [y], [(y, y)]);
    hide RangesSpell;
    var ranges: seq<(int, int)>, body: Str := [(x, x)] + [(y, y)], [x] + [y];
    assert body[0] == x && [OPEN, x, y, CLOSE] == [OPEN] + [] + body + [CLOSE];
    assert ClassSpells([OPEN, x, y, CLOSE], false, ranges);
    ClassDenotes([OPEN, x, y, CLOSE], false, ranges, c);
    assert ranges[0] == (x, x) && ranges[1] == (y, y);
  }
}
