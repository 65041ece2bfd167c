/** Names with characters of several bytes: exactly when the greedy matcher gives the answer that the meaning of
    patterns gives, with stars that skip bytes and with stars that skip characters. */
module GlobRunes {
  import opened Bytes
  import opened Glob
  import opened GlobMatch

  // ----- patterns that spell a string

  function Quote(s: Str): (q: Str)
    ensures |q| == 2 * |s|
  {
    if s == [] then [] else [BACKSLASH, s[0]] + Quote(s[1..])
  }

  function Lits(s: Str): (ts: seq<Tok>)
    ensures |ts| == |s| && forall i :: 0 <= i < |ts| ==> ts[i].Lit?
  {
    if s == [] then [] else [Lit(s[0])] + Lits(s[1..])
  }

  lemma {:induction false} QuoteParses(s: Str)
    ensures ParseToks(Quote(s)) == Some(Lits(s)) && NoStar(Lits(s))
    decreases |s|
  {
    hide ParseRanges;
    if s != [] {
      QuoteParses(s[1..]);
      assert Quote(s)[2..] == Quote(s[1..]);
    }
  }

  lemma {:induction false} LitsTake(s: Str, name: Str)
    ensures TakesAll(Lits(s), name) == if s <= name then Some(|s|) else None
    decreases |s|
  {
    hide DecodeRune;
    if s != [] && name != [] {
      assert Lits(s)[1..] == Lits(s[1..]);
      LitsTake(s[1..], name[1..]);
      assert s == [s[0]] + s[1..] && name == [name[0]] + name[1..];
    }
  }

  /** Literals match the string they spell and no other. */
  lemma LitsMatch(s: Str, vs: seq<Tok>, name: Str)
    ensures Matches(Lits(s) + vs, name) <==> s <= name && Matches(vs, name[|s|..])
    ensures Matches(Lits(s), name) <==> name == s
  {
    hide Matches, TakesAll;
    QuoteParses(s);
    LitsTake(s, name);
    MatchesFront(Lits(s), vs, name);
    MatchesFront(Lits(s), [], name);
    assert Lits(s) + [] == Lits(s);
    if s <= name { MatchesNothing(name[|s|..]); }
  }

  lemma ChunkLenEscape(p: Str)
    requires |p| > 1 && p[0] == BACKSLASH
    ensures ChunkLen(p, false) == 2 + ChunkLen(p[2..], false)
  {}

  lemma {:induction false} ChunkLenQuote(s: Str, t: Str)
    ensures ChunkLen(Quote(s) + t, false) == 2 * |s| + ChunkLen(t, false)
    decreases |s|
  {
    hide ChunkLen;
    if s == [] {
      assert Quote(s) + t == t;
    } else {
      var rest := Quote(s[1..]) + t;
      assert Quote(s) + t == [BACKSLASH, s[0]] + rest;
      ChunkLenEscape([BACKSLASH, s[0]] + rest);
      assert ([BACKSLASH, s[0]] + rest)[2..] == rest;
      ChunkLenQuote(s[1..], t);
    }
  }

  /** A quoted front is matched literally by the matcher ... */
  lemma QuotedFront(pre: Str, t: Str, name: Str)
    requires pre <= name && t != [] && t[0] == STAR
    ensures WildcardMatch(Quote(pre) + t, name) == WildcardMatch(t, name[|pre|..])
  {
    hide ChunkLen, MatchChunk, ParseToks, WildcardMatch, ScanChunk;
    var p, q := Quote(pre) + t, Quote(pre);
    if pre == [] {
      assert p == t && name[0..] == name;
    } else {
      assert q[0] == BACKSLASH;
      FirstChunk(p);
      ChunkUnfolds(p, name);
      ChunkLenQuote(pre, t);
      ChunkLenStop(t);
      assert p[..|q|] == q && p[|q|..] == t;
      QuoteParses(pre);
      LitsTake(pre, name);
      MatchChunkMeaning(q, name);
    }
  }

  /** ... and by the meaning. */
  lemma QuotedFrontDenotes(pre: Str, t: Str, name: Str)
    requires pre <= name && ParseToks(t).Some?
    ensures Denotes(Quote(pre) + t, name) <==> Denotes(t, name[|pre|..])
  {
    hide ParseToks, Matches;
    QuoteParses(pre);
    ParseAppend(Quote(pre), t);
    LitsMatch(pre, ParseToks(t).value, name);
  }

  lemma StarParses(t: Str)
    requires ParseToks(t).Some?
    ensures ParseToks([STAR] + t) == Some([Star] + ParseToks(t).value)
    ensures ParseToks([QUESTION] + t) == Some([Any] + ParseToks(t).value)
  {
    hide ParseRanges;
    assert ([STAR] + t)[1..] == t && ([QUESTION] + t)[1..] == t;
  }

  lemma StarMatches(ts: seq<Tok>, name: Str, k: nat)
    requires k <= |name| && Matches(ts, name[k..])
    ensures Matches([Star] + ts, name)
  {
    assert ([Star] + ts)[1..] == ts;
  }

  lemma AnyMatches(ts: seq<Tok>, name: Str)
    requires name != []
    ensures Matches([Any] + ts, name) <==> Matches(ts, name[DecodeRune(name).width..])
  {
    hide DecodeRune;
    assert ([Any] + ts)[1..] == ts;
  }

  /** A star before a quoted string accepts the names that end in the string. */
  lemma StarQuote(q: Str, s: Str)
    requires q != []
    ensures WildcardMatch([STAR] + Quote(q), s) == Verdict(|q| <= |s| && s[|s| - |q|..] == q)
  {
    hide Matches, ParseToks, DropStars, ChunkLen, WildcardMatch;
    var p := [STAR] + Quote(q);
    QuoteParses(q);
    StarParses(Quote(q));
    StarQuoteChunk(q);
    LastStarIsExact(p, s);
    StarSuffix(q, s);
  }

  lemma StarQuoteChunk(q: Str)
    requires q != []
    ensures ScanChunk([STAR] + Quote(q)) == Chunk(true, Quote(q), [])
  {
    hide ChunkLen;
    var t := Quote(q);
    assert ([STAR] + t)[1..] == t && t[0] == BACKSLASH;
    assert DropStars([STAR] + t) == DropStars(t) == t;
    ChunkLenQuote(q, []);
    ChunkLenStop([]);
    assert t + [] == t && t[..|t|] == t && t[|t|..] == [];
  }

  lemma StarMeans(ts: seq<Tok>, name: Str)
    ensures Matches([Star] + ts, name) <==> exists k :: 0 <= k <= |name| && Matches(ts, name[k..])
  {
    assert ([Star] + ts)[1..] == ts;
    hide DecodeRune, Takes;
  }

  lemma StarSuffix(q: Str, s: Str)
    ensures Matches([Star] + Lits(q), s) <==> |q| <= |s| && s[|s| - |q|..] == q
  {
    hide Matches, Lits;
    StarMeans(Lits(q), s);
    forall k | 0 <= k <= |s| ensures Matches(Lits(q), s[k..]) <==> s[k..] == q { LitsMatch(q, [], s[k..]); }
    if |q| <= |s| && s[|s| - |q|..] == q { assert Matches(Lits(q), s[|s| - |q|..]); }
  }

  // ----- stars that skip bytes

  ghost predicate Agrees(pattern: Str, name: Str) {
    WildcardMatch(pattern, name) == Verdict(true) <==> Denotes(pattern, name)
  }

  /** The bytes of a wide character after the first decode to one byte each. */
  lemma InsideRune(s: Str, i: nat)
    requires s != [] && 1 <= i < DecodeRune(s).width
    ensures DecodeRune(s[i..]).width == 1
  {
    assert 0x80 <= s[i] <= 0xBF;
    assert s[i..][0] == s[i];
  }

  /** A question mark between stars takes a wide character whole and the matcher does not come back for the
      bytes inside it, one of which would do. */
  lemma WideRuneIsMissed(s: Str)
    requires s != [] && DecodeRune(s).width >= 3
    ensures var p := [STAR] + ([QUESTION] + ([STAR] + Quote(s[DecodeRune(s).width - 1..])));
            ParseToks(p).Some? && WildcardMatch(p, s) == Verdict(false) && Denotes(p, s)
  {
    hide DecodeRune, Matches, ParseToks, WildcardMatch, ScanChunk;
    var w := DecodeRune(s).width;
    var q := s[w - 1..];
    var t := [STAR] + Quote(q);
    QuoteParses(q);
    StarParses(Quote(q));
    StarParses(t);
    StarParses([QUESTION] + t);
    // the meaning: skip to the last byte but one of the character
    var u := s[w - 2..];
    InsideRune(s, w - 2);
    assert u[1..] == q && q[0..] == q;
    LitsMatch(q, [], q);
    StarMatches(Lits(q), q, 0);
    AnyMatches([Star] + Lits(q), u);
    StarMatches([Any] + ([Star] + Lits(q)), s, w - 2);
    // the matcher: the character is gone, and what follows it is too short
    StarThenQuestion(t);
    StarUnfolds([STAR] + ([QUESTION] + t), s);
    OneQuestion(s);
    StarQuote(q, s[w..]);
  }

  lemma StarThenQuestion(t: Str)
    requires t == [] || t[0] == STAR
    ensures ScanChunk([STAR] + ([QUESTION] + t)) == Chunk(true, [QUESTION], t)
  {
    var q := [QUESTION] + t;
    assert ([STAR] + q)[1..] == q && q[1..] == t;
    assert DropStars([STAR] + q) == DropStars(q) == q;
    ChunkLenStop(t);
    assert q[..1] == [QUESTION];
  }

  lemma OneQuestion(s: Str)
    requires s != []
    ensures FirstMatch([QUESTION], false, s) == Found(s[DecodeRune(s).width..])
  {
    hide DecodeRune;
    var q: Str := [QUESTION];
    assert q[0] == QUESTION && q[1..] == [];
    assert MatchChunk(q[1..], s[DecodeRune(s).width..]) == Hit(s[DecodeRune(s).width..]);
    assert MatchChunk(q, s) == Hit(s[DecodeRune(s).width..]);
  }

  /** The matcher gives the answer of the meaning on a name, whatever the pattern, if and only if no position of
      the name begins a character of three or four bytes. */
  lemma ExactOnNarrowNames(name: Str)
    ensures (forall pattern :: Agrees(pattern, name)) <==> Narrow(name)
  {
    hide DecodeRune, Denotes, WildcardMatch;
    if Narrow(name) {
      forall pattern ensures Agrees(pattern, name) { MatchIffDenotes(pattern, name); }
    } else {
      var i :| 0 <= i < |name| && DecodeRune(name[i..]).width > 2;
      var s := name[i..];
      var t := [STAR] + ([QUESTION] + ([STAR] + Quote(s[DecodeRune(s).width - 1..])));
      WideRuneIsMissed(s);
      QuotedFront(name[..i], t, name);
      QuotedFrontDenotes(name[..i], t, name);
      assert !Agrees(Quote(name[..i]) + t, name);
    }
  }

  // ----- stars that skip characters

  /** The meaning with stars that stand for any run of whole characters, as the pattern syntax is documented. */
  ghost predicate CharMatches(toks: seq<Tok>, name: Str)
    decreases |toks|, |name|
  {
    if toks == [] then name == []
    else if toks[0].Star? then
      CharMatches(toks[1..], name) || (name != [] && CharMatches(toks, name[DecodeRune(name).width..]))
    else Takes(toks[0], name) > 0 && CharMatches(toks[1..], name[Takes(toks[0], name)..])
  }

  ghost predicate CharDenotes(p: Str, name: Str) {
    ParseToks(p).Some? && CharMatches(ParseToks(p).value, name)
  }

  ghost predicate CharAgrees(pattern: Str, name: Str) {
    WildcardMatch(pattern, name) == Verdict(true) <==> CharDenotes(pattern, name)
  }

  ghost predicate OneByte(s: Str) {
    forall i :: 0 <= i < |s| ==> DecodeRune(s[i..]).width == 1
  }

  lemma OneByteSuffix(s: Str, k: nat)
    requires OneByte(s) && k <= |s|
    ensures OneByte(s[k..])
  {
    hide DecodeRune;
    forall i | 0 <= i < |s[k..]| ensures DecodeRune(s[k..][i..]).width == 1 {
      assert s[k..][i..] == s[k + i..];
    }
  }

  lemma OneByteFirst(s: Str)
    requires OneByte(s) && s != []
    ensures DecodeRune(s).width == 1
  {
    assert s[0..] == s;
  }

  lemma {:induction false} SameMeaning(toks: seq<Tok>, name: Str)
    requires OneByte(name)
    ensures CharMatches(toks, name) <==> Matches(toks, name)
    decreases |toks|, |name|
  {
    hide Takes, OneByte, DecodeRune;
    if toks != [] {
      if toks[0].Star? {
        SameMeaning(toks[1..], name);
        if name != [] {
          OneByteFirst(name);
          OneByteSuffix(name, 1);
          SameMeaning(toks, name[1..]);
        }
        StarStep(toks, name);
      } else {
        OneByteSuffix(name, Takes(toks[0], name));
        SameMeaning(toks[1..], name[Takes(toks[0], name)..]);
      }
    }
  }

  lemma StarStep(toks: seq<Tok>, name: Str)
    requires toks != [] && toks[0].Star?
    ensures Matches(toks, name) <==> Matches(toks[1..], name) || (name != [] && Matches(toks, name[1..]))
  {
    hide Takes;
    assert name[0..] == name;
    if Matches(toks, name) {
      var k :| 0 <= k <= |name| && Matches(toks[1..], name[k..]);
      if k > 0 { assert name[k..] == name[1..][k - 1..]; }
    }
    if name != [] && Matches(toks, name[1..]) {
      var k :| 0 <= k <= |name[1..]| && Matches(toks[1..], name[1..][k..]);
      assert name[1..][k..] == name[k + 1..];
    }
  }

  lemma {:induction false} CharLits(s: Str, vs: seq<Tok>, name: Str)
    ensures CharMatches(Lits(s) + vs, name) <==> s <= name && CharMatches(vs, name[|s|..])
    decreases |s|
  {
    hide DecodeRune;
    if s == [] {
      assert Lits(s) + vs == vs && name[0..] == name;
    } else if name != [] {
      assert (Lits(s) + vs)[1..] == Lits(s[1..]) + vs;
      CharLits(s[1..], vs, name[1..]);
      assert s == [s[0]] + s[1..] && name == [name[0]] + name[1..];
      if s <= name { assert name[1..][|s| - 1..] == name[|s|..]; }
    }
  }

  lemma {:induction false} CharTooShort(q: Str, s: Str)
    requires |s| < |q|
    ensures !CharMatches([Star] + Lits(q), s)
    decreases |s|
  {
    hide DecodeRune, Takes;
    assert ([Star] + Lits(q))[1..] == Lits(q) && Lits(q) + [] == Lits(q);
    CharLits(q, [], s);
    if s != [] { CharTooShort(q, s[DecodeRune(s).width..]); }
  }

  /** A star may stop inside a character, so a name that ends in the last byte of one is accepted for that byte. */
  lemma InsideRuneIsAccepted(s: Str)
    requires s != [] && DecodeRune(s).width >= 2
    ensures var p := [STAR] + Quote(s[DecodeRune(s).width - 1..]);
            ParseToks(p).Some? && WildcardMatch(p, s) == Verdict(true) && !CharDenotes(p, s)
  {
    hide DecodeRune, ParseToks, WildcardMatch, Takes;
    var w := DecodeRune(s).width;
    var q := s[w - 1..];
    QuoteParses(q);
    StarParses(Quote(q));
    StarQuote(q, s);
    assert ([Star] + Lits(q))[1..] == Lits(q) && Lits(q) + [] == Lits(q);
    CharLits(q, [], s);
    CharTooShort(q, s[w..]);
  }

  lemma OneByteAgrees(pattern: Str, name: Str)
    requires OneByte(name)
    ensures CharAgrees(pattern, name)
  {
    hide WildcardMatch, ParseToks, CharMatches, Matches;
    OneByteIsNarrow(name);
    MatchIffDenotes(pattern, name);
    if ParseToks(pattern).Some? { SameMeaning(ParseToks(pattern).value, name); }
  }

  lemma OneByteIsNarrow(name: Str)
    requires OneByte(name)
    ensures Narrow(name)
  {
    hide DecodeRune;
  }

  lemma SeveralBytesDisagree(name: Str, i: nat)
    requires i < |name| && DecodeRune(name[i..]).width != 1
    ensures !CharAgrees(Quote(name[..i]) + ([STAR] + Quote(name[i..][DecodeRune(name[i..]).width - 1..])), name)
  {
    hide DecodeRune, WildcardMatch, ParseToks, CharMatches;
    var s, pre := name[i..], name[..i];
    var t := [STAR] + Quote(s[DecodeRune(s).width - 1..]);
    InsideRuneIsAccepted(s);
    QuotedFront(pre, t, name);
    QuoteParses(pre);
    ParseAppend(Quote(pre), t);
    CharLits(pre, ParseToks(t).value, name);
  }

  /** The matcher gives the answer of the documented, character-wise meaning on a name, whatever the pattern,
      if and only if every position of the name begins a character of one byte. */
  lemma ExactByCharacter(name: Str)
    ensures (forall pattern :: CharAgrees(pattern, name)) <==> OneByte(name)
  {
    hide DecodeRune, CharAgrees;
    if OneByte(name) {
      forall pattern ensures CharAgrees(pattern, name) { OneByteAgrees(pattern, name); }
    } else {
      var i :| 0 <= i < |name| && DecodeRune(name[i..]).width != 1;
      SeveralBytesDisagree(name, i);
    }
  }

  /** A single character of three or four bytes is accepted by `*??`, which asks for two characters. */
  lemma WideRuneCountsAsTwo(name: Str)
    requires name != [] && DecodeRune(name).width == |name| >= 3
    ensures var p := [STAR] + ([QUESTION] + ([QUESTION] + []));
            ParseToks(p).Some? && WildcardMatch(p, name) == Verdict(true) && !CharDenotes(p, name)
  {
    hide DecodeRune, ParseToks, WildcardMatch, Takes, ScanChunk, Matches;
    var n := |name|;
    var two := [Any] + ([Any] + []);
    EmptyPattern();
    StarParses([]);
    StarParses([QUESTION] + []);
    StarParses([QUESTION] + ([QUESTION] + []));
    var u, v := name[n - 2..], name[n - 1..];
    InsideRune(name, n - 2);
    InsideRune(name, n - 1);
    assert u[1..] == v && v[1..] == [];
    MatchesNothing([]);
    AnyMatches([], v);
    AnyMatches([Any] + [], u);
    StarMatches(two, name, n - 2);
    TwoQuestions();
    LastStarIsExact([STAR] + ([QUESTION] + ([QUESTION] + [])), name);
    NotTwoCharacters(name);
  }

  lemma TwoQuestions()
    ensures ScanChunk([STAR] + ([QUESTION] + ([QUESTION] + []))) == Chunk(true, [QUESTION] + ([QUESTION] + []), [])
  {
    var r: Str := [QUESTION] + [];
    var q := [QUESTION] + r;
    assert ([STAR] + q)[1..] == q && q[1..] == r && r[1..] == [];
    assert DropStars([STAR] + q) == DropStars(q) == q;
    assert ChunkLen(r, false) == 1 && ChunkLen(q, false) == 2;
    assert q[..2] == q && q[2..] == [];
  }

  lemma NotTwoCharacters(name: Str)
    requires name != [] && DecodeRune(name).width == |name|
    ensures !CharMatches([Star] + ([Any] + ([Any] + [])), name)
  {
    hide DecodeRune;
    var one := [Any] + [];
    var two := [Any] + one;
    assert ([Star] + two)[1..] == two && two[1..] == one && one[1..] == [];
    assert name[|name|..] == [];
    assert !CharMatches(one, []) && !CharMatches(two, []) && !CharMatches([Star] + two, []);
  }
}
