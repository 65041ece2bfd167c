/** The greedy chunk matcher of pkg/glob/match.go, and its agreement with the backtracking meaning. */
module GlobMatch {
  import opened Bytes
  import opened Glob

  // ----- the matcher as functions: what the loops of GlobLoops compute

  datatype ClassScan = ClassScan(hit: bool, rest: Str) | BadScan

  /** Reads the ranges of a class, noting whether one of them holds the rune `r`. */
  function ScanRanges(c: Str, r: int, hit: bool, n: nat): (res: ClassScan)
    ensures res.ClassScan? ==> |res.rest| < |c|
    decreases |c|
  {
    if c != [] && c[0] == CLOSE && n > 0 then ClassScan(hit, c[1..])
    else
      var g := GetRange(c);
      if g.BadRange? then BadScan
      else ScanRanges(g.rest, r, hit || g.lo <= r <= g.hi, n + 1)
  }

  datatype ChunkResult = Hit(rest: Str) | Miss | BadChunk

  /** Matches a star-free chunk at the front of `s`. */
  function MatchChunk(chunk: Str, s: Str): ChunkResult
    decreases |chunk|
  {
    if chunk == [] then Hit(s)
    else if s == [] then Miss
    else if chunk[0] == OPEN then
      var rune := DecodeRune(s);
      if |chunk| == 1 then BadChunk
      else
        var negated := chunk[1] == CARET;
        var scan := ScanRanges(chunk[if negated then 2 else 1..], rune.value, false, 0);
        if scan.BadScan? then BadChunk
        else if scan.hit == negated then Miss
        else MatchChunk(scan.rest, s[rune.width..])
    else if chunk[0] == QUESTION then MatchChunk(chunk[1..], s[DecodeRune(s).width..])
    else if chunk[0] == BACKSLASH then
      if |chunk| == 1 then BadChunk
      else if chunk[1] != s[0] then Miss
      else MatchChunk(chunk[2..], s[1..])
    else if chunk[0] != s[0] then Miss
    else MatchChunk(chunk[1..], s[1..])
  }

  function DropStars(p: Str): (q: Str)
    ensures |q| <= |p| && (q == [] || q[0] != STAR)
    ensures |q| == |p| ==> q == p
    decreases |p|
  {
    if p != [] && p[0] == STAR then DropStars(p[1..]) else p
  }

  /** The length of the stretch before the next star that is outside brackets. */
  function ChunkLen(p: Str, inrange: bool): (n: nat)
    ensures n <= |p|
    ensures p != [] && p[0] != STAR ==> n > 0
    decreases |p|
  {
    if p == [] then 0
    else if p[0] == BACKSLASH then
      if |p| > 1 then 2 + ChunkLen(p[2..], inrange) else 1
    else if p[0] == OPEN then 1 + ChunkLen(p[1..], true)
    else if p[0] == CLOSE then 1 + ChunkLen(p[1..], false)
    else if p[0] == STAR && !inrange then 0
    else 1 + ChunkLen(p[1..], inrange)
  }

  datatype Chunk = Chunk(star: bool, chunk: Str, rest: Str)

  function ScanChunk(p: Str): (c: Chunk)
    requires p != []
    ensures |c.rest| < |p|
    ensures c.chunk == [] ==> c.star && c.rest == []
  {
    var q := DropStars(p);
    var n := ChunkLen(q, false);
    Chunk(|q| < |p|, q[..n], q[n..])
  }

  datatype Skip = Found(rest: Str) | NotFound | BadSkip

  /** The first later position where the chunk matches; the last chunk must use up the name. */
  function SkipMatch(chunk: Str, last: bool, name: Str): Skip
    decreases |name|
  {
    if name == [] then NotFound
    else
      var m := MatchChunk(chunk, name[1..]);
      if m.Hit? && (m.rest == [] || !last) then Found(m.rest)
      else if m.BadChunk? then BadSkip
      else SkipMatch(chunk, last, name[1..])
  }

  datatype Outcome = Verdict(matched: bool) | BadPattern

  function WildcardMatch(pattern: Str, name: Str): Outcome
    decreases |pattern|
  {
    if pattern == [] then Verdict(name == [])
    else
      var c := ScanChunk(pattern);
      if c.star && c.chunk == [] then Verdict(true)
      else
        var m := MatchChunk(c.chunk, name);
        if m.Hit? && (m.rest == [] || c.rest != []) then WildcardMatch(c.rest, m.rest)
        else if m.BadChunk? then BadPattern
        else if c.star then
          var k := SkipMatch(c.chunk, c.rest == [], name);
          if k.Found? then WildcardMatch(c.rest, k.rest)
          else if k.BadSkip? then BadPattern
          else Verdict(false)
        else Verdict(false)
  }

  // ----- the chunk boundaries agree with the grammar

  lemma {:induction false} ChunkLenHigh(c: Str, n: nat, inrange: bool)
    requires n <= |c| && forall i :: 0 <= i < n ==> c[i] >= 0x80
    ensures ChunkLen(c, inrange) == n + ChunkLen(c[n..], inrange)
    decreases n
  {
    if n > 0 {
      ChunkLenHigh(c[1..], n - 1, inrange);
      assert c[1..][n - 1..] == c[n..];
    } else {
      assert c[0..] == c;
    }
  }

  lemma ChunkLenEsc(c: Str)
    requires GetEsc(c).Esc?
    ensures ChunkLen(c, true) == |c| - |GetEsc(c).rest| + ChunkLen(GetEsc(c).rest, true)
  {
    hide DecodeRune;
    if c[0] == BACKSLASH {
      var w := DecodeRune(c[1..]).width;
      if w > 1 {
        ChunkLenHigh(c[2..], w - 1, true) by {
          forall i | 0 <= i < w - 1 ensures c[2..][i] >= 0x80 { assert c[2..][i] == c[1..][i + 1]; }
        }
        assert c[2..][w - 1..] == c[1..][w..];
      } else {
        assert c[1..][1..] == c[2..];
      }
    } else {
      var w := DecodeRune(c).width;
      if c[0] >= 0x80 {
        ChunkLenHigh(c, w, true);
      }
    }
  }

  lemma ChunkLenRange(c: Str)
    requires GetRange(c).Range?
    ensures ChunkLen(c, true) == |c| - |GetRange(c).rest| + ChunkLen(GetRange(c).rest, true)
  {
    hide GetEsc;
    var lo := GetEsc(c);
    ChunkLenEsc(c);
    if lo.rest[0] == DASH {
      ChunkLenEsc(lo.rest[1..]);
    }
  }

  lemma {:induction false} ChunkLenRanges(c: Str, n: nat)
    requires ParseRanges(c, n).ClassBody?
    ensures ChunkLen(c, true) == |c| - |ParseRanges(c, n).rest| + ChunkLen(ParseRanges(c, n).rest, false)
    decreases |c|
  {
    hide GetRange;
    if !(c != [] && c[0] == CLOSE && n > 0) {
      ChunkLenRange(c);
      ChunkLenRanges(GetRange(c).rest, n + 1);
    }
  }

  lemma ChunkLenHead(p: Str)
    requires p != [] && p[0] != STAR && ParseHead(p).Head?
    ensures ChunkLen(p, false) == |p| - |ParseHead(p).rest| + ChunkLen(ParseHead(p).rest, false)
  {
    hide ParseRanges;
    if p[0] == OPEN {
      if |p| > 1 && p[1] == CARET {
        assert p[1..][1..] == p[2..];
        ChunkLenRanges(p[2..], 0);
      } else {
        ChunkLenRanges(p[1..], 0);
      }
    }
  }

  ghost predicate NoStar(toks: seq<Tok>) {
    forall i :: 0 <= i < |toks| ==> !toks[i].Star?
  }

  /** Cutting a well-formed pattern at a chunk boundary cuts its tokens at a star. */
  lemma {:induction false} ChunkParses(q: Str)
    requires ParseToks(q).Some?
    ensures var n := ChunkLen(q, false);
            && ParseToks(q[..n]).Some? && NoStar(ParseToks(q[..n]).value)
            && ParseToks(q[n..]).Some? && (q[n..] == [] || q[n] == STAR)
            && ParseToks(q).value == ParseToks(q[..n]).value + ParseToks(q[n..]).value
    decreases |q|
  {
    hide ParseHead, ChunkLen, Leaves;
    var n := ChunkLen(q, false);
    if q == [] || q[0] == STAR {
      ChunkLenStop(q);
      assert q[n..] == q && q[..n] == [];
    } else {
      var h := ParseHead(q);
      var r := h.rest;
      ParseHeadLeaves(q);
      var a := Front(q, r);
      ChunkLenHead(q);
      ChunkParses(r);
      var m := ChunkLen(r, false);
      assert n == |a| + m;
      assert q[..n] == a + r[..m] && q[n..] == r[m..];
      ParseHeadLocal(a, r, r[..m]);
      HeadIsStar(q);
      var us := ParseToks(r[..m]).value;
      assert ParseToks(q[..n]).value == [h.tok] + us;
      assert ([h.tok] + us) + ParseToks(r[m..]).value == [h.tok] + (us + ParseToks(r[m..]).value);
    }
  }

  lemma ChunkLenStop(q: Str)
    requires q == [] || q[0] == STAR
    ensures ChunkLen(q, false) == 0
  {}

  lemma HeadIsStar(q: Str)
    requires q != [] && ParseHead(q).Head?
    ensures ParseHead(q).tok.Star? <==> q[0] == STAR
  {
    hide ParseRanges;
  }

  // ----- a chunk against the front of a name

  lemma {:induction false} ScanRangesMeaning(c: Str, r: int, hit: bool, n: nat)
    ensures ScanRanges(c, r, hit, n).BadScan? <==> ParseRanges(c, n).BadClass?
    ensures ParseRanges(c, n).ClassBody? ==>
              ScanRanges(c, r, hit, n) ==
                ClassScan(hit || InRanges(ParseRanges(c, n).ranges, r), ParseRanges(c, n).rest)
    decreases |c|
  {
    hide GetRange, InRanges;
    if c != [] && c[0] == CLOSE && n > 0 {
      InNoRanges(r);
    } else if GetRange(c).Range? {
      var g := GetRange(c);
      ScanRangesMeaning(g.rest, r, hit || g.lo <= r <= g.hi, n + 1);
      if ParseRanges(g.rest, n + 1).ClassBody? {
        InRangesCons(g.lo, g.hi, ParseRanges(g.rest, n + 1).ranges, r);
      }
    }
  }

  lemma InNoRanges(r: int)
    ensures !InRanges([], r)
  {}

  lemma InRangesCons(lo: int, hi: int, ranges: seq<(int, int)>, r: int)
    ensures InRanges([(lo, hi)] + ranges, r) <==> lo <= r <= hi || InRanges(ranges, r)
  {
    var all := [(lo, hi)] + ranges;
    assert all[0] == (lo, hi);
    assert forall i :: 0 <= i < |ranges| ==> all[i + 1] == ranges[i];
  }

  /** The number of bytes a star-free token run takes off the front of a name, None if it does not match. */
  function TakesAll(us: seq<Tok>, s: Str): (r: Option<nat>)
    ensures r.Some? ==> r.value <= |s|
    decreases |us|
  {
    if us == [] then Some(0)
    else
      var n := Takes(us[0], s);
      if n == 0 then None
      else
        var rest := TakesAll(us[1..], s[n..]);
        if rest.None? then None else Some(n + rest.value)
  }

  lemma TakesAllCons(u: Tok, us: seq<Tok>, s: Str)
    ensures TakesAll([u] + us, s) ==
            if Takes(u, s) == 0 || TakesAll(us, s[Takes(u, s)..]).None? then None
            else Some(Takes(u, s) + TakesAll(us, s[Takes(u, s)..]).value)
  {
    hide Takes;
    assert ([u] + us)[1..] == us;
  }

  /** One token of the chunk: the matcher does what the grammar's head says. */
  lemma MatchChunkHead(chunk: Str, s: Str)
    requires chunk != [] && s != []
    ensures ParseHead(chunk).BadHead? ==> MatchChunk(chunk, s).BadChunk? || MatchChunk(chunk, s).Miss?
    ensures ParseHead(chunk).Head? && chunk[0] != STAR ==>
              var n := Takes(ParseHead(chunk).tok, s);
              MatchChunk(chunk, s) == if n > 0 then MatchChunk(ParseHead(chunk).rest, s[n..]) else Miss
  {
    hide ParseRanges, ScanRanges, DecodeRune, InRanges;
    if chunk[0] == OPEN {
      if |chunk| == 1 {
        NoClassInNothing(chunk[1..]);
      } else {
        var k := if chunk[1] == CARET then 2 else 1;
        ScanRangesMeaning(chunk[k..], DecodeRune(s).value, false, 0);
      }
    }
  }

  lemma NoClassInNothing(c: Str)
    requires c == []
    ensures ParseRanges(c, 0).BadClass?
  {}

  /** A well-formed chunk matches exactly when its tokens do, and leaves what they leave. */
  lemma {:induction false} MatchChunkMeaning(chunk: Str, s: Str)
    requires ParseToks(chunk).Some? && NoStar(ParseToks(chunk).value)
    ensures var r := TakesAll(ParseToks(chunk).value, s);
            MatchChunk(chunk, s) == if r.Some? then Hit(s[r.value..]) else Miss
    decreases |chunk|
  {
    hide ParseHead, Takes, MatchChunk;
    if chunk == [] || s == [] {
      MatchChunkEmpty(chunk, s);
      NothingTaken(chunk);
    } else {
      var h := ParseHead(chunk);
      var us := ParseToks(h.rest).value;
      assert ParseToks(chunk).value == [h.tok] + us;
      assert !([h.tok] + us)[0].Star?;
      assert forall i :: 0 <= i < |us| ==> us[i] == ([h.tok] + us)[i + 1];
      HeadIsStar(chunk);
      MatchChunkHead(chunk, s);
      TakesAllCons(h.tok, us, s);
      var n := Takes(h.tok, s);
      MatchChunkMeaning(h.rest, s[n..]);
      var r := TakesAll(us, s[n..]);
      if r.Some? { assert s[n..][r.value..] == s[n + r.value..]; }
    }
  }

  lemma NothingTaken(chunk: Str)
    requires ParseToks(chunk).Some?
    ensures chunk == [] ==> ParseToks(chunk).value == []
    ensures chunk != [] ==> ParseToks(chunk).value != [] && forall t :: Takes(t, []) == 0
  {
    hide ParseHead;
  }

  /** A chunk that matched was well formed; a chunk that was refused was not. */
  lemma {:induction false} MatchChunkSound(chunk: Str, s: Str)
    ensures MatchChunk(chunk, s).Hit? ==> ParseToks(chunk).Some?
    ensures MatchChunk(chunk, s).BadChunk? ==> ParseToks(chunk).None?
    decreases |chunk|
  {
    hide ParseHead, MatchChunk, Takes;
    if chunk != [] && s != [] {
      if chunk[0] == STAR {
        StarAsLiteral(chunk, s);
        MatchChunkSound(chunk[1..], s[1..]);
      } else {
        MatchChunkHead(chunk, s);
        if ParseHead(chunk).Head? {
          MatchChunkSound(ParseHead(chunk).rest, s[Takes(ParseHead(chunk).tok, s)..]);
        }
      }
    } else {
      MatchChunkEmpty(chunk, s);
    }
  }

  lemma StarAsLiteral(chunk: Str, s: Str)
    requires chunk != [] && s != [] && chunk[0] == STAR
    ensures MatchChunk(chunk, s) == if s[0] == STAR then MatchChunk(chunk[1..], s[1..]) else Miss
    ensures ParseHead(chunk) == Head(Star, chunk[1..])
  {}

  lemma MatchChunkEmpty(chunk: Str, s: Str)
    requires chunk == [] || s == []
    ensures MatchChunk(chunk, s) == if chunk == [] then Hit(s) else Miss
  {}

  // ----- stars

  lemma {:induction false} MatchesFront(us: seq<Tok>, vs: seq<Tok>, name: Str)
    requires NoStar(us)
    ensures Matches(us + vs, name) <==>
            TakesAll(us, name).Some? && Matches(vs, name[TakesAll(us, name).value..])
    decreases |us|
  {
    hide Takes;
    if us == [] {
      assert us + vs == vs && name[0..] == name;
    } else {
      assert (us + vs)[1..] == us[1..] + vs;
      var n := Takes(us[0], name);
      MatchesFront(us[1..], vs, name[n..]);
      var r := TakesAll(us[1..], name[n..]);
      if r.Some? { assert name[n..][r.value..] == name[n + r.value..]; }
    }
  }

  /** After a leading star every later start is covered by an earlier one. */
  lemma StarAbsorbs(vs: seq<Tok>, name: Str, j: nat, k: nat)
    requires j <= k <= |name| && vs != [] && vs[0].Star?
    requires Matches(vs, name[k..])
    ensures Matches(vs, name[j..])
  {
    hide Takes;
    var i :| 0 <= i <= |name[k..]| && Matches(vs[1..], name[k..][i..]);
    assert name[k..][i..] == name[j..][k - j + i..];
  }

  /** Some start lets the rest of the pattern match. */
  ghost predicate Somewhere(ts: seq<Tok>, name: Str) {
    exists k :: 0 <= k <= |name| && Matches(ts, name[k..])
  }

  lemma {:induction false} LeadingStars(p: Str)
    ensures ParseToks(p).Some? <==> ParseToks(DropStars(p)).Some?
    ensures ParseToks(p).Some? && |DropStars(p)| < |p| ==>
              forall name :: Matches(ParseToks(p).value, name) <==> Somewhere(ParseToks(DropStars(p)).value, name)
    decreases |p|
  {
    hide Takes;
    if p != [] && p[0] == STAR {
      LeadingStars(p[1..]);
      if ParseToks(p).Some? {
        var ts := ParseToks(p[1..]).value;
        assert ParseToks(p).value == [Star] + ts && ([Star] + ts)[1..] == ts;
        if |DropStars(p)| == |p[1..]| {
          assert DropStars(p) == p[1..];
        } else {
          forall name
            ensures Matches([Star] + ts, name) <==> Somewhere(ParseToks(DropStars(p)).value, name)
          {
            SomewhereTwice(ts, ParseToks(DropStars(p)).value, name);
          }
        }
      }
    }
  }

  lemma SomewhereTwice(ts: seq<Tok>, us: seq<Tok>, name: Str)
    requires forall n :: Matches(ts, n) <==> Somewhere(us, n)
    ensures Somewhere(ts, name) <==> Somewhere(us, name)
  {
    hide Matches;
    if Somewhere(ts, name) {
      var k :| 0 <= k <= |name| && Matches(ts, name[k..]);
      var i :| 0 <= i <= |name[k..]| && Matches(us, name[k..][i..]);
      assert name[k..][i..] == name[k + i..];
    }
    if Somewhere(us, name) {
      assert name[0..] == name;
      assert Matches(ts, name[0..]);
    }
  }

  // ----- skipping to the first later match loses nothing

  /** Where the chunk `us` ends when it starts at `k`. */
  function End(us: seq<Tok>, name: Str, k: nat): (r: Option<nat>)
    requires k <= |name|
    ensures r.Some? ==> k <= r.value <= |name|
  {
    var n := TakesAll(us, name[k..]);
    if n.None? then None else Some(k + n.value)
  }

  /** What is left of the name after it. */
  function After(us: seq<Tok>, name: Str, k: nat): Str
    requires k <= |name|
  {
    if End(us, name, k).None? then [] else name[End(us, name, k).value..]
  }

  /** A start at which the chunk `us` is followed by an acceptable remainder. */
  ghost predicate Fits(us: seq<Tok>, last: bool, name: Str, k: nat)
    requires k <= |name|
  {
    End(us, name, k).Some? && (last ==> End(us, name, k).value == |name|)
  }

  /** `res` names the first fitting start after position 0. */
  ghost predicate FirstLater(us: seq<Tok>, last: bool, name: Str, res: Skip) {
    match res
    case Found(t) =>
      exists k :: 0 < k <= |name| && Fits(us, last, name, k) && t == After(us, name, k)
                  && forall j :: 0 < j < k ==> !Fits(us, last, name, j)
    case NotFound => forall j :: 0 < j <= |name| ==> !Fits(us, last, name, j)
    case BadSkip => false
  }

  lemma EndShift(us: seq<Tok>, name: Str, k: nat)
    requires 0 < k <= |name|
    ensures var e := End(us, name[1..], k - 1);
            End(us, name, k) == if e.None? then None else Some(e.value + 1)
  {
    hide TakesAll;
    assert name[1..][k - 1..] == name[k..];
  }

  lemma FitsShift(us: seq<Tok>, last: bool, name: Str)
    requires name != []
    ensures forall k :: 0 < k <= |name| ==> (Fits(us, last, name, k) <==> Fits(us, last, name[1..], k - 1))
  {
    hide End;
    forall k | 0 < k <= |name| ensures Fits(us, last, name, k) <==> Fits(us, last, name[1..], k - 1) {
      EndShift(us, name, k);
    }
  }

  lemma FirstLaterShift(us: seq<Tok>, last: bool, name: Str, res: Skip)
    requires name != [] && !Fits(us, last, name, 1)
    requires FirstLater(us, last, name[1..], res)
    ensures FirstLater(us, last, name, res)
  {
    hide End, Fits;
    var rest := name[1..];
    FitsShift(us, last, name);
    if res.Found? {
      var k :| 0 < k <= |rest| && Fits(us, last, rest, k) && res.rest == After(us, rest, k)
               && forall j :: 0 < j < k ==> !Fits(us, last, rest, j);
      assert Fits(us, last, name, k + 1);
      EndShift(us, name, k + 1);
      FitsEnds(us, last, rest, k);
      assert After(us, rest, k) == After(us, name, k + 1);
      forall j | 0 < j < k + 1 ensures !Fits(us, last, name, j) { assert j > 1 ==> !Fits(us, last, rest, j - 1); }
    } else {
      forall j | 0 < j <= |name| ensures !Fits(us, last, name, j) { assert j > 1 ==> !Fits(us, last, rest, j - 1); }
    }
  }

  lemma FitsEnds(us: seq<Tok>, last: bool, name: Str, k: nat)
    requires k <= |name| && Fits(us, last, name, k)
    ensures End(us, name, k).Some?
  {}

  /** A chunk tried at a position: a hit with an acceptable remainder is a fit. */
  lemma MatchAt(chunk: Str, last: bool, name: Str, k: nat)
    requires ParseToks(chunk).Some? && NoStar(ParseToks(chunk).value) && k <= |name|
    ensures var us, m := ParseToks(chunk).value, MatchChunk(chunk, name[k..]);
            && !m.BadChunk?
            && (m.Hit? && (m.rest == [] || !last) <==> Fits(us, last, name, k))
            && (m.Hit? ==> m.rest == After(us, name, k))
  {
    hide MatchChunk, ParseToks, TakesAll;
    MatchChunkMeaning(chunk, name[k..]);
    var n := TakesAll(ParseToks(chunk).value, name[k..]);
    if n.Some? { assert name[k..][n.value..] == name[k + n.value..]; }
  }

  lemma {:induction false} SkipMatchMeaning(chunk: Str, last: bool, name: Str)
    requires ParseToks(chunk).Some? && NoStar(ParseToks(chunk).value)
    ensures FirstLater(ParseToks(chunk).value, last, name, SkipMatch(chunk, last, name))
    decreases |name|
  {
    hide MatchChunk, ParseToks, End, Fits, After;
    if name != [] {
      var us := ParseToks(chunk).value;
      MatchAt(chunk, last, name, 1);
      var m := MatchChunk(chunk, name[1..]);
      if !(m.Hit? && (m.rest == [] || !last)) {
        SkipMatchMeaning(chunk, last, name[1..]);
        FirstLaterShift(us, last, name, SkipMatch(chunk, last, name[1..]));
      }
    }
  }

  lemma MatchesNothing(name: Str)
    ensures Matches([], name) <==> name == []
  {}

  /** From a start `k` the pattern matches exactly when the chunk fits there and the rest matches after it. */
  lemma MatchesAt(us: seq<Tok>, vs: seq<Tok>, last: bool, name: Str, k: nat)
    requires NoStar(us) && (last <==> vs == []) && k <= |name|
    ensures Matches(us + vs, name[k..]) <==> Fits(us, last, name, k) && Matches(vs, name[End(us, name, k).value..])
  {
    hide Matches, TakesAll;
    MatchesFront(us, vs, name[k..]);
    var n := TakesAll(us, name[k..]);
    if n.Some? {
      assert name[k..][n.value..] == name[k + n.value..];
      MatchesNothing(name[k + n.value..]);
    }
  }

  /** Where no character is wider than two bytes, a run that starts later ends no earlier. */
  lemma {:induction false} LaterEndsLater(us: seq<Tok>, name: Str, k: nat, j: nat)
    requires Narrow(name) && k <= j <= |name| && End(us, name, k).Some? && End(us, name, j).Some?
    ensures End(us, name, k).value <= End(us, name, j).value
    decreases |us|
  {
    hide Narrow, Takes;
    if us != [] {
      var n, m := Takes(us[0], name[k..]), Takes(us[0], name[j..]);
      assert name[k..][n..] == name[k + n..] && name[j..][m..] == name[j + m..];
      if k < j { TakesAtMostTwo(us[0], name, k); }
      LaterEndsLater(us[1..], name, k + n, j + m);
    }
  }

  lemma TakesAtMostTwo(t: Tok, name: Str, k: nat)
    requires Narrow(name) && k <= |name|
    ensures Takes(t, name[k..]) <= 2
  {
    hide DecodeRune, InRanges;
  }

  /** The leftmost fitting start: a match from there is a match from somewhere, and if the chunk is the last one
      or no character is wider than two bytes there is no other. */
  lemma LeftmostDecides(us: seq<Tok>, vs: seq<Tok>, last: bool, name: Str, k: nat)
    requires NoStar(us) && (last <==> vs == []) && (vs == [] || vs[0].Star?)
    requires k <= |name| && Fits(us, last, name, k)
    requires forall j :: 0 <= j < k ==> !Fits(us, last, name, j)
    ensures Matches(vs, name[End(us, name, k).value..]) ==> Somewhere(us + vs, name)
    ensures (last || Narrow(name)) && Somewhere(us + vs, name) ==> Matches(vs, name[End(us, name, k).value..])
  {
    hide Matches, TakesAll, End, Narrow;
    MatchesAt(us, vs, last, name, k);
    FitsEnds(us, last, name, k);
    var e := End(us, name, k).value;
    if Somewhere(us + vs, name) && (last || Narrow(name)) {
      var j :| 0 <= j <= |name| && Matches(us + vs, name[j..]);
      MatchesAt(us, vs, last, name, j);
      FitsEnds(us, last, name, j);
      if last {
        MatchesNothing(name[e..]);
      } else {
        LaterEndsLater(us, name, k, j);
        StarAbsorbs(vs, name, e, End(us, name, j).value);
      }
    }
  }

  lemma NowhereFits(us: seq<Tok>, vs: seq<Tok>, last: bool, name: Str)
    requires NoStar(us) && (last <==> vs == [])
    requires forall j :: 0 <= j <= |name| ==> !Fits(us, last, name, j)
    ensures !Somewhere(us + vs, name)
  {
    hide Matches, Fits;
    if Somewhere(us + vs, name) {
      var j :| 0 <= j <= |name| && Matches(us + vs, name[j..]);
      MatchesAt(us, vs, last, name, j);
    }
  }

  // ----- the theorem

  /** The matcher's answer against the meaning: no error for a well-formed pattern, no wrong accept ever, and
      no wrong refusal for names without wide characters. */
  ghost predicate Right(pattern: Str, name: Str)
    requires ParseToks(pattern).Some?
  {
    var w := WildcardMatch(pattern, name);
    && w.Verdict?
    && (w.matched ==> Matches(ParseToks(pattern).value, name))
    && (Narrow(name) && Matches(ParseToks(pattern).value, name) ==> w.matched)
  }

  lemma {:induction false} GreedyIsRight(pattern: Str, name: Str)
    requires ParseToks(pattern).Some?
    ensures Right(pattern, name)
    decreases |pattern|
  {
    hide ScanChunk, ParseToks, MatchChunk, SkipMatch, Narrow, Takes;
    if pattern == [] {
      EmptyPattern();
    } else if ScanChunk(pattern).star && ScanChunk(pattern).chunk == [] {
      OnlyStars(pattern, name);
    } else if ScanChunk(pattern).star {
      GreedyStarStep(pattern, name);
    } else {
      GreedyPlainStep(pattern, name);
    }
  }

  lemma EmptyPattern()
    ensures ParseToks([]) == Some([])
  {}

  lemma OnlyStars(pattern: Str, name: Str)
    requires pattern != [] && ParseToks(pattern).Some?
    requires ScanChunk(pattern).star && ScanChunk(pattern).chunk == []
    ensures Matches(ParseToks(pattern).value, name)
  {
    hide ParseToks, Matches, ChunkLen, DropStars, Somewhere;
    LeadingStars(pattern);
    EmptyPattern();
    assert DropStars(pattern) == [];
    NothingLeft(name);
  }

  lemma NothingLeft(name: Str)
    ensures Somewhere([], name)
  {
    assert name[|name|..] == [];
  }

  lemma RestStartsWithStar(rest: Str)
    requires ParseToks(rest).Some? && (rest == [] || rest[0] == STAR)
    ensures ParseToks(rest).value == [] <==> rest == []
    ensures rest != [] ==> ParseToks(rest).value[0].Star?
  {
    hide ParseRanges;
  }

  lemma GreedyPlainStep(pattern: Str, name: Str)
    requires ParseToks(pattern).Some? && pattern != []
    requires !ScanChunk(pattern).star
    ensures Right(pattern, name)
    decreases |pattern|, 0
  {
    hide ParseToks, MatchChunk, ChunkLen, Narrow, Matches, TakesAll;
    var c := ScanChunk(pattern);
    LeadingStars(pattern);
    ChunkParses(pattern);
    var us, vs := ParseToks(c.chunk).value, ParseToks(c.rest).value;
    RestStartsWithStar(c.rest);
    MatchChunkMeaning(c.chunk, name);
    MatchesFront(us, vs, name);
    var m := MatchChunk(c.chunk, name);
    if m.Hit? {
      MatchesNothing(m.rest);
      if Narrow(name) { NarrowSuffix(name, TakesAll(us, name).value); }
      if m.rest == [] || c.rest != [] { GreedyIsRight(c.rest, m.rest); }
    }
  }

  /** Trying the current position before the later ones: the first fitting start, if any. */
  function FirstMatch(chunk: Str, last: bool, name: Str): Skip {
    var m := MatchChunk(chunk, name);
    if m.Hit? && (m.rest == [] || !last) then Found(m.rest)
    else if m.BadChunk? then BadSkip
    else SkipMatch(chunk, last, name)
  }

  /** `k` is the first start at which the chunk fits. */
  ghost predicate FirstFit(us: seq<Tok>, last: bool, name: Str, k: nat) {
    k <= |name| && Fits(us, last, name, k) && forall j :: 0 <= j < k ==> !Fits(us, last, name, j)
  }

  /** The matcher at a chunk that no star precedes. */
  lemma ChunkUnfolds(pattern: Str, name: Str)
    requires pattern != [] && !ScanChunk(pattern).star
    ensures var c := ScanChunk(pattern);
            WildcardMatch(pattern, name) ==
              match MatchChunk(c.chunk, name)
              case Hit(t) => if t == [] || c.rest != [] then WildcardMatch(c.rest, t) else Verdict(false)
              case BadChunk => BadPattern
              case Miss => Verdict(false)
  {
    hide ScanChunk, MatchChunk, SkipMatch;
  }

  /** A pattern that does not begin with a star begins with its first chunk. */
  lemma FirstChunk(p: Str)
    requires p != [] && p[0] != STAR
    ensures var n := ChunkLen(p, false); ScanChunk(p) == Chunk(false, p[..n], p[n..])
  {
    hide ChunkLen;
    assert DropStars(p) == p;
  }

  /** The matcher at a star goes on behind the first fitting start. */
  lemma StarUnfolds(pattern: Str, name: Str)
    requires pattern != [] && ScanChunk(pattern).star && ScanChunk(pattern).chunk != []
    ensures var c := ScanChunk(pattern);
            WildcardMatch(pattern, name) ==
              match FirstMatch(c.chunk, c.rest == [], name)
              case Found(t) => WildcardMatch(c.rest, t)
              case NotFound => Verdict(false)
              case BadSkip => BadPattern
  {
    hide ScanChunk, MatchChunk, SkipMatch;
  }

  lemma FirstMatchFinds(chunk: Str, last: bool, name: Str)
    requires ParseToks(chunk).Some? && NoStar(ParseToks(chunk).value)
    ensures var us := ParseToks(chunk).value;
            match FirstMatch(chunk, last, name)
            case Found(t) => exists k :: FirstFit(us, last, name, k) && t == After(us, name, k)
            case NotFound => forall j :: 0 <= j <= |name| ==> !Fits(us, last, name, j)
            case BadSkip => false
  {
    hide ParseToks, MatchChunk, SkipMatch, Fits, After;
    var us := ParseToks(chunk).value;
    MatchAt(chunk, last, name, 0);
    SkipMatchMeaning(chunk, last, name);
    assert name[0..] == name;
    if Fits(us, last, name, 0) {
      assert FirstFit(us, last, name, 0);
    } else if SkipMatch(chunk, last, name).Found? {
      var k :| 0 < k <= |name| && Fits(us, last, name, k)
               && SkipMatch(chunk, last, name).rest == After(us, name, k)
               && forall j :: 0 < j < k ==> !Fits(us, last, name, j);
      assert FirstFit(us, last, name, k);
    }
  }

  lemma FirstMatchDecides(chunk: Str, vs: seq<Tok>, last: bool, name: Str)
    requires ParseToks(chunk).Some? && NoStar(ParseToks(chunk).value)
    requires (last <==> vs == []) && (vs == [] || vs[0].Star?)
    ensures var us := ParseToks(chunk).value;
            match FirstMatch(chunk, last, name)
            case Found(t) =>
              && (Narrow(name) ==> Narrow(t))
              && (Matches(vs, t) ==> Somewhere(us + vs, name))
              && ((last || Narrow(name)) && Somewhere(us + vs, name) ==> Matches(vs, t))
            case NotFound => !Somewhere(us + vs, name)
            case BadSkip => false
  {
    hide ParseToks, FirstMatch, Matches, Somewhere, Narrow, End, Fits;
    var us := ParseToks(chunk).value;
    FirstMatchFinds(chunk, last, name);
    match FirstMatch(chunk, last, name)
    case Found(t) =>
      var k :| FirstFit(us, last, name, k) && t == After(us, name, k);
      LeftmostDecides(us, vs, last, name, k);
      FitsEnds(us, last, name, k);
      if Narrow(name) { NarrowSuffix(name, End(us, name, k).value); }
    case NotFound =>
      NowhereFits(us, vs, last, name);
    case BadSkip =>
  }

  lemma GreedyStarStep(pattern: Str, name: Str)
    requires ParseToks(pattern).Some? && pattern != []
    requires ScanChunk(pattern).star && ScanChunk(pattern).chunk != []
    ensures Right(pattern, name)
    decreases |pattern|, 0
  {
    hide ParseToks, ChunkLen, DropStars, Matches, Somewhere, Narrow, FirstMatch, WildcardMatch;
    var c := ScanChunk(pattern);
    StarUnfolds(pattern, name);
    LeadingStars(pattern);
    ChunkParses(DropStars(pattern));
    RestStartsWithStar(c.rest);
    var last := c.rest == [];
    FirstMatchDecides(c.chunk, ParseToks(c.rest).value, last, name);
    var f := FirstMatch(c.chunk, last, name);
    if f.Found? {
      GreedyIsRight(c.rest, f.rest);
    }
  }

  /** A star before the last chunk is searched exhaustively: the answer is exact on every name. */
  lemma LastStarIsExact(pattern: Str, name: Str)
    requires ParseToks(pattern).Some? && pattern != []
    requires ScanChunk(pattern).star && ScanChunk(pattern).chunk != [] && ScanChunk(pattern).rest == []
    ensures WildcardMatch(pattern, name) == Verdict(Matches(ParseToks(pattern).value, name))
  {
    hide ParseToks, ChunkLen, DropStars, Matches, Somewhere, Narrow, FirstMatch;
    var c := ScanChunk(pattern);
    StarUnfolds(pattern, name);
    LeadingStars(pattern);
    ChunkParses(DropStars(pattern));
    RestStartsWithStar(c.rest);
    EmptyPattern();
    FirstMatchDecides(c.chunk, [], true, name);
    var f := FirstMatch(c.chunk, true, name);
    assert ParseToks(c.chunk).value + [] == ParseToks(c.chunk).value;
    if f.Found? { MatchesNothing(f.rest); }
  }

  /** A malformed pattern never matches; an error is reported only for a malformed pattern. */
  lemma {:induction false} OnlyWellFormedMatch(pattern: Str, name: Str)
    ensures WildcardMatch(pattern, name) == Verdict(true) ==> ParseToks(pattern).Some?
    ensures WildcardMatch(pattern, name).BadPattern? ==> ParseToks(pattern).None?
    decreases |pattern|
  {
    hide ParseToks, MatchChunk, ChunkLen, SkipMatch, DropStars, Matches, Narrow;
    if ParseToks(pattern).Some? {
      GreedyIsRight(pattern, name);
    } else if pattern != [] {
      var c := ScanChunk(pattern);
      var q := DropStars(pattern);
      LeadingStars(pattern);
      EmptyPattern();
      assert q == c.chunk + c.rest;
      if ParseToks(c.chunk).Some? && ParseToks(c.rest).Some? {
        ParseAppend(c.chunk, c.rest);
      }
      MatchChunkSound(c.chunk, name);
      SkipMatchSound(c.chunk, c.rest == [], name);
      var m := MatchChunk(c.chunk, name);
      if m.Hit? && (m.rest == [] || c.rest != []) {
        OnlyWellFormedMatch(c.rest, m.rest);
      } else if c.star && SkipMatch(c.chunk, c.rest == [], name).Found? {
        OnlyWellFormedMatch(c.rest, SkipMatch(c.chunk, c.rest == [], name).rest);
      }
    } else {
      EmptyPattern();
    }
  }

  lemma {:induction false} SkipMatchSound(chunk: Str, last: bool, name: Str)
    ensures SkipMatch(chunk, last, name).Found? ==> ParseToks(chunk).Some?
    decreases |name|
  {
    hide MatchChunk, ParseToks;
    if name != [] {
      MatchChunkSound(chunk, name[1..]);
      SkipMatchSound(chunk, last, name[1..]);
    }
  }

  /** Whatever the bytes of pattern and name, what the matcher accepts the pattern denotes. */
  lemma AcceptsOnlyDenoted(pattern: Str, name: Str)
    requires WildcardMatch(pattern, name) == Verdict(true)
    ensures Denotes(pattern, name)
  {
    hide WildcardMatch, ParseToks, Matches;
    OnlyWellFormedMatch(pattern, name);
    GreedyIsRight(pattern, name);
  }

  /** On a name without wide characters it accepts exactly what the pattern denotes. */
  lemma MatchIffDenotes(pattern: Str, name: Str)
    requires Narrow(name)
    ensures WildcardMatch(pattern, name) == Verdict(true) <==> Denotes(pattern, name)
    ensures WildcardMatch(pattern, name).BadPattern? ==> ParseToks(pattern).None?
  {
    hide WildcardMatch, ParseToks, Matches, Narrow;
    OnlyWellFormedMatch(pattern, name);
    if ParseToks(pattern).Some? {
      GreedyIsRight(pattern, name);
    }
  }
}
