/** Escapes in the literal prefix of a pattern, which the key range counts byte for byte, and when an ascending
    scan loses no match. */
module GlobEscape {
  import opened Bytes
  import opened Glob
  import opened GlobMatch
  import opened GlobRange

  /** After n plain bytes come r backslashes and no more. */
  ghost predicate Slashes(p: Str, n: nat, r: nat) {
    && 0 < r && n + r <= |p| && Plain(p[..n])
    && (forall i :: n <= i < n + r ==> p[i] == BACKSLASH)
    && (n + r < |p| ==> p[n + r] != BACKSLASH)
  }

  /** They are escaped backslashes throughout, and a wildcard follows. */
  ghost predicate SlashesThenWildcard(p: Str, n: nat, r: nat) {
    Slashes(p, n, r) && r % 2 == 0 && n + r < |p| && Special(p[n + r])
  }

  // ----- what the matcher takes for a run of backslashes

  lemma {:induction false} ChunkLenSlashes(p: Str, r: nat)
    requires r <= |p| && forall i :: 0 <= i < r ==> p[i] == BACKSLASH
    ensures ChunkLen(p, false) >= r
    ensures r % 2 == 1 && r < |p| ==> ChunkLen(p, false) > r
    ensures r % 2 == 0 ==> ChunkLen(p, false) == r + ChunkLen(p[r..], false)
    decreases r
  {
    if r == 0 {
      assert p[0..] == p;
    } else if r > 1 {
      ChunkLenSlashes(p[2..], r - 2);
      assert p[2..][r - 2..] == p[r..];
    }
  }

  /** Two backslashes take one, and an odd one takes the byte behind it. */
  lemma {:induction false} MatchChunkSlashes(chunk: Str, s: Str, r: nat)
    requires r <= |chunk| && MatchChunk(chunk, s).Hit?
    requires forall i :: 0 <= i < r ==> chunk[i] == BACKSLASH
    ensures r / 2 <= |s| && forall i :: 0 <= i < r / 2 ==> s[i] == BACKSLASH
    ensures r % 2 == 1 ==> r < |chunk| && r / 2 < |s| && s[r / 2] == chunk[r]
    ensures r % 2 == 0 ==> MatchChunk(chunk[r..], s[r / 2..]) == MatchChunk(chunk, s)
    decreases r
  {
    if r == 0 {
      assert chunk[0..] == chunk && s[0..] == s;
    } else if r > 1 {
      MatchChunkSlashes(chunk[2..], s[1..], r - 2);
      assert chunk[2..][r - 2..] == chunk[r..];
      assert s[1..][(r - 2) / 2..] == s[r / 2..];
      assert forall i :: 0 < i < r / 2 ==> s[i] == s[1..][i - 1];
    }
  }

  lemma NextByte(chunk: Str, s: Str)
    requires chunk != [] && !Special(chunk[0]) && chunk[0] != BACKSLASH && MatchChunk(chunk, s).Hit?
    ensures s != [] && s[0] == chunk[0]
  {}

  /** What a chunk that begins so takes: half of the backslashes, and then the byte that follows them, if that is
      not a wildcard. */
  lemma ChunkAfterSlashes(c: Str, s: Str, n: nat, r: nat)
    requires n + r <= |c| && Plain(c[..n]) && MatchChunk(c, s).Hit?
    requires forall i :: n <= i < n + r ==> c[i] == BACKSLASH
    ensures n + r / 2 <= |s| && s[..n + r / 2] == c[..n + r / 2]
    ensures r % 2 == 1 ==> n + r < |c|
    ensures n + r < |c| && (r % 2 == 1 || (!Special(c[n + r]) && c[n + r] != BACKSLASH)) ==>
              n + r / 2 < |s| && s[n + r / 2] == c[n + r]
    ensures n + r == |c| ==> MatchChunk(c, s).rest == s[n + r / 2..]
  {
    hide MatchChunk;
    MatchChunkPlain(c, s, n);
    var d, t := c[n..], s[n..];
    MatchChunkSlashes(d, t, r);
    FrontAgrees(c, s, n, r / 2);
    assert d[r..] == c[n + r..] && t[r / 2..] == s[n + r / 2..];
    if n + r == |c| {
      NothingLeft(s[n + r / 2..]);
    } else if r % 2 == 0 && !Special(c[n + r]) && c[n + r] != BACKSLASH {
      NextByte(d[r..], t[r / 2..]);
    }
  }

  lemma ChunkCovers(p: Str, n: nat, r: nat)
    requires Slashes(p, n, r)
    ensures ChunkLen(p, false) >= n + r
    ensures n + r < |p| && !SlashesThenWildcard(p, n, r) ==> ChunkLen(p, false) > n + r
  {
    ChunkLenPlain(p, n);
    ChunkLenSlashes(p[n..], r);
    assert p[n..][r..] == p[n + r..];
    if n + r < |p| && r % 2 == 0 && !Special(p[n + r]) { assert ChunkLen(p[n + r..], false) > 0; }
  }

  /** An accepted id has half of the backslashes, and then what follows them in the pattern, if that is not a
      wildcard. */
  lemma AfterSlashes(p: Str, id: Str, n: nat, r: nat)
    requires Slashes(p, n, r) && WildcardMatch(p, id) == Verdict(true)
    ensures var k := n + r / 2;
            && k <= |id| && id[..k] == p[..k]
            && (r % 2 == 1 ==> n + r < |p|)
            && (n + r < |p| && !SlashesThenWildcard(p, n, r) ==> k < |id| && id[k] == p[n + r])
            && (n + r == |p| ==> |id| == k)
  {
    hide MatchChunk, ChunkLen, WildcardMatch, ScanChunk, Plain;
    SlashesNotStar(p, n, r);
    FirstChunk(p);
    ChunkUnfolds(p, id);
    ChunkCovers(p, n, r);
    var m, k := ChunkLen(p, false), n + r / 2;
    var c := p[..m];
    assert c[..n] == p[..n] && c[..k] == p[..k];
    ChunkAfterSlashes(c, id, n, r);
    NothingLeft(id[k..]);
    if n + r == |p| { assert p[m..] == []; }
  }

  lemma SlashesNotStar(p: Str, n: nat, r: nat)
    requires Slashes(p, n, r)
    ensures p != [] && p[0] != STAR
  {
    if n > 0 { assert p[..n][0] == p[0]; }
  }

  lemma FrontAgrees(p: Str, id: Str, n: nat, h: nat)
    requires n + 2 * h <= |p| && n + h <= |id| && p[..n] <= id
    requires forall i :: n <= i < n + 2 * h ==> p[i] == BACKSLASH
    requires forall i :: 0 <= i < h ==> id[n..][i] == BACKSLASH
    ensures id[..n + h] == p[..n + h]
  {
    forall i | 0 <= i < n + h ensures id[i] == p[i] {
      if i < n { assert p[..n][i] == id[i]; } else { assert id[n..][i - n] == BACKSLASH; }
    }
  }

  lemma NothingLeft(s: Str)
    ensures MatchChunk([], s) == Hit(s) && WildcardMatch([], s) == Verdict(s == [])
  {}

  // ----- two strings that part at a backslash

  lemma AboveCommon(c: Str, a: Str)
    requires a != []
    ensures Above(c + a) == c + Above(a)
  {
    var n := |c + a| - 1;
    assert (c + a)[n] == a[|a| - 1] && (c + a)[..n] == c + a[..|a| - 1];
  }

  lemma StripZerosStep(b: Str)
    requires b != []
    ensures b[|b| - 1] != 0 ==> StripZeros(b) == b
    ensures |b| > 1 && b[|b| - 1] == 0 ==>
              StripZeros(b) == if b[|b| - 2] == 0 then StripZeros(b[..|b| - 1])
                               else b[..|b| - 2] + [b[|b| - 2] - 1, 0xFF]
  {}

  lemma {:induction false} StripZerosCommon(c: Str, b: Str)
    requires b != [] && b[0] > 0
    ensures StripZeros(c + b) == c + StripZeros(b)
    decreases |b|
  {
    hide StripZeros;
    var n, all := |b|, c + b;
    StripZerosStep(b);
    StripZerosStep(all);
    assert all[|all| - 1] == b[n - 1];
    if b[n - 1] == 0 {
      assert all[|all| - 2] == b[n - 2];
      if b[n - 2] == 0 {
        assert all[..|all| - 1] == c + b[..n - 1];
        StripZerosCommon(c, b[..n - 1]);
      } else {
        assert all[..|all| - 2] == c + b[..n - 2];
      }
    }
  }

  lemma InGapCommon(c: Str, a: Str, s: Str)
    requires a != [] && a[0] > 0
    ensures InGap(c + a, c + s) <==> InGap(a, s)
  {
    hide StripZeros, Less;
    var m := |a| - 1;
    assert (c + a)[|c + a| - 1] == a[m];
    if a[m] == 0 {
      StripZerosCommon(c, a);
      LessCommon(c, StripZeros(a), s);
      LessCommon(c, s, a);
    } else {
      assert (c + a)[..|c + a| - 1] == c + a[..m];
      assert Below(c + a) == c + Below(a);
      PrefixCommon(c, Below(a), s);
    }
  }

  lemma PrefixCommon(c: Str, u: Str, s: Str)
    ensures c + u <= c + s <==> u <= s
  {
    assert (c + s)[|c|..] == s && (c + u)[|c|..] == u;
    if u <= s { assert s == u + s[|u|..]; }
    if c + u <= c + s {
      forall i | 0 <= i < |u| ensures u[i] == s[i] { assert (c + u)[|c| + i] == (c + s)[|c| + i]; }
    }
  }

  lemma {:induction false} StripZerosFirst(b: Str)
    requires b != [] && b[0] > 0
    ensures StripZeros(b) != [] && StripZeros(b)[0] >= b[0] - 1
    ensures |b| > 1 && b[1] > 0 ==> StripZeros(b)[0] == b[0]
    decreases |b|
  {
    var n := |b|;
    if b[n - 1] == 0 && b[n - 2] == 0 { StripZerosFirst(b[..n - 1]); }
  }

  /** Of the strings that part from a at its first byte, a backslash, a gap holds only those that go on behind a
      bracket, if that byte is all of a. */
  lemma GapBelowSlash(a: Str, s: Str)
    requires a != [] && a[0] == BACKSLASH && (s == [] ==> a[|a| - 1] != 0) && (s != [] ==> s[0] != BACKSLASH)
    requires s != [] && s[0] == OPEN && |a| > 1 ==> a[1] == BACKSLASH
    ensures InGap(a, s) <==> |a| == 1 && |s| > 1 && s[0] == OPEN
  {
    hide StripZeros;
    if a[|a| - 1] == 0 {
      StripZerosFirst(a);
    } else {
      assert Below(a)[0] == if |a| == 1 then OPEN else BACKSLASH;
    }
  }

  /** The same behind a common front: neither direction visits the id, but for that case. */
  lemma PartedIsLost(a: Str, id: Str, k: nat)
    requires k < |a| && k <= |id| && id[..k] == a[..k] && a[k] == BACKSLASH
    requires k == |id| ==> a[|a| - 1] != 0
    requires k < |id| ==>
               && id[k] != BACKSLASH
               && if |a| == k + 1 then Special(id[k]) else id[k] == OPEN ==> a[k + 1] == BACKSLASH
    ensures !(a <= id) && id != Above(a)
    ensures InGap(a, id) <==> |a| == k + 1 && |id| > k + 1 && id[k] == OPEN
  {
    hide InGap, StripZeros;
    var c, u, s := a[..k], a[k..], id[k..];
    assert a == c + u && id == c + s;
    AboveCommon(c, u);
    InGapCommon(c, u, s);
    GapBelowSlash(u, s);
    assert u[0] == a[k] && (s != [] ==> s[0] == id[k]);
    assert (c + Above(u))[k..] == Above(u) && id[k..] == s;
  }

  // ----- which matches are lost

  /** A backslash in the literal prefix: every id the pattern accepts is outside the ascending range, unless the
      first backslashes are escaped ones throughout and a wildcard follows them. It is inside the descending range
      exactly if there is one backslash, it escapes a bracket and the id goes on behind the bracket. */
  lemma EscapedPrefixLosesMatches(p: Str, id: Str, n: nat, r: nat)
    requires Slashes(p, n, r) && !SlashesThenWildcard(p, n, r)
    requires WildcardMatch(p, id) == Verdict(true)
    ensures !Visits(Parse(p, false).limits, false, id)
    ensures Visits(Parse(p, true).limits, true, id) <==>
            r == 1 && n + 1 < |p| && p[n + 1] == OPEN && |id| > n + 1
  {
    hide WildcardMatch, Parse, Visits, StripZeros, InGap, Above;
    SlashesNotStar(p, n, r);
    AscendingRangeExact(p, id);
    DescendingRangeExact(p, id);
    AfterSlashes(p, id, n, r);
    SlashesInPrefix(p, n, r);
    PartedIsLost(Prefix(p), id, n + r / 2);
  }

  /** The remaining case: such an id is inside the ascending range exactly if it has as many backslashes as the
      pattern. */
  lemma EscapedSlashesNeedMore(p: Str, id: Str, n: nat, r: nat)
    requires SlashesThenWildcard(p, n, r) && WildcardMatch(p, id) == Verdict(true)
    ensures Visits(Parse(p, false).limits, false, id) <==>
            n + r <= |id| && forall i :: n + r / 2 <= i < n + r ==> id[i] == BACKSLASH
  {
    hide WildcardMatch, Parse, Visits, Plain;
    SlashesNotStar(p, n, r);
    AscendingRangeExact(p, id);
    AfterSlashes(p, id, n, r);
    SlashesInPrefix(p, n, r);
    var a, k := Prefix(p), n + r / 2;
    assert a == p[..n + r];
    assert forall i :: 0 <= i < k ==> id[..k][i] == p[..k][i];
  }

  lemma SlashesInPrefix(p: Str, n: nat, r: nat)
    requires Slashes(p, n, r)
    ensures n + r <= PrefixLen(p) && (PrefixLen(p) == n + r <==> n + r == |p| || Special(p[n + r]))
  {
    hide PrefixLen;
    assert forall i :: 0 <= i < n ==> p[..n][i] == p[i];
  }

  // ----- when nothing is lost

  ghost predicate Accepts(p: Str, id: Str) {
    WildcardMatch(p, id) == Verdict(true)
  }

  /** An ascending scan of the range finds every id the pattern accepts. */
  ghost predicate LosesNothing(p: Str) {
    forall id :: Accepts(p, id) ==> Visits(Parse(p, false).limits, false, id)
  }

  /** Apart from patterns that begin with escaped backslashes and a wildcard behind them, the range loses nothing
      exactly if the pattern is safe or has nothing to lose. */
  lemma LosesNothingIff(p: Str)
    requires forall n: nat, r: nat :: !SlashesThenWildcard(p, n, r)
    ensures LosesNothing(p) <==> RangeSafe(p) || forall id :: !Accepts(p, id)
  {
    hide WildcardMatch, Parse, Visits;
    if RangeSafe(p) {
      forall id | Accepts(p, id) ensures Visits(Parse(p, false).limits, false, id) {
        SafeRangeKeepsMatches(p, false, id);
      }
    } else if id :| Accepts(p, id) {
      var lost := SomeIsLost(p, id);
    }
  }

  lemma SomeIsLost(p: Str, id: Str) returns (lost: Str)
    requires !RangeSafe(p) && Accepts(p, id) && forall n: nat, r: nat :: !SlashesThenWildcard(p, n, r)
    ensures Accepts(p, lost) && !Visits(Parse(p, false).limits, false, lost)
  {
    hide WildcardMatch, Parse, Visits;
    lost := id;
    if PrefixLen(p) == 0 {
      LeadingWildcardScansNothing(p, false, id);
    } else if BACKSLASH in Prefix(p) {
      var n, r := FirstSlashes(p);
      EscapedPrefixLosesMatches(p, id, n, r);
    } else {
      lost := LongerThanPrefix(p, id);
      AscendingRangeExact(p, lost);
    }
  }

  lemma FirstSlashes(p: Str) returns (n: nat, r: nat)
    requires BACKSLASH in Prefix(p)
    ensures Slashes(p, n, r)
  {
    n := 0;
    while p[n] != BACKSLASH
      invariant n < PrefixLen(p) && Plain(p[..n])
      invariant exists i :: n <= i < PrefixLen(p) && p[i] == BACKSLASH
      decreases PrefixLen(p) - n
    {
      n := n + 1;
    }
    r := 1;
    while n + r < |p| && p[n + r] == BACKSLASH
      invariant n + r <= |p| && forall i :: n <= i < n + r ==> p[i] == BACKSLASH
    {
      r := r + 1;
    }
  }

  /** A literal prefix and a wildcard that accept anything accept something longer than the prefix. */
  lemma LongerThanPrefix(p: Str, id: Str) returns (longer: Str)
    requires 0 < PrefixLen(p) < |p| && BACKSLASH !in Prefix(p) && Accepts(p, id)
    ensures Accepts(p, longer) && longer != Prefix(p)
  {
    hide WildcardMatch, MatchChunk, ChunkLen, ScanChunk;
    longer := id;
    var a, n := Prefix(p), PrefixLen(p);
    if id == a {
      PrefixIsPlain(p);
      ChunkLenPlain(p, n);
      FirstChunk(p);
      ChunkUnfolds(p, a);
      var c := p[..ChunkLen(p, false)];
      assert c[..n] == a;
      MatchChunkPlain(c, a, n);
      assert a[n..] == [];
      OnlyNothingTakesNothing(c[n..]);
      NothingLeft([]);
      assert c == a && p[n..][0] == STAR;
      longer := a + [0];
      StarsTakeMore(p[n..], [0]);
      PlainTakesItself(a, [0]);
      ChunkUnfolds(p, longer);
    }
  }

  lemma PrefixIsPlain(p: Str)
    requires BACKSLASH !in Prefix(p)
    ensures Plain(Prefix(p)) && (p != [] && PrefixLen(p) > 0 ==> p[0] != STAR)
  {
    var a := Prefix(p);
    forall i | 0 <= i < |a| ensures !Special(a[i]) && a[i] != BACKSLASH { assert a[i] in a; }
  }

  lemma OnlyNothingTakesNothing(c: Str)
    ensures MatchChunk(c, []).Hit? ==> c == []
  {}

  lemma {:induction false} PlainTakesItself(a: Str, s: Str)
    requires Plain(a)
    ensures MatchChunk(a, a + s) == Hit(s)
    decreases |a|
  {
    if a == [] {
      assert a + s == s;
    } else {
      assert (a + s)[1..] == a[1..] + s;
      PlainTakesItself(a[1..], s);
    }
  }

  /** A star first, and the empty name accepted: then there are only stars, and they accept everything. */
  lemma StarsTakeMore(q: Str, s: Str)
    requires q != [] && q[0] == STAR && Accepts(q, [])
    ensures Accepts(q, s)
  {
    hide ScanRanges, DecodeRune, ChunkLen;
    var c := ScanChunk(q);
    assert c.star;
    if c.chunk != [] { OnlyNothingTakesNothing(c.chunk); }
  }
}
