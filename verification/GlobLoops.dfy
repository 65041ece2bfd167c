/** The loops of pkg/glob, proved to compute the functions of GlobMatch and GlobRange. */
module GlobLoops {
  import opened Bytes
  import opened Glob
  import opened GlobMatch
  import opened GlobRange

  method ScanChunkLoop(pattern: Str) returns (star: bool, chunk: Str, rest: Str)
    requires pattern != []
    ensures Chunk(star, chunk, rest) == ScanChunk(pattern)
  {
    var p := pattern;
    star := false;
    while p != [] && p[0] == STAR
      invariant |p| <= |pattern| && DropStars(p) == DropStars(pattern)
      invariant star <==> |p| < |pattern|
      decreases |p|
    {
      p := p[1..];
      star := true;
    }
    var i := ChunkEndLoop(p);
    chunk, rest := p[..i], p[i..];
  }

  method ChunkEndLoop(p: Str) returns (i: nat)
    ensures i == ChunkLen(p, false)
  {
    var inrange := false;
    i := 0;
    assert p[0..] == p;
    while i < |p|
      invariant 0 <= i <= |p|
      invariant i + ChunkLen(p[i..], inrange) == ChunkLen(p, false)
      decreases |p| - i
    {
      assert p[i..][1..] == p[i + 1..];
      if p[i] == BACKSLASH {
        if i + 1 < |p| {
          assert p[i..][2..] == p[i + 2..];
          i := i + 1;
        }
      } else if p[i] == OPEN {
        inrange := true;
      } else if p[i] == CLOSE {
        inrange := false;
      } else if p[i] == STAR && !inrange {
        break;
      }
      i := i + 1;
    }
  }

  method MatchChunkLoop(chunk: Str, s: Str) returns (res: ChunkResult)
    ensures res == MatchChunk(chunk, s)
  {
    hide DecodeRune, GetRange;
    var c, t := chunk, s;
    while c != []
      invariant MatchChunk(c, t) == MatchChunk(chunk, s)
      decreases |c|
    {
      if t == [] { return Miss; }
      if c[0] == OPEN {
        if |c| == 1 { return BadChunk; }
        var rune := DecodeRune(t);
        var negated := c[1] == CARET;
        var body := c[if negated then 2 else 1..];
        var scan := ScanRangesLoop(body, rune.value);
        if scan.BadScan? { return BadChunk; }
        if scan.hit == negated { return Miss; }
        c, t := scan.rest, t[rune.width..];
      } else if c[0] == QUESTION {
        c, t := c[1..], t[DecodeRune(t).width..];
      } else {
        var d := c;
        if c[0] == BACKSLASH {
          d := c[1..];
          if d == [] { return BadChunk; }
        }
        if d[0] != t[0] { return Miss; }
        c, t := d[1..], t[1..];
      }
    }
    return Hit(t);
  }

  method ScanRangesLoop(body: Str, r: int) returns (res: ClassScan)
    ensures res == ScanRanges(body, r, false, 0)
  {
    hide GetRange;
    var c, hit, n := body, false, 0;
    while !(c != [] && c[0] == CLOSE && n > 0)
      invariant n >= 0 && ScanRanges(c, r, hit, n) == ScanRanges(body, r, false, 0)
      decreases |c|
    {
      var g := GetRange(c);
      if g.BadRange? { return BadScan; }
      if g.lo <= r <= g.hi { hit := true; }
      c, n := g.rest, n + 1;
    }
    return ClassScan(hit, c[1..]);
  }

  /** glob.Match: the loop over chunks. On a name without wide characters the answer is the backtracking one. */
  method Match(pattern: Str, name: Str) returns (matched: bool, err: bool)
    ensures err <==> WildcardMatch(pattern, name).BadPattern?
    ensures matched <==> WildcardMatch(pattern, name) == Verdict(true)
    ensures Narrow(name) ==> (matched <==> Denotes(pattern, name))
    ensures Narrow(name) && err ==> ParseToks(pattern).None?
  {
    hide MatchChunk, ScanChunk, Denotes;
    if Narrow(name) { MatchIffDenotes(pattern, name); }
    ghost var goal := WildcardMatch(pattern, name);
    var p, t := pattern, name;
    while p != []
      invariant WildcardMatch(p, t) == goal
      decreases |p|
    {
      var star, chunk, rest := ScanChunkLoop(p);
      if star && chunk == [] { return true, false; }
      var m := MatchChunkLoop(chunk, t);
      if m.Hit? && (m.rest == [] || rest != []) {
        p, t := rest, m.rest;
        continue;
      }
      if m.BadChunk? { return false, true; }
      if !star { return false, false; }
      var skip := SkipLoop(chunk, rest == [], t);
      match skip
      case Found(u) => p, t := rest, u;
      case BadSkip => return false, true;
      case NotFound => return false, false;
    }
    matched, err := t == [], false;
  }

  method SkipLoop(chunk: Str, last: bool, name: Str) returns (res: Skip)
    ensures res == SkipMatch(chunk, last, name)
  {
    hide MatchChunk;
    var i := 0;
    assert name[0..] == name;
    while i < |name|
      invariant 0 <= i <= |name| && SkipMatch(chunk, last, name[i..]) == SkipMatch(chunk, last, name)
    {
      assert name[i..][1..] == name[i + 1..];
      var m := MatchChunkLoop(chunk, name[i + 1..]);
      if m.Hit? && !(last && m.rest != []) { return Found(m.rest); }
      if m.BadChunk? { return BadSkip; }
      i := i + 1;
    }
    return NotFound;
  }

  /** glob.Parse: counting the literal prefix and rebuilding the lower limit of a descending scan. */
  method ParseLoop(pattern: Str, desc: bool) returns (g: Parsed)
    ensures g == Parse(pattern, desc)
  {
    hide WildcardMatch, Denotes;
    if pattern != [] && pattern[0] == STAR { return Parsed(Limits([], []), true); }
    if pattern == [] { return Parsed(Limits([], []), false); }
    var n, isGlob := 0, false;
    assert pattern[0..] == pattern;
    while n < |pattern|
      invariant 0 <= n <= |pattern| && !isGlob
      invariant n + PrefixLen(pattern[n..]) == PrefixLen(pattern)
      decreases |pattern| - n
    {
      assert pattern[n..][1..] == pattern[n + 1..];
      if Special(pattern[n]) {
        var _, err := Match(pattern, WHATEVER);
        if !err { isGlob := true; }
        break;
      }
      n := n + 1;
    }
    assert n == PrefixLen(pattern);
    if n == 0 { return Parsed(Limits(pattern, pattern), false); }
    var a, b := pattern[..n], pattern[..n];
    if desc {
      if b[n - 1] == 0 {
        while b != [] && b[|b| - 1] == 0
          invariant StripZeros(b) == StripZeros(a)
          decreases |b|, b != [] && b[|b| - 1] == 0
        {
          if |b| == 1 {
            b := [];
          } else if b[|b| - 2] == 0 {
            b := b[..|b| - 1];
          } else {
            b := b[..|b| - 2] + [b[|b| - 2] - 1, 0xFF];
          }
        }
      } else {
        b := b[..n - 1] + [b[n - 1] - 1];
      }
      a := Above(a);
    } else {
      b := Above(a);
    }
    return Parsed(Limits(a, b), isGlob);
  }
}
