/** The key range glob.Parse derives from a pattern's literal prefix, and when a scan of that range
    finds every match. */
module GlobRange {
  import opened Bytes
  import opened Glob
  import opened GlobMatch

  predicate Special(b: byte) {
    b == OPEN || b == STAR || b == QUESTION
  }

  /** The number of leading bytes before the first wildcard byte. */
  function PrefixLen(p: Str): (n: nat)
    ensures n <= |p| && (n < |p| ==> Special(p[n]))
    ensures forall i :: 0 <= i < n ==> !Special(p[i])
    decreases |p|
  {
    if p == [] || Special(p[0]) then 0 else 1 + PrefixLen(p[1..])
  }

  function Prefix(p: Str): Str {
    p[..PrefixLen(p)]
  }

  /** The name the parser probes the pattern with to learn whether it is well formed: "whatever". */
  const WHATEVER: Str := [119, 104, 97, 116, 101, 118, 101, 114]

  datatype Limits = Limits(lo: Str, hi: Str)

  datatype Parsed = Parsed(limits: Limits, isGlob: bool)

  /** The successor of a prefix; after 0xFF it only appends a zero byte. */
  function Above(a: Str): (r: Str)
    requires a != []
  {
    var n := |a| - 1;
    if a[n] == 0xFF then a + [0] else a[..n] + [a[n] + 1]
  }

  /** Steps a string that ends in zero bytes down to one that does not. */
  function StripZeros(b: Str): (r: Str)
    ensures r == [] || r[|r| - 1] != 0
    decreases |b|, b != [] && b[|b| - 1] == 0
  {
    if b == [] || b[|b| - 1] != 0 then b
    else if |b| == 1 then []
    else if b[|b| - 2] == 0 then StripZeros(b[..|b| - 1])
    else StripZeros(b[..|b| - 2] + [b[|b| - 2] - 1, 0xFF])
  }

  /** The exclusive lower limit of a descending scan. */
  function Below(a: Str): Str
    requires a != []
  {
    var n := |a| - 1;
    if a[n] == 0 then StripZeros(a) else a[..n] + [a[n] - 1]
  }

  function Parse(p: Str, desc: bool): Parsed {
    if p == [] then Parsed(Limits([], []), false)
    else if p[0] == STAR then Parsed(Limits([], []), true)
    else
      var n := PrefixLen(p);
      if n == 0 then Parsed(Limits(p, p), false)
      else
        var a := p[..n];
        Parsed(if desc then Limits(Above(a), Below(a)) else Limits(a, Above(a)),
               n < |p| && !WildcardMatch(p, WHATEVER).BadPattern?)
  }

  /** Whether a scan visits `id`: everything when both limits are empty, else [lo, hi) ascending
      and (hi, lo] descending. */
  predicate Visits(l: Limits, desc: bool, id: Str) {
    if l.lo == [] && l.hi == [] then true
    else if desc then Less(l.hi, id) && (id == l.lo || Less(id, l.lo))
    else (id == l.lo || Less(l.lo, id)) && Less(id, l.hi)
  }

  // ----- order and prefixes

  lemma {:induction false} LessCommon(c: Str, x: Str, y: Str)
    ensures Less(c + x, c + y) <==> Less(x, y)
    decreases |c|
  {
    if c == [] {
      assert c + x == x && c + y == y;
    } else {
      assert (c + x)[1..] == c[1..] + x && (c + y)[1..] == c[1..] + y;
      LessCommon(c[1..], x, y);
    }
  }

  lemma {:induction false} ExtensionNotLess(a: Str, s: Str)
    requires a <= s
    ensures s == a || Less(a, s)
  {
    assert s == a + s[|a|..] && a + [] == a;
    LessCommon(a, [], s[|a|..]);
  }

  lemma PrefixCons(x: byte, u: Str, s: Str)
    ensures [x] + u <= s <==> s != [] && s[0] == x && u <= s[1..]
  {
    if s != [] { assert s == [s[0]] + s[1..]; }
  }

  /** The strings between a prefix and its successor are exactly the prefix's extensions. */
  lemma {:induction false} BetweenIsPrefix(a: Str, s: Str)
    requires a != [] && a[|a| - 1] != 0xFF
    ensures (s == a || Less(a, s)) && Less(s, Above(a)) <==> a <= s
    decreases |a|
  {
    PrefixCons(a[0], a[1..], s);
    assert a == [a[0]] + a[1..];
    if |a| == 1 {
      assert a[1..] == [] && Above(a) == [a[0] + 1];
      assert Less(s, [a[0] + 1]) <==> s == [] || s[0] <= a[0];
    } else {
      assert Above(a) == [a[0]] + Above(a[1..]);
      if s != [] && s[0] == a[0] { BetweenIsPrefix(a[1..], s[1..]); }
    }
  }

  /** After a last byte 0xFF only the prefix itself lies below the successor. */
  lemma BetweenAfterFF(a: Str, s: Str)
    requires a != [] && a[|a| - 1] == 0xFF
    ensures (s == a || Less(a, s)) && Less(s, Above(a)) <==> s == a
  {
    LessIrreflexive(a);
    assert a + [] == a;
    LessCommon(a, [], [0]);
    if Less(a, s) && Less(s, a + [0]) {
      NothingBetween(a, s);
    }
  }

  lemma {:induction false} NothingBetween(a: Str, s: Str)
    requires Less(a, s)
    ensures !Less(s, a + [0])
    decreases |a|
  {
    if a == [] {
      assert a + [0] == [0];
      var zero: Str := [0];
      assert zero[1..] == [];
    } else {
      assert (a + [0])[1..] == a[1..] + [0];
      if s[0] == a[0] {
        NothingBetween(a[1..], s[1..]);
      }
    }
  }

  lemma {:induction false} StripZerosBelow(b: Str)
    requires b != [] && b[|b| - 1] == 0
    ensures Less(StripZeros(b), b)
    decreases |b|
  {
    var n := |b|;
    if n > 1 {
      if b[n - 2] == 0 {
        var c := b[..n - 1];
        StripZerosBelow(c);
        ExtensionNotLess(c, b);
        LessTrans(StripZeros(c), c, b);
      } else {
        var c := b[..n - 2];
        var x: Str, y: Str := [b[n - 2] - 1, 0xFF], [b[n - 2], 0];
        assert b == c + y;
        LessCommon(c, x, y);
        assert (c + x)[n - 1] == 0xFF;
      }
    }
  }

  lemma BelowIsLess(a: Str)
    requires a != []
    ensures Less(Below(a), a)
  {
    var n := |a| - 1;
    if a[n] == 0 {
      StripZerosBelow(a);
    } else {
      assert a == a[..n] + [a[n]];
      LessCommon(a[..n], [a[n] - 1], [a[n]]);
    }
  }

  // ----- a match starts with the literal prefix

  ghost predicate Plain(p: Str) {
    forall i :: 0 <= i < |p| ==> !Special(p[i]) && p[i] != BACKSLASH
  }

  lemma {:induction false} ChunkLenPlain(p: Str, n: nat)
    requires n <= |p| && Plain(p[..n])
    ensures ChunkLen(p, false) == n + ChunkLen(p[n..], false)
    decreases n
  {
    if n == 0 {
      assert p[0..] == p;
    } else {
      assert p[..n][0] == p[0];
      forall i | 0 <= i < n - 1 ensures !Special(p[1..][i]) && p[1..][i] != BACKSLASH {
        assert p[1..][i] == p[..n][i + 1];
      }
      ChunkLenPlain(p[1..], n - 1);
      assert p[1..][n - 1..] == p[n..];
    }
  }

  lemma {:induction false} MatchChunkPlain(chunk: Str, s: Str, n: nat)
    requires n <= |chunk| && Plain(chunk[..n]) && MatchChunk(chunk, s).Hit?
    ensures chunk[..n] <= s && MatchChunk(chunk[n..], s[n..]) == MatchChunk(chunk, s)
    decreases n
  {
    if n > 0 {
      assert chunk[..n][0] == chunk[0];
      forall i | 0 <= i < n - 1 ensures !Special(chunk[1..][i]) && chunk[1..][i] != BACKSLASH {
        assert chunk[1..][i] == chunk[..n][i + 1];
      }
      MatchChunkPlain(chunk[1..], s[1..], n - 1);
      assert chunk[..n] == [chunk[0]] + chunk[1..][..n - 1] && s == [s[0]] + s[1..];
      assert chunk[1..][n - 1..] == chunk[n..] && s[1..][n - 1..] == s[n..];
    } else {
      assert chunk[0..] == chunk && s[0..] == s;
    }
  }

  /** Every accepted id extends a literal prefix that has no backslash, whatever bytes the id has. */
  lemma MatchHasPrefix(p: Str, id: Str)
    requires p != [] && p[0] != STAR && Plain(Prefix(p))
    requires WildcardMatch(p, id) == Verdict(true)
    ensures Prefix(p) <= id
  {
    hide MatchChunk, ChunkLen, WildcardMatch, ScanChunk;
    var n := PrefixLen(p);
    ChunkLenPlain(p, n);
    FirstChunk(p);
    ChunkUnfolds(p, id);
    var c := ScanChunk(p);
    assert c.chunk[..n] == p[..n];
    MatchChunkPlain(c.chunk, id, n);
  }

  lemma {:induction false} MatchChunkWhole(chunk: Str, s: Str)
    requires Plain(chunk) && MatchChunk(chunk, s).Hit?
    ensures s == chunk + MatchChunk(chunk, s).rest
    decreases |chunk|
  {
    if chunk != [] {
      MatchChunkWhole(chunk[1..], s[1..]);
      assert s == [s[0]] + s[1..] && chunk == [chunk[0]] + chunk[1..];
    } else {
      assert [] + s == s;
    }
  }

  /** A pattern without wildcards and escapes accepts itself at most. */
  lemma LiteralMatchesItself(p: Str, id: Str)
    requires Plain(p) && WildcardMatch(p, id) == Verdict(true)
    ensures id == p
  {
    hide MatchChunk, ChunkLen, SkipMatch;
    if p != [] {
      assert DropStars(p) == p;
      assert p[..|p|] == p && p[|p|..] == [];
      ChunkLenPlain(p, |p|);
      MatchChunkWhole(p, id);
      assert p + [] == p;
    }
  }

  // ----- which matches the range keeps

  /** Ascending: apart from the full scan, the range holds exactly the ids that extend the literal
      prefix byte for byte, and nothing at all when the pattern starts with a wildcard other than a star. */
  lemma AscendingRangeExact(p: Str, id: Str)
    ensures Visits(Parse(p, false).limits, false, id) <==>
            p == [] || p[0] == STAR
            || (PrefixLen(p) > 0 && if Prefix(p)[|Prefix(p)| - 1] == 0xFF then id == Prefix(p) else Prefix(p) <= id)
  {
    hide WildcardMatch;
    if p != [] && p[0] != STAR {
      if PrefixLen(p) == 0 {
        LessIrreflexive(p);
        if Less(p, id) && Less(id, p) { LessTrans(p, id, p); }
      } else {
        var a := Prefix(p);
        if a[|a| - 1] == 0xFF { BetweenAfterFF(a, id); } else { BetweenIsPrefix(a, id); }
      }
    }
  }

  lemma AboveIsMore(a: Str)
    requires a != []
    ensures Less(a, Above(a))
  {
    if a[|a| - 1] == 0xFF { BetweenAfterFF(a, a); } else { BetweenIsPrefix(a, a); }
  }

  /** The strings between the predecessor of a prefix and the prefix: the proper extensions of the predecessor. */
  lemma GapIsExtension(a: Str, s: Str)
    requires a != [] && a[|a| - 1] != 0
    ensures Less(Below(a), s) && Less(s, a) <==> Below(a) < s
  {
    var b, n := Below(a), |a| - 1;
    assert b[n] == a[n] - 1 && b[..n] == a[..n];
    assert Above(b) == a;
    BetweenIsPrefix(b, s);
    LessIrreflexive(b);
    if b <= s {
      ExtensionNotLess(b, s);
      assert |s| == |b| ==> s == b;
    }
  }

  /** The ids below a prefix that a descending scan still visits. */
  predicate InGap(a: Str, id: Str)
    requires a != []
  {
    if a[|a| - 1] == 0 then Less(StripZeros(a), id) && Less(id, a) else Below(a) < id
  }

  /** Descending: apart from the full scan, the range holds the ids that extend the literal prefix (only the
      prefix itself if it ends in 0xFF), the prefix's successor, and what lies between the predecessor and the
      prefix. */
  lemma DescendingRangeExact(p: Str, id: Str)
    ensures Visits(Parse(p, true).limits, true, id) <==>
            p == [] || p[0] == STAR
            || (PrefixLen(p) > 0 && var a := Prefix(p);
                                    || (if a[|a| - 1] == 0xFF then id == a else a <= id)
                                    || id == Above(a)
                                    || InGap(a, id))
  {
    hide WildcardMatch, StripZeros;
    if p != [] && p[0] != STAR {
      if PrefixLen(p) == 0 {
        LessIrreflexive(p);
        if Less(p, id) && Less(id, p) { LessTrans(p, id, p); }
      } else {
        DescendingRange(Prefix(p), id);
      }
    }
  }

  lemma DescendingRange(a: Str, id: Str)
    requires a != []
    ensures Less(Below(a), id) && (id == Above(a) || Less(id, Above(a))) <==>
            (if a[|a| - 1] == 0xFF then id == a else a <= id) || id == Above(a) || InGap(a, id)
  {
    BelowIsLess(a);
    AboveIsMore(a);
    if a[|a| - 1] != 0 { GapIsExtension(a, id); }
    hide StripZeros, Less, Above;
    if a[|a| - 1] == 0xFF { BetweenAfterFF(a, id); } else { BetweenIsPrefix(a, id); }
    LessTotal(a, id);
    if Less(id, a) {
      LessTrans(id, a, Above(a));
      LessAsymmetric(id, a);
    } else {
      if Less(a, id) {
        LessTrans(Below(a), a, id);
        LessAsymmetric(a, id);
      }
    }
  }

  /** The flag Parse returns: of a well-formed pattern it says whether there is a wildcard, except that it misses one
      other than a star at the front. */
  lemma FlagIff(p: Str, desc: bool)
    requires ParseToks(p).Some?
    ensures Parse(p, desc).isGlob <==>
            (exists i :: 0 <= i < |p| && Special(p[i])) && p[0] != QUESTION && p[0] != OPEN
  {
    hide WildcardMatch, ParseToks;
    OnlyWellFormedMatch(p, WHATEVER);
    var n := PrefixLen(p);
    if n < |p| { assert Special(p[n]); }
  }

  /** The condition a caller can read off the pattern: a full scan, or a literal prefix of at least
      one byte without backslashes, which if more follows does not end in 0xFF. */
  predicate RangeSafe(p: Str) {
    p == [] || p[0] == STAR
    || (PrefixLen(p) > 0 && BACKSLASH !in Prefix(p) && (Prefix(p)[PrefixLen(p) - 1] != 0xFF || PrefixLen(p) == |p|))
  }

  /** Under that condition the scanned range loses no match in either direction. */
  lemma SafeRangeKeepsMatches(p: Str, desc: bool, id: Str)
    requires RangeSafe(p) && WildcardMatch(p, id) == Verdict(true)
    ensures Visits(Parse(p, desc).limits, desc, id)
  {
    hide WildcardMatch, StripZeros;
    if p != [] && p[0] != STAR {
      assert Plain(Prefix(p));
      MatchHasPrefix(p, id);
      if PrefixLen(p) == |p| {
        assert Prefix(p) == p;
        LiteralMatchesItself(p, id);
      }
      if desc { DescendingRangeExact(p, id); } else { AscendingRangeExact(p, id); }
    }
  }

  /** Outside it matches are lost. A pattern that starts with a question mark or a bracket
      scans the empty range. */
  lemma LeadingWildcardScansNothing(p: Str, desc: bool, id: Str)
    requires p != [] && (p[0] == QUESTION || p[0] == OPEN)
    ensures !Visits(Parse(p, desc).limits, desc, id)
  {
    hide WildcardMatch;
    assert PrefixLen(p) == 0;
    LessIrreflexive(p);
    if Less(p, id) && Less(id, p) { LessTrans(p, id, p); }
  }

  // ----- whole scans

  /** The ids of a visit list a filter keeps, in visiting order. */
  ghost function Filter(ids: seq<Str>, keep: Str -> bool): (r: seq<Str>) {
    if ids == [] then []
    else (if keep(ids[0]) then [ids[0]] else []) + Filter(ids[1..], keep)
  }

  lemma {:induction false} FilterTwice(ids: seq<Str>, range: Str -> bool, hit: Str -> bool)
    requires forall id :: id in ids && hit(id) ==> range(id)
    ensures Filter(Filter(ids, range), hit) == Filter(ids, hit)
    decreases |ids|
  {
    if ids != [] {
      FilterTwice(ids[1..], range, hit);
      var tail := Filter(ids[1..], range);
      if range(ids[0]) {
        assert ([ids[0]] + tail)[1..] == tail;
      } else {
        assert [] + tail == tail;
      }
    }
  }

  /** Range scan plus filter is full scan plus filter: same ids, same order. */
  lemma RangeScanEqualsFullScan(p: Str, desc: bool, ids: seq<Str>)
    requires RangeSafe(p)
    ensures var hit := id => WildcardMatch(p, id) == Verdict(true);
            var range := id => Visits(Parse(p, desc).limits, desc, id);
            Filter(Filter(ids, range), hit) == Filter(ids, hit)
  {
    hide WildcardMatch;
    var hit := id => WildcardMatch(p, id) == Verdict(true);
    var range := id => Visits(Parse(p, desc).limits, desc, id);
    forall id | id in ids && hit(id) ensures range(id) {
      SafeRangeKeepsMatches(p, desc, id);
    }
    FilterTwice(ids, range, hit);
  }

  // ----- PDEL

  /** The ids PDEL removes: scanned in the ascending range and accepted by the matcher. */
  predicate Pdels(p: Str, id: Str) {
    Visits(Parse(p, false).limits, false, id) && WildcardMatch(p, id) == Verdict(true)
  }

  /** PDEL removes an id without wide characters exactly when the pattern denotes it and the literal prefix lets the
      scan reach it, and a safe pattern always does. */
  lemma PdelRemovesExactlyMatches(p: Str, id: Str)
    requires Narrow(id)
    ensures Pdels(p, id) <==>
            Denotes(p, id)
            && (p == [] || p[0] == STAR
                || (PrefixLen(p) > 0
                    && if Prefix(p)[|Prefix(p)| - 1] == 0xFF then id == Prefix(p) else Prefix(p) <= id))
    ensures RangeSafe(p) ==> (Pdels(p, id) <==> Denotes(p, id))
  {
    hide WildcardMatch, Denotes, Visits, RangeSafe;
    MatchIffDenotes(p, id);
    AscendingRangeExact(p, id);
    if RangeSafe(p) && WildcardMatch(p, id) == Verdict(true) { SafeRangeKeepsMatches(p, false, id); }
  }
}
