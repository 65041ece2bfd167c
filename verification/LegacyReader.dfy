/** The reader of the older log format: length-prefixed frames cut out of a buffer that is refilled by reads of
    any size. */
module LegacyReader {
  import opened Bytes
  import opened LittleEndian

  // ----- frames

  function Uint32(b: seq<byte>): (n: nat)
    requires |b| == 4
    ensures n < 0x1_0000_0000
  {
    FourBytes();
    Get(b)
  }

  lemma Uint32Is(b: seq<byte>)
    requires |b| == 4
    ensures var n: int, m: int, k: int := b[1], b[2], b[3];
            Uint32(b) == b[0] + 0x100 * n + 0x1_0000 * m + 0x100_0000 * k
  {
    var c, d, e := b[1..], b[2..], b[3..];
    assert c[1..] == d && d[1..] == e && e[1..] == [];
    assert Get(e) == e[0] + 256 * Get([]);
    assert Get(d) == d[0] + 256 * Get(e);
    assert Get(c) == c[0] + 256 * Get(d);
  }

  function PutUint32(n: nat): (b: seq<byte>)
    requires n < 0x1_0000_0000
    ensures |b| == 4
  {
    Put(n, 4)
  }

  lemma PutUint32Reads(n: nat)
    requires n < 0x1_0000_0000
    ensures Uint32(PutUint32(n)) == n
  {
    FourBytes();
    GetPut(n, 4);
  }

  lemma Uint32Injective(a: seq<byte>, b: seq<byte>)
    requires |a| == 4 && |b| == 4 && Uint32(a) == Uint32(b)
    ensures a == b
  {
    GetInjective(a, b);
  }

  /** A frame: the length, the command, the length again, a zero byte. */
  function Frame(c: Str): (f: Str)
    requires |c| < 0x1_0000_0000
    ensures |f| == |c| + 9
  {
    PutUint32(|c|) + c + PutUint32(|c|) + [0]
  }

  datatype Cut = Whole(cmd: Str) | Corrupt | Partial

  /** What the front of a stream holds: a frame, a broken frame, or too little to tell. */
  function Front(s: Str): (r: Cut)
    ensures r.Whole? ==> |r.cmd| + 9 <= |s|
  {
    if |s| < 4 then Partial
    else
      var sz := Uint32(s[..4]);
      if |s| < sz + 9 then Partial
      else if Uint32(s[sz + 4..sz + 8]) != sz || s[sz + 8] != 0 then Corrupt
      else Whole(s[4..sz + 4])
  }

  lemma FrontOfFrame(c: Str, rest: Str)
    requires |c| < 0x1_0000_0000
    ensures Front(Frame(c) + rest) == Whole(c)
  {
    hide Uint32, PutUint32;
    var s := Frame(c) + rest;
    assert s[..4] == PutUint32(|c|);
    assert s[|c| + 4..|c| + 8] == PutUint32(|c|);
    assert s[4..|c| + 4] == c;
    PutUint32Reads(|c|);
  }

  /** Only a frame reads as a command. */
  lemma WholeIsFrame(s: Str)
    requires Front(s).Whole?
    ensures |Front(s).cmd| < 0x1_0000_0000 && s[..|Front(s).cmd| + 9] == Frame(Front(s).cmd)
  {
    hide Uint32, PutUint32;
    var c := Front(s).cmd;
    var sz := |c|;
    PutUint32Reads(sz);
    Uint32Injective(s[..4], PutUint32(sz));
    Uint32Injective(s[sz + 4..sz + 8], PutUint32(sz));
    assert s[..sz + 9] == s[..4] + s[4..sz + 4] + s[sz + 4..sz + 8] + [s[sz + 8]];
  }

  /** More data does not change the verdict on a frame that is already complete. */
  lemma FrontIsStable(s: Str, more: Str)
    requires !Front(s).Partial?
    ensures Front(s + more) == Front(s)
  {
    hide Uint32;
    var t := s + more;
    assert t[..4] == s[..4];
    var sz := Uint32(s[..4]);
    assert t[sz + 4..sz + 8] == s[sz + 4..sz + 8] && t[4..sz + 4] == s[4..sz + 4];
  }

  /** Every proper prefix of a frame is too little. */
  lemma TruncatedFrameIsPartial(c: Str, n: nat)
    requires |c| < 0x1_0000_0000 && n < |Frame(c)|
    ensures Front(Frame(c)[..n]).Partial?
  {
    hide Uint32, PutUint32;
    if n >= 4 {
      PutUint32Reads(|c|);
      assert Frame(c)[..n][..4] == PutUint32(|c|);
    }
  }

  function Frames(cs: seq<Str>): Str
    requires forall c :: c in cs ==> |c| < 0x1_0000_0000
  {
    if cs == [] then [] else Frames(cs[..|cs| - 1]) + Frame(cs[|cs| - 1])
  }

  lemma {:induction false} FramesCons(c: Str, cs: seq<Str>)
    requires |c| < 0x1_0000_0000 && forall d :: d in cs ==> |d| < 0x1_0000_0000
    ensures Frames([c] + cs) == Frame(c) + Frames(cs)
    decreases |cs|
  {
    hide Frame;
    var all := [c] + cs;
    if cs == [] {
      assert all[..|all| - 1] == [];
    } else {
      assert all[..|all| - 1] == [c] + cs[..|cs| - 1];
      FramesCons(c, cs[..|cs| - 1]);
    }
  }

  /** A stream has one reading: the commands, and what is left that is not a frame. */
  lemma {:induction false} OneReading(cs: seq<Str>, tail: Str, ds: seq<Str>, left: Str)
    requires forall c :: c in cs ==> |c| < 0x1_0000_0000
    requires forall d :: d in ds ==> |d| < 0x1_0000_0000
    requires Frames(cs) + tail == Frames(ds) + left && !Front(tail).Whole? && !Front(left).Whole?
    ensures cs == ds && tail == left
    decreases |cs|
  {
    hide Front, Frame, Frames;
    if cs == [] || ds == [] {
      NotBoth(cs, tail);
      NotBoth(ds, left);
    } else {
      Split(cs, tail);
      Split(ds, left);
      assert Frames(cs[1..]) + tail == (Frames(cs) + tail)[|cs[0]| + 9..];
      OneReading(cs[1..], tail, ds[1..], left);
      assert cs == [cs[0]] + cs[1..] && ds == [ds[0]] + ds[1..];
    }
  }

  lemma Split(cs: seq<Str>, tail: Str)
    requires cs != [] && forall c :: c in cs ==> |c| < 0x1_0000_0000
    ensures Frames(cs) + tail == Frame(cs[0]) + (Frames(cs[1..]) + tail)
    ensures (Frames(cs) + tail)[|cs[0]| + 9..] == Frames(cs[1..]) + tail
    ensures Front(Frames(cs) + tail) == Whole(cs[0])
  {
    hide Front, Frame, Frames;
    assert cs == [cs[0]] + cs[1..];
    FramesCons(cs[0], cs[1..]);
    Regroup(Frame(cs[0]), Frames(cs[1..]), tail);
    FrontOfFrame(cs[0], Frames(cs[1..]) + tail);
  }

  lemma Regroup(a: Str, b: Str, c: Str)
    ensures a + b + c == a + (b + c) && (a + b + c)[|a|..] == b + c
  {}

  lemma NotBoth(cs: seq<Str>, tail: Str)
    requires forall c :: c in cs ==> |c| < 0x1_0000_0000
    ensures if cs == [] then Frames(cs) + tail == tail else Front(Frames(cs) + tail).Whole?
  {
    hide Front, Frame;
    if cs != [] { Split(cs, tail); } else { assert [] + tail == tail; }
  }

  /** A stream of frames cut anywhere: the frames before the cut, then a rest that is too little, and empty
      only if the cut fell between two frames. */
  lemma {:induction false} TruncatedStream(cs: seq<Str>, n: nat) returns (k: nat, tail: Str)
    requires (forall c :: c in cs ==> |c| < 0x1_0000_0000) && n <= |Frames(cs)|
    ensures k <= |cs| && Frames(cs)[..n] == Frames(cs[..k]) + tail && Front(tail).Partial?
    decreases |cs|
  {
    hide Front, Frame;
    if cs == [] {
      k, tail := 0, [];
      NothingIsPartial();
    } else {
      var m := |cs| - 1;
      var init := Frames(cs[..m]);
      if n <= |init| {
        k, tail := TruncatedStream(cs[..m], n);
        assert Frames(cs)[..n] == init[..n];
        assert cs[..m][..k] == cs[..k];
      } else if n < |Frames(cs)| {
        k, tail := m, Frame(cs[m])[..n - |init|];
        TruncatedFrameIsPartial(cs[m], n - |init|);
        assert Frames(cs)[..n] == init + tail;
      } else {
        k, tail := |cs|, [];
        NothingIsPartial();
        assert cs[..k] == cs && Frames(cs)[..n] == Frames(cs) + [];
      }
    }
  }

  lemma NothingIsPartial()
    ensures Front([]).Partial?
  {}

  lemma OneMore(cs: seq<Str>, left: Str, all: Str)
    requires forall c :: c in cs ==> |c| < 0x1_0000_0000
    requires all == Frames(cs) + left && Front(left).Whole?
    ensures var c := Front(left).cmd;
            |c| < 0x1_0000_0000 && all == Frames(cs + [c]) + left[|c| + 9..]
  {
    hide Front, Frame;
    WholeIsFrame(left);
    var c := Front(left).cmd;
    var more := cs + [c];
    assert more[..|more| - 1] == cs;
    assert left == Frame(c) + left[|c| + 9..];
  }

  // ----- the stream underneath

  datatype Failure = EOF | UnexpectedEOF | CorruptedAOF | Other(code: int)

  datatype Result = Command(cmd: Str) | Failed(err: Failure)

  /** What one Read returned: some bytes, possibly none, and possibly an error with them. */
  datatype Chunk = Chunk(bytes: Str, err: Option<Failure>)

  /** The bytes up to the first error, and that error; a source that has nothing left is at its end. */
  function Upcoming(cs: seq<Chunk>): Str {
    if cs == [] then [] else if cs[0].err.Some? then cs[0].bytes else cs[0].bytes + Upcoming(cs[1..])
  }

  function NextError(cs: seq<Chunk>): Failure {
    if cs == [] then EOF else if cs[0].err.Some? then cs[0].err.value else NextError(cs[1..])
  }

  function PastError(cs: seq<Chunk>): seq<Chunk> {
    if cs == [] then [] else if cs[0].err.Some? then cs[1..] else PastError(cs[1..])
  }

  /** The data before the next error, given the error of the last read. */
  function Ahead(rerr: Option<Failure>, cs: seq<Chunk>): Str {
    if rerr.Some? then [] else Upcoming(cs)
  }

  function AtEnd(rerr: Option<Failure>, cs: seq<Chunk>): Failure {
    if rerr.Some? then rerr.value else NextError(cs)
  }

  lemma ReadChunk(cs: seq<Chunk>)
    ensures var c := if cs == [] then Chunk([], Some(EOF)) else cs[0];
            var rest := if cs == [] then [] else cs[1..];
            && Ahead(None, cs) == c.bytes + Ahead(c.err, rest)
            && AtEnd(None, cs) == AtEnd(c.err, rest)
            && PastError(cs) == if c.err.Some? then rest else PastError(rest)
  {}

  lemma SliceOfSlice<T>(s: seq<T>, p: nat, l: nat, i: nat, j: nat)
    requires p + l <= |s| && i <= j <= l
    ensures s[p..p + l][i..j] == s[p + i..p + j]
  {
    var t := s[p..p + l];
    forall k | 0 <= k < j - i ensures t[i..j][k] == s[p + i..p + j][k] {
      assert t[i..j][k] == t[i + k] == s[p + i + k];
    }
  }

  /** The front of the data at `p`, read at absolute positions. */
  lemma FrontAt(s: Str, p: nat, l: nat)
    requires p + l <= |s|
    ensures Front(s[p..p + l]) ==
            if l < 4 then Partial
            else
              var sz := Uint32(s[p..p + 4]);
              if l < sz + 9 then Partial
              else if Uint32(s[p + 4 + sz..p + 4 + sz + 4]) != sz || s[p + 4 + sz + 4] != 0 then Corrupt
              else Whole(s[p + 4..p + 4 + sz])
  {
    hide Uint32;
    var t := s[p..p + l];
    if l >= 4 {
      SliceOfSlice(s, p, l, 0, 4);
      assert t[..4] == t[0..4];
      var sz := Uint32(s[p..p + 4]);
      if l >= sz + 9 {
        SliceOfSlice(s, p, l, sz + 4, sz + 8);
        SliceOfSlice(s, p, l, 4, sz + 4);
      }
    }
  }

  // ----- the reader

  class Reader {
    var chunks: seq<Chunk>
    var rerr: Option<Failure>
    var buf: array<byte>
    var l: nat
    var p: nat

    ghost predicate Valid()
      reads this
    {
      p + l <= buf.Length
    }

    ghost function Buffered(): Str
      reads this, buf
      requires Valid()
    {
      buf[p..p + l]
    }

    /** Everything that comes before the next error. */
    ghost function Pending(): Str
      reads this, buf
      requires Valid()
    {
      Buffered() + Ahead(rerr, chunks)
    }

    ghost function Ending(): Failure
      reads this
    {
      AtEnd(rerr, chunks)
    }

    constructor (source: seq<Chunk>)
      ensures Valid() && fresh(buf) && Pending() == Upcoming(source) && Ending() == NextError(source)
    {
      chunks, rerr, l, p := source, None, 0, 0;
      buf := new byte[0];
    }

    /** One record from the buffer, if it is complete. */
    method TakeFrame() returns (r: Option<Result>)
      requires Valid()
      modifies `l, `p
      ensures Valid()
      ensures match old(Front(Buffered()))
              case Whole(c) => r == Some(Command(c)) && Buffered() == old(Buffered())[|c| + 9..]
              case Corrupt => r == Some(Failed(CorruptedAOF)) && l == old(l) && p == old(p)
              case Partial => r == None && l == old(l) && p == old(p)
    {
      hide Uint32, Front;
      r := None;
      FrontAt(buf[..], p, l);
      if l >= 4 {
        var sz1 := Uint32(buf[p..p + 4]);
        if l >= sz1 + 9 {
          SliceOfSlice(buf[..], p, l, sz1 + 9, l);
          var sz2 := Uint32(buf[p + 4 + sz1..p + 4 + sz1 + 4]);
          if sz2 != sz1 || buf[p + 4 + sz1 + 4] != 0 {
            return Some(Failed(CorruptedAOF));
          }
          r := Some(Command(buf[p + 4..p + 4 + sz1]));
          p := p + sz1 + 9;
          l := l - (sz1 + 9);
        }
      }
    }

    /** Moves the unread data to the front of the buffer. */
    method Compact()
      requires Valid()
      modifies this`p, buf
      ensures Valid() && p == 0 && Buffered() == old(Buffered())
    {
      forall i | 0 <= i < l { buf[i] := buf[p + i]; }
      p := 0;
    }

    /** Appends what was read, growing the buffer when it is full. */
    method Add(cbuf: Str)
      requires Valid() && p == 0
      modifies this`buf, this`l, buf
      ensures Valid() && p == 0 && Buffered() == old(Buffered()) + cbuf
      ensures buf == old(buf) || fresh(buf)
    {
      var n := |cbuf|;
      if buf.Length - l < n {
        var bigger := new byte[l + n];
        forall i | 0 <= i < l { bigger[i] := buf[i]; }
        forall i | 0 <= i < n { bigger[l + i] := cbuf[i]; }
        assert bigger[..l + n] == buf[..l] + cbuf;
        buf := bigger;
      } else {
        ghost var was := buf[..l];
        forall i | 0 <= i < n { buf[l + i] := cbuf[i]; }
        assert buf[..l + n] == was + cbuf;
      }
      l := l + n;
    }

    /** One read: its bytes join the buffer, its error is kept for later. */
    method Fill()
      requires Valid() && rerr.None?
      modifies this, buf
      ensures Valid() && (buf == old(buf) || fresh(buf))
      ensures Pending() == old(Pending()) && Ending() == old(Ending())
      ensures old(chunks) != [] ==> |chunks| < |old(chunks)|
      ensures old(chunks) == [] ==> chunks == [] && rerr == Some(EOF)
      ensures PastError(old(chunks)) == if rerr.Some? then chunks else PastError(chunks)
    {
      hide Ahead, AtEnd, PastError;
      ReadChunk(chunks);
      if p != 0 { Compact(); }
      ghost var had := Buffered();
      var c := if chunks == [] then Chunk([], Some(EOF)) else chunks[0];
      chunks := if chunks == [] then [] else chunks[1..];
      rerr := c.err;
      if |c.bytes| > 0 { Add(c.bytes); }
      assert Buffered() == had + c.bytes;
      Regroup(had, c.bytes, Ahead(rerr, chunks));
    }

    /** One command off the stream, or the verdict on what is left of it, however the reads fell. */
    method ReadCommand() returns (r: Result)
      requires Valid()
      modifies this, buf
      ensures Valid() && (buf == old(buf) || fresh(buf))
      ensures match Front(old(Pending()))
              case Whole(c) =>
                r == Command(c) && Pending() == old(Pending())[|c| + 9..] && Ending() == old(Ending())
              case Corrupt =>
                r == Failed(CorruptedAOF) && Pending() == old(Pending()) && Ending() == old(Ending())
              case Partial =>
                && Buffered() == old(Pending())
                && chunks == (if old(rerr).Some? then old(chunks) else PastError(old(chunks)))
                && r == Failed(if old(Ending()) != EOF then old(Ending())
                               else if old(Pending()) != [] then UnexpectedEOF else EOF)
                && rerr == if old(Ending()) == EOF then None else Some(old(Ending()))
      decreases |chunks|, if rerr.None? then 1 else 0
    {
      hide Front, Upcoming, NextError, PastError;
      ghost var had, ahead := Buffered(), Ahead(rerr, chunks);
      var taken := TakeFrame();
      if taken.Some? {
        FrontIsStable(had, ahead);
        assert Front(had).Whole? ==> (had + ahead)[|Front(had).cmd| + 9..] == had[|Front(had).cmd| + 9..] + ahead;
        return taken.value;
      }
      if rerr.Some? {
        assert had + ahead == had;
        if rerr == Some(EOF) {
          rerr := None;
          if l != 0 { return Failed(UnexpectedEOF); }
          return Failed(EOF);
        }
        return Failed(rerr.value);
      }
      Fill();
      r := ReadCommand();
    }

    /** Commands until the first failure: the frames of the stream, in order, and what stopped it. */
    method ReadAll() returns (cmds: seq<Str>, err: Failure, ghost left: Str)
      requires Valid()
      modifies this, buf
      ensures Valid()
      ensures forall c :: c in cmds ==> |c| < 0x1_0000_0000
      ensures old(Pending()) == Frames(cmds) + left && !Front(left).Whole?
      ensures err == if Front(left).Corrupt? then CorruptedAOF
                     else if old(Ending()) != EOF then old(Ending())
                     else if left != [] then UnexpectedEOF else EOF
    {
      hide Front, Frame, Upcoming, NextError, PastError;
      cmds, left := [], Pending();
      ghost var all, ending := Pending(), Ending();
      while true
        invariant Valid() && (buf == old(buf) || fresh(buf))
        invariant forall c :: c in cmds ==> |c| < 0x1_0000_0000
        invariant left == Pending() && all == Frames(cmds) + left && Ending() == ending
        decreases |left|
      {
        var r := ReadCommand();
        if r.Failed? { return cmds, r.err, left; }
        OneMore(cmds, left, all);
        cmds := cmds + [r.cmd];
        left := left[|r.cmd| + 9..];
      }
    }

    /** A stream of frames, cut off at any byte and delivered in any pieces, yields the commands before the cut
        and then EOF, or unexpected EOF if the cut left part of a frame. */
    method ReadFrames(ghost cs: seq<Str>, ghost n: nat) returns (cmds: seq<Str>, err: Failure)
      requires Valid() && (forall c :: c in cs ==> |c| < 0x1_0000_0000) && n <= |Frames(cs)|
      requires Pending() == Frames(cs)[..n] && Ending() == EOF
      modifies this, buf
      ensures cmds <= cs && |Frames(cmds)| <= n
      ensures |cmds| < |cs| ==> n < |Frames(cs[..|cmds| + 1])|
      ensures err == if n == |Frames(cmds)| then EOF else UnexpectedEOF
    {
      hide Front, Frame, Frames, Upcoming, NextError, PastError;
      ghost var left;
      ghost var k, tail := TruncatedStream(cs, n);
      ghost var stream := Pending();
      cmds, err, left := ReadAll();
      OneReading(cs[..k], tail, cmds, left);
      assert |stream| == n;
      if k < |cs| { FrameDoesNotFit(cs, k, tail, n); }
    }
  }

  lemma FrameDoesNotFit(cs: seq<Str>, k: nat, tail: Str, n: nat)
    requires (forall c :: c in cs ==> |c| < 0x1_0000_0000) && k < |cs| && n <= |Frames(cs)|
    requires Frames(cs)[..n] == Frames(cs[..k]) + tail && Front(tail).Partial?
    ensures n < |Frames(cs[..k + 1])|
  {
    hide Front, Frame;
    var head := cs[..k + 1];
    assert head[..|head| - 1] == cs[..k];
    if n >= |Frames(head)| {
      FramesPrefix(cs, k + 1);
      var more := Frames(cs)[..n][|Frames(head)|..];
      assert Frames(cs)[..n] == Frames(head) + more;
      assert Frames(cs[..k]) + tail == Frames(cs[..k]) + (Frame(cs[k]) + more);
      assert tail == (Frames(cs[..k]) + tail)[|Frames(cs[..k])|..];
      assert tail == Frame(cs[k]) + more;
      FrontOfFrame(cs[k], more);
    }
  }

  lemma {:induction false} FramesPrefix(cs: seq<Str>, k: nat)
    requires (forall c :: c in cs ==> |c| < 0x1_0000_0000) && k <= |cs|
    ensures Frames(cs[..k]) <= Frames(cs)
    decreases |cs|
  {
    hide Frame;
    if k == |cs| {
      assert cs[..k] == cs;
    } else {
      FramesPrefix(cs[..|cs| - 1], k);
      assert cs[..|cs| - 1][..k] == cs[..k];
    }
  }
}
