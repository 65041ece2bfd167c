/** A follower that replays its leader's log stream and keeps a log of its own. */
module Follower {
  import opened Bytes
  import opened Dataset
  import opened Replay
  import opened Shrink
  import Objects

  datatype Replica = Replica(data: Data, aof: seq<Cmd>)

  /** followHandleCommand for a command whose error, if any, is not fatal:
      execute, then log when the command updated something. */
  function Receive(f: Replica, c: Cmd): Replica {
    var o := Exec(f.data, c, Null);
    Replica(o.data, if o.updated then f.aof + [c] else f.aof)
  }

  function ReceiveAll(f: Replica, cs: seq<Cmd>): Replica
    decreases |cs|
  {
    if cs == [] then f else ReceiveAll(Receive(f, cs[0]), cs[1..])
  }

  const Fresh := Replica(map[], [])

  /** The follower's log replays to its dataset, and its dataset is the replay of what it received. */
  ghost predicate Tracks(f: Replica, received: seq<Cmd>) {
    && Wf(f.data) && Clean(f.aof)
    && f.data == Run(map[], received) && Run(map[], f.aof) == f.data
  }

  /** Every streamed command keeps both facts: the dataset never diverges. */
  lemma ReceiveTracks(f: Replica, received: seq<Cmd>, c: Cmd)
    requires Tracks(f, received) && !(c.Fset? && c.bad)
    ensures Tracks(Receive(f, c), received + [c])
  {
    hide Run, Exec;
    RunSnoc(map[], received, c);
    RunSnoc(map[], f.aof, c);
    ExecKeepsWf(f.data, c, Null);
    if !Exec(f.data, c, Null).updated { NotUpdatedUnchanged(f.data, c, Null); }
  }

  lemma {:induction false} StreamTracks(f: Replica, received: seq<Cmd>, cs: seq<Cmd>)
    requires Tracks(f, received) && Clean(cs)
    ensures Tracks(ReceiveAll(f, cs), received + cs)
    decreases |cs|
  {
    hide Tracks, Receive;
    if cs == [] {
      assert received + cs == received;
    } else {
      ReceiveTracks(f, received, cs[0]);
      StreamTracks(Receive(f, cs[0]), received + [cs[0]], cs[1..]);
      assert received + [cs[0]] + cs[1..] == received + cs;
    }
  }

  /** The follower re-logs a received command, once, if and only if its dataset holds what the command needs in
      order to update it; only then does its log stay what it received. */
  lemma StaysPrefixIffUpdates(f: Replica, received: seq<Cmd>, c: Cmd)
    requires f.aof == received && !(c.Fset? && c.bad)
    ensures Receive(f, c).aof == received + [c] <==> Updates(f.data, c)
    ensures Receive(f, c).aof == received || Receive(f, c).aof == received + [c]
  {
    hide Exec, Updates;
    assert |received + [c]| == |received| + 1;
    UpdatedIsLogged(f.data, c);
    LoggedIffUpdates(f.data, c, Null);
  }

  lemma UpdatedIsLogged(d: Data, c: Cmd)
    requires !(c.Fset? && c.bad)
    ensures Exec(d, c, Null).updated <==> Logged(Exec(d, c, Null))
  {
    hide PutAll, Changes, Hits;
  }

  lemma {:induction false} LogLength(f: Replica, cs: seq<Cmd>)
    ensures |ReceiveAll(f, cs).aof| <= |f.aof| + |cs|
    decreases |cs|
  {
    hide Exec;
    if cs != [] { LogLength(Receive(f, cs[0]), cs[1..]); }
  }

  lemma {:induction false} MirrorsIffAllLogged(f: Replica, received: seq<Cmd>, cs: seq<Cmd>)
    requires f.aof == received && Clean(cs)
    ensures ReceiveAll(f, cs).aof == received + cs <==> AllLogged(f.data, cs)
    decreases |cs|
  {
    hide Exec;
    if cs == [] {
      assert received + cs == received;
    } else {
      var c, rest := cs[0], cs[1..];
      var g := Receive(f, c);
      UpdatedIsLogged(f.data, c);
      if Exec(f.data, c, Null).updated {
        MirrorsIffAllLogged(g, received + [c], rest);
        assert received + [c] + rest == received + cs;
      } else {
        LogLength(g, rest);
        assert |received + cs| == |received| + |cs|;
      }
    }
  }

  /** Over a whole stream: the follower's log equals what it received if and only if every received
      command meets a dataset that it updates. */
  lemma MirrorsIffAllUpdate(f: Replica, received: seq<Cmd>, cs: seq<Cmd>)
    requires f.aof == received && Clean(cs)
    ensures ReceiveAll(f, cs).aof == received + cs <==> AllUpdate(f.data, cs)
  {
    hide ReceiveAll, AllLogged, AllUpdate;
    MirrorsIffAllLogged(f, received, cs);
    AllLoggedIffAllUpdate(f.data, cs);
  }

  // ----- catching up

  /** The size of a log file, given the size of each command on the wire. */
  ghost function FileSize(cs: seq<Cmd>, size: Cmd -> nat): nat
    decreases |cs|
  {
    if cs == [] then 0 else FileSize(cs[..|cs| - 1], size) + size(cs[|cs| - 1])
  }

  lemma {:induction false} FileSizeAppend(a: seq<Cmd>, b: seq<Cmd>, size: Cmd -> nat)
    ensures FileSize(a + b, size) == FileSize(a, size) + FileSize(b, size)
    decreases |b|
  {
    if b == [] {
      assert a + b == a;
    } else {
      assert (a + b)[..|a + b| - 1] == a + b[..|b| - 1];
      FileSizeAppend(a, b[..|b| - 1], size);
    }
  }

  lemma {:induction false} SkippedCommandsAreMissing(f: Replica, cs: seq<Cmd>, size: Cmd -> nat)
    requires Clean(cs) && forall c :: size(c) > 0
    ensures FileSize(f.aof, size) <= FileSize(ReceiveAll(f, cs).aof, size) <= FileSize(f.aof, size) + FileSize(cs, size)
    ensures FileSize(ReceiveAll(f, cs).aof, size) == FileSize(f.aof, size) + FileSize(cs, size)
            <==> AllLogged(f.data, cs)
    decreases |cs|
  {
    hide Exec;
    if cs != [] {
      var c, rest := cs[0], cs[1..];
      UpdatedIsLogged(f.data, c);
      SkippedCommandsAreMissing(Receive(f, c), rest, size);
      assert cs == [c] + rest;
      FileSizeAppend([c], rest, size);
      FileSizeAppend(f.aof, [c], size);
      assert [c][..0] == [];
      assert FileSize([c], size) == size(c);
    }
  }

  /** The streaming loop of followStep: `caughtUp` is set once the follower's own log file has reached
      the size the leader reported. */
  method Stream(start: Replica, stream: seq<Cmd>, pos: nat, aofSize: nat, size: Cmd -> nat)
    returns (f: Replica, caughtUp: bool)
    requires Clean(stream)
    ensures f == ReceiveAll(start, stream)
    ensures caughtUp <==> pos >= aofSize || (stream != [] && FileSize(f.aof, size) >= aofSize)
  {
    hide Exec;
    f, caughtUp := start, pos >= aofSize;
    for i := 0 to |stream|
      invariant ReceiveAll(f, stream[i..]) == ReceiveAll(start, stream)
      invariant caughtUp <==> pos >= aofSize || (i > 0 && FileSize(f.aof, size) >= aofSize)
    {
      assert stream[i..][1..] == stream[i + 1..];
      ghost var before := f.aof;
      var o := Exec(f.data, stream[i], Null);
      f := f.(data := o.data);
      if o.updated {
        f := f.(aof := f.aof + [stream[i]]);
        FileSizeAppend(before, [stream[i]], size);
      }
      var aofsz := LogFileSize(f.aof, size);
      if !caughtUp && aofsz >= aofSize {
        caughtUp := true;
      }
    }
  }

  method LogFileSize(cs: seq<Cmd>, size: Cmd -> nat) returns (n: nat)
    ensures n == FileSize(cs, size)
  {
    n := 0;
    for i := 0 to |cs|
      invariant n == FileSize(cs[..i], size)
    {
      assert cs[..i + 1][..i] == cs[..i];
      n := n + size(cs[i]);
    }
    assert cs[..|cs|] == cs;
  }

  /** A fresh follower that has received the leader's whole log counts as caught up if and only if
      every command of that log meets a dataset that it updates. */
  lemma CaughtUpIffAllUpdate(lead: seq<Cmd>, size: Cmd -> nat)
    requires Clean(lead) && forall c :: size(c) > 0
    ensures FileSize(ReceiveAll(Fresh, lead).aof, size) >= FileSize(lead, size) <==> AllUpdate(map[], lead)
  {
    hide AllLogged, AllUpdate;
    SkippedCommandsAreMissing(Fresh, lead, size);
    AllLoggedIffAllUpdate(map[], lead);
  }

  // ----- leaders whose log has that property

  ghost predicate PlainSets(log: seq<Cmd>) {
    forall i :: 0 <= i < |log| ==> log[i].Set? && log[i].cond.Always?
  }

  /** Plain SETs update whatever they meet. */
  lemma PlainSetsUpdate(d: Data, log: seq<Cmd>)
    requires PlainSets(log)
    ensures AllUpdate(d, log)
  {
    hide Run;
  }

  /** The shrinker writes plain SETs only. */
  ghost predicate SnapPlain(s: State) {
    s.sh.Scan? ==> PlainSets(s.sh.snap)
  }

  lemma {:induction false} SnapshotPlain(col: Col, key: Str, ids: seq<Str>)
    requires forall i :: i in ids ==> i in col
    ensures PlainSets(Snapshot(col, key, ids))
    decreases |ids|
  {
    if ids != [] { SnapshotPlain(col, key, ids[1..]); }
  }

  lemma NextKeepsSnapPlain(s: State, e: Event)
    requires SnapPlain(s)
    ensures SnapPlain(Next(s, e))
  {
    hide Exec, Snapshot, KeysStep, IdsStep, Batch;
    if Enabled(s, e) {
      match e
      case LoadKeys => KeysKeepSnap(s.sh, s.data);
      case LoadIds =>
        BatchFacts(s);
        if s.sh.keys[0] in s.data { SnapshotPlain(s.data[s.sh.keys[0]], s.sh.keys[0], Batch(s)); }
      case _ =>
    }
  }

  lemma KeysKeepSnap(sh: Shrinker, d: Data)
    requires sh.Scan?
    ensures KeysStep(sh, d).snap == sh.snap
  {}

  /** After a swap every command of the log updates if and only if those of the shrink log do, on top of the
      snapshot. */
  lemma SwappedLogUpdatesIff(s: State)
    requires s.sh.Scan? && SnapPlain(s)
    ensures AllLogged(map[], s.sh.snap + s.shrinklog) <==> AllUpdate(Run(map[], s.sh.snap), s.shrinklog)
  {
    hide AllLogged, AllUpdate, Run, PlainSets;
    AllLoggedAppend(map[], s.sh.snap, s.shrinklog);
    PlainSetsUpdate(map[], s.sh.snap);
    AllLoggedIffAllUpdate(map[], s.sh.snap);
    AllLoggedIffAllUpdate(Run(map[], s.sh.snap), s.shrinklog);
  }

  /** There was no swap, or at the last one every command of the shrink log updated the snapshot it followed:
      what was written during the shrink had not been overtaken by the scan. */
  ghost predicate LastSwapQuiet(es: seq<Event>)
    decreases |es|
  {
    es != [] ==>
      var m := |es| - 1;
      var s := RunEvents(Initial, es[..m]);
      if es[m].Swap? && Enabled(s, Swap) then AllUpdate(Run(map[], s.sh.snap), s.shrinklog)
      else LastSwapQuiet(es[..m])
  }

  lemma RunEventsSnoc(s: State, es: seq<Event>)
    requires es != []
    ensures RunEvents(s, es) == Next(RunEvents(s, es[..|es| - 1]), es[|es| - 1])
  {
    hide Next;
    var m := |es| - 1;
    RunEventsAppend(s, es[..m], [es[m]]);
    OneEvent(RunEvents(s, es[..m]), es[m]);
    assert es == es[..m] + [es[m]];
  }

  lemma {:induction false} NoLeakAtLast(s: State, es: seq<Event>)
    requires es != [] && NoLeaks(s, es) && es[|es| - 1].Client?
    ensures !Leaks(RunEvents(s, es[..|es| - 1]).data, es[|es| - 1].cmd)
    decreases |es|
  {
    hide Next, Leaks;
    if |es| == 1 {
      assert es[..0] == [];
    } else {
      NoLeakAtLast(Next(s, es[0]), es[1..]);
      assert es[..|es| - 1][1..] == es[1..][..|es| - 2];
    }
  }

  /** One step other than a swap: the log goes on consisting of updating commands, or not. */
  lemma StepKeepsLogged(s: State, e: Event)
    requires Inv(s) && (e.Client? ==> !Leaks(s.data, e.cmd)) && !(e.Swap? && Enabled(s, Swap))
    ensures AllLogged(map[], Next(s, e).aof) <==> AllLogged(map[], s.aof)
  {
    hide Exec, Leaks, KeysStep, IdsStep, AllLogged, Run;
    if e.Client? && Logged(Exec(s.data, e.cmd, e.out)) {
      InvParts(s);
      OutputIrrelevant(s.data, e.cmd, e.out);
      AllLoggedAppend(map[], s.aof, [e.cmd]);
      OneLogged(s.data, e.cmd);
    }
  }

  lemma OneLogged(d: Data, c: Cmd)
    ensures AllLogged(d, [c]) <==> Logged(Exec(d, c, Null))
  {
    hide Exec;
    assert [c][1..] == [];
  }

  /** In every leak-free run of a leader, all commands of its log update if and only if its last swap was
      quiet. */
  lemma {:induction false} LogUpdatesIffLastSwapQuiet(es: seq<Event>)
    requires NoLeaks(Initial, es)
    ensures AllLogged(map[], RunEvents(Initial, es).aof) <==> LastSwapQuiet(es)
    ensures SnapPlain(RunEvents(Initial, es))
    decreases |es|
  {
    hide Inv, Next, Leaks, AllUpdate, AllLogged, PlainSets, NoLeaks;
    if es == [] {
      NothingLogged();
    } else {
      var m := |es| - 1;
      NoLeaksPrefix(Initial, es, m);
      LogUpdatesIffLastSwapQuiet(es[..m]);
      var s := RunEvents(Initial, es[..m]);
      InitialInv();
      RunKeepsInv(Initial, es[..m]);
      RunEventsSnoc(Initial, es);
      NextKeepsSnapPlain(s, es[m]);
      if es[m].Swap? && Enabled(s, Swap) {
        SwappedLogUpdatesIff(s);
        SwapTakesOver(s);
      } else {
        if es[m].Client? { NoLeakAtLast(Initial, es); }
        StepKeepsLogged(s, es[m]);
      }
    }
  }

  lemma NothingLogged()
    ensures AllLogged(map[], [])
  {}

  lemma SwapTakesOver(s: State)
    requires Enabled(s, Swap)
    ensures Next(s, Swap).aof == s.sh.snap + s.shrinklog
  {}

  /** A fresh follower of any leader ends with the leader's dataset, and with the leader's log if and only if the
      leader's last swap was quiet; then its log is a copy after every prefix of the stream. */
  lemma FollowerMirrorsIffLastSwapQuiet(es: seq<Event>)
    requires NoLeaks(Initial, es)
    ensures var s := RunEvents(Initial, es);
            var f := ReceiveAll(Fresh, s.aof);
            && f.data == s.data
            && (f.aof == s.aof <==> LastSwapQuiet(es))
            && (LastSwapQuiet(es) ==> forall n :: 0 <= n <= |s.aof| ==> ReceiveAll(Fresh, s.aof[..n]).aof == s.aof[..n])
  {
    hide Inv, Next, Leaks, Exec, AllLogged, LastSwapQuiet, NoLeaks, ReceiveAll;
    var s := RunEvents(Initial, es);
    InitialInv();
    RunKeepsInv(Initial, es);
    InvParts(s);
    LogUpdatesIffLastSwapQuiet(es);
    MirrorsIffAllLogged(Fresh, [], s.aof);
    assert [] + s.aof == s.aof;
    assert Tracks(Fresh, []);
    StreamTracks(Fresh, [], s.aof);
    if LastSwapQuiet(es) {
      forall n | 0 <= n <= |s.aof| ensures ReceiveAll(Fresh, s.aof[..n]).aof == s.aof[..n] {
        PrefixAllLogged(map[], s.aof, n);
        assert Clean(s.aof[..n]);
        MirrorsIffAllLogged(Fresh, [], s.aof[..n]);
        assert [] + s.aof[..n] == s.aof[..n];
      }
    }
  }

  /** Event n of a leader's run takes over a new log. */
  ghost predicate SwapAt(es: seq<Event>, n: nat)
    requires n < |es|
  {
    es[n].Swap? && Enabled(RunEvents(Initial, es[..n]), Swap)
  }

  /** A leader that never swapped, or into whose last shrink that did no write fell, is mirrored. */
  lemma {:induction false} UndisturbedIsQuiet(es: seq<Event>)
    requires forall n :: 0 <= n < |es| && SwapAt(es, n) && (forall k :: n < k < |es| ==> !SwapAt(es, k)) ==>
               RunEvents(Initial, es[..n]).shrinklog == []
    ensures LastSwapQuiet(es)
    decreases |es|
  {
    hide RunEvents;
    if es != [] {
      var m := |es| - 1;
      if SwapAt(es, m) {
        assert RunEvents(Initial, es[..m]).shrinklog == [];
      } else {
        assert forall n :: 0 <= n < m ==> es[..m][n] == es[n] && es[..m][..n] == es[..n];
        assert forall n :: 0 <= n < m ==> (SwapAt(es[..m], n) <==> SwapAt(es, n));
        UndisturbedIsQuiet(es[..m]);
      }
    }
  }

  lemma InitialInv()
    ensures Inv(Initial)
  {}

  lemma {:induction false} PrefixAllLogged(d: Data, log: seq<Cmd>, n: nat)
    requires AllLogged(d, log) && n <= |log|
    ensures AllLogged(d, log[..n])
    decreases |log|
  {
    hide Exec;
    if n > 0 {
      assert log[..n][1..] == log[1..][..n - 1];
      PrefixAllLogged(Exec(d, log[0], Null).data, log[1..], n - 1);
    }
  }

  // ----- and leaders whose log does not

  lemma SortedOne(x: Str)
    ensures Sorted({x}) == [x]
  {
    assert Least({x}) == x;
    assert {x} - {x} == {};
  }

  lemma FromOne(x: Str)
    ensures From({x}, []) == [x]
  {
    assert (set y | y in {x} && !Less(y, [])) == {x};
    SortedOne(x);
  }

  /** A dataset of one object. */
  function One(key: Str, id: Str, r: Rec): Data {
    map[key := map[id := r]]
  }

  lemma SetOne(key: Str, id: Str, ws: Writes, obj: Objects.Object)
    ensures Exec(map[], Set(key, id, ws, Always, obj), Null) ==
            Outcome(One(key, id, Rec(obj, PutAll(map[], ws))), true, None)
  {
    hide PutAll;
  }

  lemma FsetOne(key: Str, id: Str, r: Rec, ws: Writes)
    ensures Exec(One(key, id, r), Fset(key, id, ws, false, false), Null) ==
            Outcome(One(key, id, r.(fields := PutAll(r.fields, ws))), Changes(r.fields, ws) > 0, None)
  {
    hide PutAll, Changes;
    var d := One(key, id, r);
    var r' := r.(fields := PutAll(r.fields, ws));
    assert d[key][id := r'] == map[id := r'];
    assert d[key := map[id := r']] == One(key, id, r');
  }

  /** A field set to one, from no fields and from itself. */
  lemma WriteOne(name: Str)
    ensures var f0: Fields, f1: Fields, ws: Writes := map[], map[name := 1.0], [(name, 1.0)];
            && PutAll(f0, ws) == f1 && Changes(f0, ws) == 1
            && PutAll(f1, ws) == f1 && Changes(f1, ws) == 0
  {
    var f0: Fields, f1: Fields, ws: Writes := map[], map[name := 1.0], [(name, 1.0)];
    assert ws[1..] == [];
    assert Put(f0, name, 1.0) == f1 && Put(f1, name, 1.0) == f1;
    assert Changes(f1, []) == 0;
  }

  /** The events of a shrink that an FSET overtakes before the scan reaches its object, and one more command. */
  function OvertakenShrink(key: Str, id: Str, name: Str, obj: Objects.Object): seq<Event> {
    [Client(Set(key, id, [], Always, obj), Null), Begin,
     Client(Fset(key, id, [(name, 1.0)], false, false), Null), LoadKeys, LoadIds, Swap,
     Client(Drop(key), Null)]
  }

  /** After a shrink the leader's log can hold a command whose effect the snapshot already has:
      the follower executes it, sees no update and does not log it. Its dataset is right,
      its log is no longer a prefix of the leader's. */
  lemma FollowerSkipsAfterShrink(key: Str, id: Str, name: Str, obj: Objects.Object)
    ensures var s := RunEvents(Initial, OvertakenShrink(key, id, name, obj));
            var f := ReceiveAll(Fresh, s.aof);
            f.data == s.data && !(f.aof <= s.aof)
  {
    hide Exec, PutAll, Changes, FieldList, Next;
    var f1: Fields := map[name := 1.0];
    var snap, fset, drop := SnapCmd(key, id, Rec(obj, f1)), Fset(key, id, [(name, 1.0)], false, false), Drop(key);
    OvertakenState(key, id, name, obj);
    var aof := [snap, fset, drop];
    FieldListRestores(f1);
    WriteOne(name);
    var d := One(key, id, Rec(obj, f1));
    SetOne(key, id, snap.writes, obj);
    FsetOne(key, id, Rec(obj, f1), [(name, 1.0)]);
    DropOne(key, id, Rec(obj, f1));
    var g := Receive(Fresh, snap);
    assert g == Replica(d, [snap]);
    assert Receive(g, fset) == g;
    var h := Receive(g, drop);
    assert h == Replica(map[], [snap, drop]);
    assert aof[1..][1..] == [drop] && [drop][1..] == [];
    assert ReceiveAll(h, []) == h;
    assert ReceiveAll(g, [drop]) == h;
    assert ReceiveAll(g, aof[1..]) == h;
    assert ReceiveAll(Fresh, aof) == h;
    assert h.aof[1] != aof[1];
  }

  lemma DropOne(key: Str, id: Str, r: Rec)
    ensures Exec(One(key, id, r), Drop(key), Null) == Outcome(map[], true, None)
  {
    assert One(key, id, r) - {key} == map[];
  }

  lemma OvertakenState(key: Str, id: Str, name: Str, obj: Objects.Object)
    ensures var s := RunEvents(Initial, OvertakenShrink(key, id, name, obj));
            var f1: Fields := map[name := 1.0];
            && s.aof == [SnapCmd(key, id, Rec(obj, f1)), Fset(key, id, [(name, 1.0)], false, false), Drop(key)]
            && s.data == map[]
  {
    hide FieldList, Exec, PutAll, Changes, From, Next, RunEvents, SnapCmd;
    var f0: Fields, f1: Fields := map[], map[name := 1.0];
    var d0, d1 := One(key, id, Rec(obj, f0)), One(key, id, Rec(obj, f1));
    var set', fset, drop := Set(key, id, [], Always, obj), Fset(key, id, [(name, 1.0)], false, false), Drop(key);
    var es := OvertakenShrink(key, id, name, obj);
    SetOne(key, id, [], obj);
    WriteNone();
    WriteOne(name);
    FsetOne(key, id, Rec(obj, f0), [(name, 1.0)]);
    DropOne(key, id, Rec(obj, f1));
    var start := Scan([], [], [], false, []);
    var s1 := State(d0, [set'], false, [], Off, map[]);
    var s2 := State(d0, [set'], true, [], start, d0);
    var s3 := State(d1, [set', fset], true, [fset], start, d0);
    UpdateStep(Initial, set', d0);
    BeginStep(s1);
    UpdateStep(s2, fset, d1);
    var snap := SnapCmd(key, id, Rec(obj, f1));
    var s4, s5 := s3.(sh := Scan([], [key], [], true, [])), s3.(sh := Scan([snap], [], [], true, []));
    ScanOne(s3, key, id, Rec(obj, f1));
    var s6 := s5.(aof := [snap, fset], sh := Finished);
    SwapStep(s5);
    assert [snap] + [fset] == [snap, fset];
    var s7 := State(map[], [snap, fset, drop], true, [fset, drop], Finished, d0);
    UpdateStep(s6, drop, map[]);
    OneByOne(es, [Initial, s1, s2, s3, s4, s5, s6, s7]);
  }

  lemma UpdateStep(s: State, c: Cmd, d: Data)
    requires Exec(s.data, c, Null) == Outcome(d, true, None)
    ensures Next(s, Client(c, Null)) ==
            s.(data := d, aof := s.aof + [c], shrinklog := if s.shrinking then s.shrinklog + [c] else s.shrinklog)
  {
    hide Exec;
  }

  lemma BeginStep(s: State)
    requires !s.shrinking
    ensures Next(s, Begin) ==
            s.(shrinking := true, shrinklog := [], base := s.data, sh := Scan([], [], [], false, []))
  {}

  lemma SwapStep(s: State)
    requires s.sh.Scan? && s.sh.keys == [] && s.sh.keysdone
    ensures Next(s, Swap) == s.(aof := s.sh.snap + s.shrinklog, sh := Finished)
  {}

  lemma ScanOne(s: State, key: Str, id: Str, r: Rec)
    requires s.sh == Scan([], [], [], false, []) && s.data == One(key, id, r)
    ensures Next(s, LoadKeys) == s.(sh := Scan([], [key], [], true, []))
    ensures Next(s.(sh := Scan([], [key], [], true, [])), LoadIds) ==
            s.(sh := Scan([SnapCmd(key, id, r)], [], [], true, []))
  {
    hide FieldList, From;
    var d := s.data;
    assert d.Keys == {key} && d[key].Keys == {id};
    FromOne(key);
    FromOne(id);
    assert [id][1..] == [] && [key][1..] == [];
    assert Snapshot(d[key], key, [id]) == [SnapCmd(key, id, r)];
  }

  lemma WriteNone()
    ensures forall f: Fields :: PutAll(f, []) == f
  {}

  /** A run is its states, one step at a time. */
  lemma {:induction false} OneByOne(es: seq<Event>, ss: seq<State>)
    requires |ss| == |es| + 1
    requires forall i :: 0 <= i < |es| ==> Next(ss[i], es[i]) == ss[i + 1]
    ensures RunEvents(ss[0], es) == ss[|es|]
    decreases |es|
  {
    hide Next;
    if es != [] {
      OneByOne(es[1..], ss[1..]);
    }
  }
}
