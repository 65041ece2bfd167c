/** The append-only log, the log shrinker that runs beside writes, and what every interleaving keeps.
    A state holds the shared fields of the server and the locals of the shrinking goroutine;
    an event is one critical section. */
module Shrink {
  import opened Bytes
  import Objects
  import opened Dataset
  import opened Replay

  const MAX_KEYS := 8
  const MAX_IDS := 32

  /** The shrinking goroutine: not running, scanning, or past its swap (or its failure) but not yet ended.
      `snap` is the new file, `keys` the batch of keys still to scan, `nextid` where the scan of the
      first of them resumes. */
  datatype Shrinker =
    | Off
    | Scan(snap: seq<Cmd>, keys: seq<Str>, nextkey: Str, keysdone: bool, nextid: Str)
    | Finished

  /** `base` records the dataset at the moment the current shrink began; no step reads it. */
  datatype State = State(
    data: Data, aof: seq<Cmd>, shrinking: bool, shrinklog: seq<Cmd>, sh: Shrinker, base: Data)

  datatype Event =
    | Client(cmd: Cmd, out: Output)
    | Begin
    | LoadKeys
    | LoadIds
    | Swap
    | Abort
    | End

  const Initial := State(map[], [], false, [], Off, map[])

  // ----- the snapshot

  /** The nonzero fields of a record as SET arguments. */
  function FieldList(names: seq<Str>, f: Fields): Writes
    requires forall n :: n in names ==> n in f
    decreases |names|
  {
    if names == [] then []
    else FieldList(names[..|names| - 1], f) + [(names[|names| - 1], f[names[|names| - 1]])]
  }

  /** The SET command that recreates an object. */
  function SnapCmd(key: Str, id: Str, r: Rec): Cmd {
    Set(key, id, FieldList(Sorted(r.fields.Keys), r.fields), Always, r.obj)
  }

  function Snapshot(col: Col, key: Str, ids: seq<Str>): seq<Cmd>
    requires forall i :: i in ids ==> i in col
    decreases |ids|
  {
    if ids == [] then []
    else [SnapCmd(key, ids[0], col[ids[0]])] + Snapshot(col, key, ids[1..])
  }

  lemma {:induction false} FieldListLast(names: seq<Str>, f: Fields, name: Str)
    requires forall n :: n in names ==> n in f
    ensures Last(FieldList(names, f), name) == if name in names then Some(f[name]) else None
    decreases |names|
  {
    if names != [] {
      var n := |names| - 1;
      FieldListLast(names[..n], f, name);
      var l := FieldList(names, f);
      assert l[..|l| - 1] == FieldList(names[..n], f);
      assert name in names <==> name in names[..n] || name == names[n];
    }
  }

  lemma FieldListRestores(f: Fields)
    requires NoZeros(f)
    ensures PutAll(map[], FieldList(Sorted(f.Keys), f)) == f
  {
    var none: Fields := map[];
    var l := FieldList(Sorted(f.Keys), f);
    forall name ensures Read(PutAll(none, l), name) == Read(f, name) {
      PutAllReads(none, l, name);
      FieldListLast(Sorted(f.Keys), f, name);
    }
    PutAllNoZeros(none, l);
    FieldsExtensional(PutAll(none, l), f);
  }

  /** Replaying a snapshot batch creates exactly the objects of the batch. */
  lemma {:induction false} SnapshotCreates(col: Col, key: Str, ids: seq<Str>, k: Str, i: Str, r: Option<Rec>)
    requires WfCol(col) && Ascending(ids) && forall x :: x in ids ==> x in col
    requires k == key && i in ids ==> r.None?
    ensures RunId(Snapshot(col, key, ids), k, i, r) == if k == key && i in ids then Some(col[i]) else r
    decreases |ids|
  {
    hide FieldList, PutAll;
    if ids != [] {
      var c := SnapCmd(key, ids[0], col[ids[0]]);
      var r' := StepId(c, k, i, r);
      assert ids[0] !in ids[1..] by { LessIrreflexive(ids[0]); }
      if k == key && i == ids[0] {
        FieldListRestores(col[i].fields);
        assert r' == Some(col[i]);
        SnapshotElsewhere(col, key, ids[1..], k, i, r');
      } else {
        assert k == key ==> (i in ids <==> i in ids[1..]);
        SnapshotCreates(col, key, ids[1..], k, i, r);
      }
    }
  }

  lemma {:induction false} SnapshotElsewhere(col: Col, key: Str, ids: seq<Str>, k: Str, i: Str, r: Option<Rec>)
    requires forall x :: x in ids ==> x in col
    requires k != key || i !in ids
    ensures RunId(Snapshot(col, key, ids), k, i, r) == r
    decreases |ids|
  {
    hide FieldList;
    if ids != [] {
      SnapshotElsewhere(col, key, ids[1..], k, i, r);
    }
  }

  // ----- steps

  /** Execute, then log: the write path of handleInputCommand and writeAOF. */
  function ClientStep(s: State, c: Cmd, out: Output): State {
    var o := Exec(s.data, c, out);
    if Logged(o) then
      s.(data := o.data, aof := s.aof + [c], shrinklog := if s.shrinking then s.shrinklog + [c] else s.shrinklog)
    else s.(data := o.data)
  }

  function KeysStep(sh: Shrinker, d: Data): (r: Shrinker)
    requires sh.Scan?
    ensures r.Scan?
  {
    var ks := From(d.Keys, sh.nextkey);
    if |ks| > MAX_KEYS then sh.(keys := ks[..MAX_KEYS], nextkey := ks[MAX_KEYS])
    else sh.(keys := ks, keysdone := true)
  }

  function IdsStep(sh: Shrinker, d: Data): (r: Shrinker)
    requires sh.Scan? && sh.keys != []
    ensures r.Scan?
  {
    var key := sh.keys[0];
    if key !in d then sh.(keys := sh.keys[1..], nextid := [])
    else
      var ids := From(d[key].Keys, sh.nextid);
      if |ids| > MAX_IDS then
        assert forall i :: i in ids[..MAX_IDS] ==> i in ids;
        sh.(snap := sh.snap + Snapshot(d[key], key, ids[..MAX_IDS]), nextid := ids[MAX_IDS])
      else sh.(snap := sh.snap + Snapshot(d[key], key, ids), keys := sh.keys[1..], nextid := [])
  }

  predicate Enabled(s: State, e: Event) {
    match e
    case Client(_, _) => true
    case Begin => !s.shrinking
    case LoadKeys => s.sh.Scan? && s.sh.keys == [] && !s.sh.keysdone
    case LoadIds => s.sh.Scan? && s.sh.keys != []
    case Swap => s.sh.Scan? && s.sh.keys == [] && s.sh.keysdone
    case Abort => s.sh.Scan?
    case End => s.sh.Finished?
  }

  function Next(s: State, e: Event): State {
    if !Enabled(s, e) then s
    else
      match e
      case Client(c, out) => ClientStep(s, c, out)
      case Begin => s.(shrinking := true, shrinklog := [], base := s.data, sh := Scan([], [], [], false, []))
      case LoadKeys => s.(sh := KeysStep(s.sh, s.data))
      case LoadIds => s.(sh := IdsStep(s.sh, s.data))
      case Swap => s.(aof := s.sh.snap + s.shrinklog, sh := Finished)
      case Abort => s.(sh := Finished)
      case End => s.(shrinking := false, shrinklog := [], sh := Off)
  }

  function RunEvents(s: State, es: seq<Event>): State
    decreases |es|
  {
    if es == [] then s else RunEvents(Next(s, es[0]), es[1..])
  }

  // ----- the one way a command can leave the log behind

  /** An FSET whose argument list breaks off after writes that change the record. */
  predicate Leaks(d: Data, c: Cmd) {
    c.Fset? && c.bad && var r := Lookup(d, c.key, c.id);
                        r.Some? && PutAll(r.value.fields, c.writes) != r.value.fields
  }

  /** A command keeps the log and the dataset in step exactly when it is not such an FSET. */
  lemma InSyncUnlessLeak(s: State, c: Cmd, out: Output)
    requires Wf(s.data) && Run(map[], s.aof) == s.data
    ensures var t := ClientStep(s, c, out);
            Run(map[], t.aof) == t.data <==> !Leaks(s.data, c)
  {
    hide Run, PutAll, Changes;
    var o := Exec(s.data, c, out);
    if Logged(o) {
      RunSnoc(map[], s.aof, c);
      OutputIrrelevant(s.data, c, out);
    } else if !o.updated {
      NotUpdatedUnchanged(s.data, c, out);
      LeakChanges(s.data, c, out);
    } else {
      LeakChanges(s.data, c, out);
    }
  }

  lemma LeakChanges(d: Data, c: Cmd, out: Output)
    requires !Logged(Exec(d, c, out)) && (Exec(d, c, out).updated || Exec(d, c, out).data == d)
    ensures Exec(d, c, out).data == d <==> !Leaks(d, c)
  {
    hide PutAll, Changes, Hits;
    if c.Fset? && Lookup(d, c.key, c.id).Some? {
      var r := d[c.key][c.id];
      var e := Exec(d, c, out).data;
      if PutAll(r.fields, c.writes) == r.fields {
        assert d[c.key][c.id := r] == d[c.key];
        assert e == d;
      } else {
        assert e[c.key][c.id] != d[c.key][c.id];
      }
    }
  }

  /** The escape exists: a set object, then a malformed FSET, and the log no longer gives the dataset. */
  lemma MalformedFsetIsNotLogged(key: Str, id: Str, name: Str, obj: Objects.Object, out: Output)
    ensures var s := ClientStep(Initial, Set(key, id, [], Always, obj), out);
            var t := ClientStep(s, Fset(key, id, [(name, 1.0)], false, true), out);
            Run(map[], s.aof) == s.data && Run(map[], t.aof) != t.data
  {
    var c := Set(key, id, [], Always, obj);
    var s := ClientStep(Initial, c, out);
    assert s.aof == [c];
    assert [c][1..] == [];
    assert Run(map[], [c]) == s.data;
    var none: Fields := map[];
    assert Lookup(s.data, key, id) == Some(Rec(obj, none));
    ExecKeepsWf(map[], c, out);
    var ws: Writes := [(name, 1.0)];
    assert ws[1..] == [];
    assert PutAll(none, ws) == Put(none, name, 1.0);
    assert name in PutAll(none, ws);
    assert Leaks(s.data, Fset(key, id, ws, false, true));
    InSyncUnlessLeak(s, Fset(key, id, ws, false, true), out);
  }

  // ----- the invariant

  /** The objects whose moment has come: scanned, or known absent when their key or id was passed over. */
  predicate Passed(sh: Shrinker, key: Str, id: Str)
    requires sh.Scan?
  {
    if key in sh.keys then key == sh.keys[0] && Less(id, sh.nextid)
    else sh.keysdone || Less(key, sh.nextkey)
  }

  ghost predicate CursorOk(sh: Shrinker)
    requires sh.Scan?
  {
    && Ascending(sh.keys)
    && (sh.keys == [] ==> sh.nextid == [])
    && forall k :: k in sh.keys ==> sh.keysdone || Less(k, sh.nextkey)
  }

  /** Replaying the log of this shrink on the snapshot gives the current object, once its moment has come;
      before that the snapshot does not mention it. */
  ghost predicate SnapOk(s: State, key: Str, id: Str)
    requires s.sh.Scan?
  {
    var was := Lookup(Run(map[], s.sh.snap), key, id);
    if Passed(s.sh, key, id) then RunId(s.shrinklog, key, id, was) == Lookup(s.data, key, id)
    else was == None
  }

  ghost predicate InSync(s: State) {
    Wf(s.data) && Clean(s.aof) && Run(map[], s.aof) == s.data
  }

  ghost predicate LoggedSince(s: State) {
    && Wf(s.base) && Clean(s.shrinklog)
    && Run(s.base, s.shrinklog) == s.data && AllLogged(s.base, s.shrinklog)
  }

  ghost predicate ScanOk(s: State)
    requires s.sh.Scan?
  {
    && CursorOk(s.sh) && Clean(s.sh.snap)
    && forall key, id :: SnapOk(s, key, id)
  }

  /** What a shrink relies on. It says nothing of the log being replaced. */
  ghost predicate ShrinkInv(s: State) {
    && Wf(s.data)
    && (s.shrinking <==> !s.sh.Off?)
    && (s.shrinking ==> LoggedSince(s))
    && (s.sh.Scan? ==> ScanOk(s))
  }

  ghost predicate Inv(s: State) {
    InSync(s) && ShrinkInv(s)
  }

  // ----- every step keeps it

  /** At any moment of a shrink, replaying the shrink's log on the current object does not change it. */
  lemma CurrentIsSettled(s: State, key: Str, id: Str)
    requires LoggedSince(s)
    ensures RunId(s.shrinklog, key, id, Lookup(s.data, key, id)) == Lookup(s.data, key, id)
  {
    hide Run, RunId;
    LoggedIsLegit(s.base, s.shrinklog, key, id);
    RunIsPointwise(s.base, s.shrinklog, key, id);
    StoredNoZeros(s.base, key, id);
    LoggedRunIsSettled(s.shrinklog, key, id, Lookup(s.base, key, id));
  }

  lemma ClientKeepsInv(s: State, c: Cmd, out: Output)
    requires ShrinkInv(s) && !Leaks(s.data, c)
    ensures ShrinkInv(ClientStep(s, c, out))
  {
    hide Run, RunId, Leaks, Exec, Passed;
    var o := Exec(s.data, c, out);
    var t := ClientStep(s, c, out);
    ExecKeepsWf(s.data, c, out);
    OutputIrrelevant(s.data, c, out);
    if Logged(o) {
      BadIsNotLogged(s.data, c, out);
      if s.shrinking {
        RunSnoc(s.base, s.shrinklog, c);
        AllLoggedSnoc(s.base, s.shrinklog, c);
      }
      if s.sh.Scan? {
        forall key, id ensures SnapOk(t, key, id) {
          assert SnapOk(s, key, id);
          RunIdSnoc(s.shrinklog, c, key, id, Lookup(Run(map[], s.sh.snap), key, id));
          ExecIsPointwise(s.data, c, out, key, id);
        }
      }
    } else {
      if !o.updated { NotUpdatedUnchanged(s.data, c, out); }
      LeakChanges(s.data, c, out);
      assert t == s;
    }
  }

  lemma ClientStaysInSync(s: State, c: Cmd, out: Output)
    requires InSync(s) && !Leaks(s.data, c)
    ensures InSync(ClientStep(s, c, out))
  {
    hide Run, Leaks, Exec;
    ExecKeepsWf(s.data, c, out);
    InSyncUnlessLeak(s, c, out);
    if Logged(Exec(s.data, c, out)) { BadIsNotLogged(s.data, c, out); }
  }

  lemma BadIsNotLogged(d: Data, c: Cmd, out: Output)
    requires Logged(Exec(d, c, out))
    ensures !(c.Fset? && c.bad)
  {}

  lemma BeginKeepsInv(s: State)
    requires ShrinkInv(s) && Enabled(s, Begin)
    ensures ShrinkInv(Next(s, Begin))
  {
    var t := Next(s, Begin);
    forall key, id ensures SnapOk(t, key, id) {
      assert !Passed(t.sh, key, id);
      assert Lookup(Run(map[], []), key, id) == None;
    }
  }

  lemma KeysKeepInv(s: State)
    requires ShrinkInv(s) && Enabled(s, LoadKeys)
    ensures ShrinkInv(Next(s, LoadKeys))
  {
    hide Run, RunId, ShrinkInv, LoggedSince;
    assert s.sh.Scan? ==> ScanOk(s) && LoggedSince(s) by { ShrinkParts(s); }
    var t := Next(s, LoadKeys);
    LessIsStrictTotalOrder();
    assert CursorOk(t.sh);
    forall key, id ensures SnapOk(t, key, id) {
      assert SnapOk(s, key, id);
      if Passed(t.sh, key, id) && !Passed(s.sh, key, id) {
        KeyNotLoaded(s, key);
        CurrentIsSettled(s, key, id);
      } else if !Passed(t.sh, key, id) {
        StillToCome(s, key, id);
      }
    }
    ShrinkFromParts(s, t);
  }

  lemma InvParts(s: State)
    requires Inv(s)
    ensures InSync(s) && (s.sh.Scan? ==> ScanOk(s) && LoggedSince(s))
  {}

  lemma ShrinkParts(s: State)
    requires ShrinkInv(s)
    ensures s.sh.Scan? ==> ScanOk(s) && LoggedSince(s)
  {}

  /** Steps of the shrinker that move only its own cursor. */
  lemma ShrinkFromParts(s: State, t: State)
    requires ShrinkInv(s) && t.sh.Scan? && s.sh.Scan? && t == s.(sh := t.sh) && ScanOk(t)
    ensures ShrinkInv(t)
  {}

  /** A key that the key batch passed over is absent at that moment. */
  lemma KeyNotLoaded(s: State, key: Str)
    requires Enabled(s, LoadKeys) && !(Less(key, s.sh.nextkey))
    requires var sh := KeysStep(s.sh, s.data);
             key !in sh.keys && (sh.keysdone || Less(key, sh.nextkey))
    ensures key !in s.data
  {
    var ks := From(s.data.Keys, s.sh.nextkey);
    if key in ks && |ks| > MAX_KEYS {
      AscendingCut(ks, MAX_KEYS, key);
    }
  }

  /** Loading keys only moves the frontier forward. */
  lemma StillToCome(s: State, key: Str, id: Str)
    requires Enabled(s, LoadKeys) && CursorOk(s.sh)
    requires !Passed(KeysStep(s.sh, s.data), key, id)
    ensures !Passed(s.sh, key, id)
  {
    var ks := From(s.data.Keys, s.sh.nextkey);
    var sh := KeysStep(s.sh, s.data);
    assert forall x :: x in sh.keys ==> x in ks;
    if |ks| > MAX_KEYS {
      LessIsStrictTotalOrder();
      assert ks[MAX_KEYS] in ks;
    }
  }

  lemma IdsKeepInv(s: State)
    requires ShrinkInv(s) && Enabled(s, LoadIds)
    ensures ShrinkInv(Next(s, LoadIds))
  {
    hide Run, RunId, ShrinkInv, LoggedSince, Snapshot;
    ShrinkParts(s);
    var t := Next(s, LoadIds);
    var key := s.sh.keys[0];
    assert key !in s.sh.keys[1..] by { LessIrreflexive(key); }
    IdsCursor(s);
    SnapStaysClean(s);
    forall k, i ensures SnapOk(t, k, i) {
      IdsSnapOk(s, k, i);
    }
    ShrinkFromParts(s, t);
  }

  lemma IdsCursor(s: State)
    requires Enabled(s, LoadIds) && CursorOk(s.sh)
    ensures CursorOk(IdsStep(s.sh, s.data))
  {
    hide Snapshot;
  }

  lemma {:induction false} SnapshotClean(col: Col, key: Str, ids: seq<Str>)
    requires forall i :: i in ids ==> i in col
    ensures Clean(Snapshot(col, key, ids))
    decreases |ids|
  {
    if ids != [] { SnapshotClean(col, key, ids[1..]); }
  }

  lemma SnapStaysClean(s: State)
    requires Enabled(s, LoadIds) && Clean(s.sh.snap)
    ensures Clean(IdsStep(s.sh, s.data).snap)
  {
    hide Snapshot;
    var key := s.sh.keys[0];
    if key in s.data {
      var ids := From(s.data[key].Keys, s.sh.nextid);
      var batch := if |ids| > MAX_IDS then ids[..MAX_IDS] else ids;
      assert forall i :: i in batch ==> i in ids;
      SnapshotClean(s.data[key], key, batch);
    }
  }

  /** The ids a batch takes: empty when the key is gone. */
  function Batch(s: State): seq<Str>
    requires Enabled(s, LoadIds)
  {
    var key := s.sh.keys[0];
    if key !in s.data then []
    else
      var ids := From(s.data[key].Keys, s.sh.nextid);
      if |ids| > MAX_IDS then ids[..MAX_IDS] else ids
  }

  lemma BatchFacts(s: State)
    requires Enabled(s, LoadIds)
    ensures var key, batch := s.sh.keys[0], Batch(s);
            && Ascending(batch)
            && (forall i :: i in batch ==> key in s.data && i in s.data[key] && !Less(i, s.sh.nextid))
            && (key in s.data ==> IdsStep(s.sh, s.data).snap == s.sh.snap + Snapshot(s.data[key], key, batch))
            && (key !in s.data ==> IdsStep(s.sh, s.data).snap == s.sh.snap)
  {
    hide Snapshot;
    var key := s.sh.keys[0];
    if key in s.data {
      var ids := From(s.data[key].Keys, s.sh.nextid);
      assert forall i :: i in Batch(s) ==> i in ids;
    }
  }

  /** Which objects a batch passes: those it takes, and the absent ones around them. */
  lemma BatchPasses(s: State, k: Str, i: Str)
    requires Enabled(s, LoadIds) && CursorOk(s.sh)
    ensures var t := IdsStep(s.sh, s.data);
            && (Passed(s.sh, k, i) ==> Passed(t, k, i))
            && (k == s.sh.keys[0] && i in Batch(s) ==> Passed(t, k, i) && !Passed(s.sh, k, i))
            && (Passed(t, k, i) && !Passed(s.sh, k, i) ==>
                  k == s.sh.keys[0] && (i in Batch(s) || Lookup(s.data, k, i) == None))
  {
    hide Snapshot;
    LessIsStrictTotalOrder();
    var key := s.sh.keys[0];
    assert forall x :: x in s.sh.keys <==> x == key || x in s.sh.keys[1..];
    assert key !in s.sh.keys[1..];
    if key in s.data {
      var ids := From(s.data[key].Keys, s.sh.nextid);
      if |ids| > MAX_IDS {
        if i in ids { AscendingCut(ids, MAX_IDS, i); }
      }
    }
  }

  lemma IdsSnapOk(s: State, k: Str, i: Str)
    requires ShrinkInv(s) && Enabled(s, LoadIds)
    ensures SnapOk(Next(s, LoadIds), k, i)
  {
    hide Run, RunId, ShrinkInv, LoggedSince, Snapshot, IdsStep, Batch, Passed;
    ShrinkParts(s);
    assert SnapOk(s, k, i);
    var t := Next(s, LoadIds);
    var key, batch := s.sh.keys[0], Batch(s);
    BatchFacts(s);
    BatchPasses(s, k, i);
    var was := Lookup(Run(map[], s.sh.snap), k, i);
    var now := Lookup(Run(map[], t.sh.snap), k, i);
    if key in s.data {
      var add := Snapshot(s.data[key], key, batch);
      RunAppend(map[], s.sh.snap, add);
      RunIsPointwise(Run(map[], s.sh.snap), add, k, i);
      assert WfCol(s.data[key]) by { DataWf(s); }
      SnapshotCreates(s.data[key], key, batch, k, i, was);
    }
    assert now == if k == key && i in batch then Some(s.data[key][i]) else was;
    if Passed(t.sh, k, i) && !Passed(s.sh, k, i) {
      CurrentIsSettled(s, k, i);
    }
  }

  lemma DataWf(s: State)
    requires ShrinkInv(s)
    ensures Wf(s.data)
  {}

  /** The claim at the swap: the new file, replayed from nothing, is the dataset of that moment, whatever the old
      file held. */
  lemma SwapIsInSync(s: State)
    requires ShrinkInv(s) && Enabled(s, Swap)
    ensures Run(map[], s.sh.snap + s.shrinklog) == s.data
    ensures Clean(s.sh.snap + s.shrinklog)
  {
    hide Run, RunId;
    var d := Run(map[], s.sh.snap);
    RunAppend(map[], s.sh.snap, s.shrinklog);
    forall key, id ensures Lookup(Run(d, s.shrinklog), key, id) == Lookup(s.data, key, id) {
      assert SnapOk(s, key, id);
      assert Passed(s.sh, key, id);
      RunIsPointwise(d, s.shrinklog, key, id);
    }
    RunKeepsWf(map[], s.sh.snap);
    RunKeepsWf(d, s.shrinklog);
    WfExtensional(Run(d, s.shrinklog), s.data);
  }

  lemma StepKeepsShrinkInv(s: State, e: Event)
    requires ShrinkInv(s) && (e.Client? ==> !Leaks(s.data, e.cmd))
    ensures ShrinkInv(Next(s, e))
  {
    hide Run, RunId, Leaks, KeysStep, IdsStep, ClientStep;
    if Enabled(s, e) {
      match e
      case Client(c, out) => ClientKeepsInv(s, c, out);
      case Begin => BeginKeepsInv(s);
      case LoadKeys => KeysKeepInv(s);
      case LoadIds => IdsKeepInv(s);
      case Swap =>
      case Abort =>
      case End =>
    }
  }

  lemma StepKeepsInv(s: State, e: Event)
    requires Inv(s) && (e.Client? ==> !Leaks(s.data, e.cmd))
    ensures Inv(Next(s, e))
  {
    hide Run, ShrinkInv, Leaks, KeysStep, IdsStep, ClientStep;
    StepKeepsShrinkInv(s, e);
    if Enabled(s, e) {
      match e
      case Client(c, out) => ClientStaysInSync(s, c, out);
      case Swap => SwapIsInSync(s);
      case _ =>
    }
  }

  // ----- whole runs

  /** No client command of the run is a malformed FSET that changes its record. */
  ghost predicate NoLeaks(s: State, es: seq<Event>)
    decreases |es|
  {
    es != [] ==> (es[0].Client? ==> !Leaks(s.data, es[0].cmd)) && NoLeaks(Next(s, es[0]), es[1..])
  }

  lemma {:induction false} RunKeepsInv(s: State, es: seq<Event>)
    requires Inv(s) && NoLeaks(s, es)
    ensures Inv(RunEvents(s, es))
    decreases |es|
  {
    hide Inv, Next, Leaks;
    if es != [] {
      StepKeepsInv(s, es[0]);
      RunKeepsInv(Next(s, es[0]), es[1..]);
    }
  }

  /** In every interleaving of writes with any number of shrinks, loading the log gives the dataset,
      with no fatal error, after every step. */
  lemma LogIsDataset(es: seq<Event>)
    requires NoLeaks(Initial, es)
    ensures InStep(RunEvents(Initial, es))
  {
    hide Next, Leaks;
    assert Inv(Initial);
    RunKeepsInv(Initial, es);
    LoadRuns(map[], RunEvents(Initial, es).aof);
  }

  /** The log loads to the dataset. */
  ghost predicate InStep(s: State) {
    Load(map[], s.aof) == Loaded(s.data)
  }

  ghost predicate InStepAt(s: State, es: seq<Event>, n: nat)
    requires n <= |es|
  {
    InStep(RunEvents(s, es[..n]))
  }

  lemma {:induction false} NoLeaksPrefix(s: State, es: seq<Event>, n: nat)
    requires NoLeaks(s, es) && n <= |es|
    ensures NoLeaks(s, es[..n])
    decreases n
  {
    hide Next, Leaks;
    if n > 0 {
      assert es[..n][1..] == es[1..][..n - 1];
      NoLeaksPrefix(Next(s, es[0]), es[1..], n - 1);
    }
  }

  /** A leak shows at once: right after it the log does not load to the dataset. */
  lemma LeakShows(s: State, c: Cmd, out: Output)
    requires Inv(s) && Leaks(s.data, c)
    ensures !InStep(Next(s, Client(c, out)))
  {
    hide Run, Leaks, Exec;
    InvParts(s);
    InSyncUnlessLeak(s, c, out);
    assert c.Fset? && c.bad by { LeakIsBad(s.data, c); }
    if Logged(Exec(s.data, c, out)) { BadIsNotLogged(s.data, c, out); }
    LoadRuns(map[], s.aof);
  }

  lemma LeakIsBad(d: Data, c: Cmd)
    requires Leaks(d, c)
    ensures c.Fset? && c.bad
  {}

  lemma {:induction false} LeakIsFound(s: State, es: seq<Event>) returns (n: nat)
    requires Inv(s) && !NoLeaks(s, es)
    ensures n <= |es| && !InStepAt(s, es, n)
    decreases |es|
  {
    hide Inv, Next, Leaks, InStep;
    var e := es[0];
    if e.Client? && Leaks(s.data, e.cmd) {
      n := 1;
      LeakShows(s, e.cmd, e.out);
      assert es[..1][1..] == [] && es[..1][0] == e;
      assert RunEvents(Next(s, e), es[..1][1..]) == Next(s, e);
    } else {
      StepKeepsInv(s, e);
      n := LeakIsFound(Next(s, e), es[1..]);
      n := n + 1;
      assert es[..n][1..] == es[1..][..n - 1];
    }
  }

  /** Log and dataset agree after every step of a run if and only if the run holds no malformed FSET that changes
      a field of the record it meets. */
  lemma LogIsDatasetIffNoLeaks(es: seq<Event>)
    ensures (forall n :: 0 <= n <= |es| ==> InStepAt(Initial, es, n)) <==> NoLeaks(Initial, es)
  {
    hide Next, Leaks, InStep, NoLeaks;
    if NoLeaks(Initial, es) {
      forall n | 0 <= n <= |es| ensures InStepAt(Initial, es, n) {
        NoLeaksPrefix(Initial, es, n);
        LogIsDataset(es[..n]);
      }
    } else {
      assert Inv(Initial);
      var n := LeakIsFound(Initial, es);
    }
  }

  // ----- a shrink repairs the log

  /** The run takes over a new log at least once. */
  predicate Swaps(s: State, es: seq<Event>)
    decreases |es|
  {
    es != [] && ((es[0].Swap? && Enabled(s, Swap)) || Swaps(Next(s, es[0]), es[1..]))
  }

  /** Whatever the log held before, from the first swap on it is in step. */
  lemma {:induction false} SwapRepairs(s: State, es: seq<Event>)
    requires ShrinkInv(s) && NoLeaks(s, es) && Swaps(s, es)
    ensures Inv(RunEvents(s, es))
    decreases |es|
  {
    hide Run, ShrinkInv, Leaks, Next;
    var e := es[0];
    StepKeepsShrinkInv(s, e);
    if e.Swap? && Enabled(s, Swap) {
      SwapIsInSync(s);
      SwappedInSync(s);
      RunKeepsInv(Next(s, e), es[1..]);
    } else {
      SwapRepairs(Next(s, e), es[1..]);
    }
  }

  lemma SwappedInSync(s: State)
    requires ShrinkInv(s) && Enabled(s, Swap)
    requires Run(map[], s.sh.snap + s.shrinklog) == s.data && Clean(s.sh.snap + s.shrinklog)
    ensures InSync(Next(s, Swap))
  {}

  /** Every run, leaks included, keeps the dataset well formed and the flag of the shrinker right. */
  lemma {:induction false} AnyRun(s: State, es: seq<Event>)
    requires Wf(s.data) && (s.shrinking <==> !s.sh.Off?)
    ensures Wf(RunEvents(s, es).data) && (RunEvents(s, es).shrinking <==> !RunEvents(s, es).sh.Off?)
    decreases |es|
  {
    hide Wf, Exec, KeysStep, IdsStep;
    if es != [] {
      if es[0].Client? { ExecKeepsWf(s.data, es[0].cmd, es[0].out); }
      AnyRun(Next(s, es[0]), es[1..]);
    }
  }

  lemma OneEvent(s: State, e: Event)
    ensures RunEvents(s, [e]) == Next(s, e)
  {
    hide Next;
    assert [e][1..] == [];
    assert RunEvents(Next(s, e), [e][1..]) == Next(s, e);
  }

  lemma {:induction false} RunEventsAppend(s: State, a: seq<Event>, b: seq<Event>)
    ensures RunEvents(s, a + b) == RunEvents(RunEvents(s, a), b)
    decreases |a|
  {
    hide Next;
    if a == [] {
      assert a + b == b;
    } else {
      assert (a + b)[1..] == a[1..] + b;
      RunEventsAppend(Next(s, a[0]), a[1..], b);
    }
  }

  /** A shrink during which nothing leaks repairs a log that earlier leaks had put out of step: after any history,
      the log loads to the dataset from the swap on, as long as nothing leaks. */
  lemma ShrinkRepairs(history: seq<Event>, es: seq<Event>)
    requires var s := RunEvents(Initial, history);
             !s.shrinking && NoLeaks(s, [Begin] + es) && Swaps(s, [Begin] + es)
    ensures InStep(RunEvents(Initial, history + ([Begin] + es)))
  {
    hide Next, NoLeaks, Swaps, Run, LoggedSince, ScanOk;
    var s := RunEvents(Initial, history);
    assert Wf(Initial.data);
    AnyRun(Initial, history);
    assert ShrinkInv(s);
    RunEventsAppend(Initial, history, [Begin] + es);
    SwapRepairs(s, [Begin] + es);
    var t := RunEvents(s, [Begin] + es);
    InvParts(t);
    LoadRuns(map[], t.aof);
  }
}
