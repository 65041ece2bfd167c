/** The server object: command methods over the collections, the log writer and the critical sections of
    the log shrinker, each proved to be the matching step of Shrink. */
module Server {
  import opened Bytes
  import opened Glob
  import opened GlobMatch
  import opened GlobRange
  import opened GlobLoops
  import opened Dataset
  import opened Replay
  import opened Shrink

  datatype Phase = NotRunning | Scanning | Ended

  /** Field writes in order, counting those that changed the value they found. */
  method SetFields(f: Fields, ws: Writes) returns (g: Fields, updatedCount: nat)
    ensures g == PutAll(f, ws) && updatedCount == Changes(f, ws)
  {
    g, updatedCount := f, 0;
    assert ws[0..] == ws;
    for i := 0 to |ws|
      invariant PutAll(g, ws[i..]) == PutAll(f, ws)
      invariant updatedCount + Changes(g, ws[i..]) == Changes(f, ws)
    {
      assert ws[i..][1..] == ws[i + 1..];
      var (name, value) := ws[i];
      if Read(g, name) != value { updatedCount := updatedCount + 1; }
      g := Put(g, name, value);
    }
  }

  class Controller {
    var cols: Data
    var aof: seq<Cmd>
    var shrinking: bool
    var shrinklog: seq<Cmd>

    // the locals of the shrinking goroutine, fields here so that its sections can interleave with writes
    var phase: Phase
    var file: seq<Cmd>
    var keys: seq<Str>
    var nextkey: Str
    var keysdone: bool
    var nextid: Str

    /** The dataset when the running shrink began. */
    ghost var base: Data

    ghost function View(): State
      reads this
    {
      State(cols, aof, shrinking, shrinklog,
            match phase
            case NotRunning => Off
            case Scanning => Scan(file, keys, nextkey, keysdone, nextid)
            case Ended => Finished,
            base)
    }

    constructor ()
      ensures View() == Initial
    {
      cols, aof, shrinking, shrinklog := map[], [], false, [];
      phase, file, keys, nextkey, keysdone, nextid := NotRunning, [], [], [], false, [];
      base := map[];
    }

    // ----- commands

    method CmdSet(c: Cmd, out: Output) returns (updated: bool, err: Option<Error>)
      requires c.Set?
      modifies `cols
      ensures Outcome(cols, updated, err) == Exec(old(cols), c, out)
    {
      var col: Col := map[];
      if c.key in cols {
        col := cols[c.key];
      } else if c.cond.IfPresent? {
        return false, if out == Json then Some(IdNotFound) else None;
      }
      var present := c.id in col;
      if (c.cond.IfAbsent? && present) || (c.cond.IfPresent? && !present) {
        return false,
               if out != Json then None else if c.cond.IfAbsent? then Some(IdAlreadyExists) else Some(IdNotFound);
      }
      var f, _ := SetFields(if present then col[c.id].fields else map[], c.writes);
      cols := cols[c.key := col[c.id := Rec(c.obj, f)]];
      return true, None;
    }

    method CmdFset(c: Cmd) returns (updated: bool, err: Option<Error>)
      requires c.Fset?
      modifies `cols
      ensures forall out :: Outcome(cols, updated, err) == Exec(old(cols), c, out)
    {
      err := if c.bad then Some(InvalidArgument) else None;
      if c.key !in cols { return false, Some(KeyNotFound); }
      var col := cols[c.key];
      if c.id !in col {
        if !c.xx { err := Some(IdNotFound); }
        return false, err;
      }
      var f, updatedCount := SetFields(col[c.id].fields, c.writes);
      cols := cols[c.key := col[c.id := col[c.id].(fields := f)]];
      updated := updatedCount > 0;
    }

    method CmdDel(c: Cmd) returns (updated: bool)
      requires c.Del?
      modifies `cols
      ensures forall out :: Outcome(cols, updated, None) == Exec(old(cols), c, out)
    {
      updated := false;
      if c.key in cols && c.id in cols[c.key] {
        var col := cols[c.key] - {c.id};
        cols := if |col| == 0 then cols - {c.key} else cols[c.key := col];
        updated := true;
      }
    }

    /** Scans the range of the pattern, then removes the collected ids one by one. */
    method CmdPdel(c: Cmd) returns (updated: bool)
      requires c.Pdel?
      modifies `cols
      ensures forall out :: Outcome(cols, updated, None) == Exec(old(cols), c, out)
    {
      hide WildcardMatch, Denotes, Visits, Parse;
      updated := false;
      if c.key in cols {
        var col := cols[c.key];
        var children := CollectHits(col, c.pattern);
        for i := 0 to |children|
          invariant cols == old(cols) && c.key in cols
          invariant col == cols[c.key] - Elements(children[..i])
        {
          ElementsSnoc(children, i);
          col := col - {children[i]};
        }
        assert children[..|children|] == children;
        updated := |children| > 0;
        NoneCollected(children);
        cols := if |col| == 0 then cols - {c.key} else cols[c.key := col];
      }
    }

    method CmdDrop(c: Cmd) returns (updated: bool)
      requires c.Drop?
      modifies `cols
      ensures forall out :: Outcome(cols, updated, None) == Exec(old(cols), c, out)
    {
      updated := c.key in cols;
      cols := cols - {c.key};
    }

    method CmdFlushDB(c: Cmd) returns (updated: bool)
      requires c.FlushDb?
      modifies `cols
      ensures forall out :: Outcome(cols, updated, None) == Exec(old(cols), c, out)
    {
      cols := map[];
      return true;
    }

    method Command(c: Cmd, out: Output) returns (updated: bool, err: Option<Error>)
      modifies `cols
      ensures Outcome(cols, updated, err) == Exec(old(cols), c, out)
    {
      hide Exec;
      err := None;
      match c
      case Set(_, _, _, _, _) => updated, err := CmdSet(c, out);
      case Fset(_, _, _, _, _) => updated, err := CmdFset(c);
      case Del(_, _) => updated := CmdDel(c);
      case Pdel(_, _) => updated := CmdPdel(c);
      case Drop(_) => updated := CmdDrop(c);
      case FlushDb => updated := CmdFlushDB(c);
    }

    // ----- the log

    method WriteAOF(c: Cmd, updated: bool)
      modifies `aof, `shrinklog
      ensures aof == if updated then old(aof) + [c] else old(aof)
      ensures shrinklog == if updated && shrinking then old(shrinklog) + [c] else old(shrinklog)
    {
      if !updated { return; }
      if shrinking { shrinklog := shrinklog + [c]; }
      aof := aof + [c];
    }

    /** handleInputCommand for a write command: execute, and log if that succeeded and updated. */
    method HandleInputCommand(c: Cmd, out: Output) returns (err: Option<Error>)
      modifies this
      ensures View() == ClientStep(old(View()), c, out)
      ensures err == Exec(old(cols), c, out).err
    {
      hide Exec;
      var updated;
      updated, err := Command(c, out);
      if err.Some? { return; }
      WriteAOF(c, updated);
    }

    /** loadAOF over the commands of a file, into an empty server. */
    method LoadAOF(log: seq<Cmd>) returns (err: Option<Error>)
      modifies `cols
      ensures err.None? ==> Load(old(cols), log) == Loaded(cols)
      ensures err.Some? ==> Load(old(cols), log) == LoadFailed(err.value)
    {
      hide Exec;
      assert log[0..] == log;
      for i := 0 to |log|
        invariant Load(cols, log[i..]) == Load(old(cols), log)
      {
        assert log[i..][1..] == log[i + 1..];
        var _, e := Command(log[i], Null);
        if e.Some? && Fatal(e.value) { return e; }
      }
      return None;
    }

    // ----- the critical sections of aofshrink

    method ShrinkBegin()
      modifies this
      ensures View() == Next(old(View()), Begin)
    {
      hide ClientStep, KeysStep, IdsStep;
      if !shrinking {
        base, shrinklog, shrinking := cols, [], true;
        phase, file, keys, nextkey, keysdone, nextid := Scanning, [], [], [], false, [];
        assert View().sh == Scan([], [], [], false, []);
      }
    }

    method ShrinkLoadKeys()
      requires phase.Scanning? && keys == [] && !keysdone
      modifies `keys, `nextkey, `keysdone
      ensures View() == Next(old(View()), LoadKeys)
    {
      hide ClientStep, IdsStep, From;
      var ks := From(cols.Keys, nextkey);
      var batch, more := TakeKeys(ks);
      keys, keysdone := batch, !more;
      if more { nextkey := ks[MAX_KEYS]; }
    }

    method ShrinkLoadIds()
      requires phase.Scanning? && keys != []
      modifies `file, `keys, `nextid
      ensures View() == Next(old(View()), LoadIds)
    {
      hide ClientStep, KeysStep, From, Snapshot;
      var key := keys[0];
      var idsdone := true;
      if key in cols {
        var ids := From(cols[key].Keys, nextid);
        var aofbuf, more := TakeIds(cols[key], key, ids);
        file := file + aofbuf;
        if more { nextid, idsdone := ids[MAX_IDS], false; }
      }
      if idsdone {
        keys, nextid := keys[1..], [];
      }
    }

    method ShrinkSwap()
      requires phase.Scanning? && keys == [] && keysdone
      modifies `aof, `phase
      ensures View() == Next(old(View()), Swap)
    {
      hide ClientStep, KeysStep, IdsStep;
      var values := file;
      for i := 0 to |shrinklog|
        invariant values == file + shrinklog[..i]
      {
        values := values + [shrinklog[i]];
      }
      assert shrinklog[..|shrinklog|] == shrinklog;
      aof, phase := values, Ended;
    }

    method ShrinkEnd()
      requires phase.Ended?
      modifies `shrinking, `shrinklog, `phase
      ensures View() == Next(old(View()), End)
    {
      hide ClientStep, KeysStep, IdsStep;
      shrinking, shrinklog, phase := false, [], NotRunning;
    }

    method Step(e: Event)
      modifies this
      ensures View() == Next(old(View()), e)
    {
      hide ClientStep, KeysStep, IdsStep;
      match e
      case Client(c, out) =>
        var _ := HandleInputCommand(c, out);
      case Begin => ShrinkBegin();
      case LoadKeys => if phase.Scanning? && keys == [] && !keysdone { ShrinkLoadKeys(); }
      case LoadIds => if phase.Scanning? && keys != [] { ShrinkLoadIds(); }
      case Swap => if phase.Scanning? && keys == [] && keysdone { ShrinkSwap(); }
      case Abort => if phase.Scanning? { phase := Ended; }
      case End => if phase.Ended? { ShrinkEnd(); }
    }

    /** Any schedule of writes and shrinker sections. Whatever the interleaving, the log that is left
        loads to the dataset that is left. */
    method Serve(schedule: seq<Event>)
      requires Inv(View()) && NoLeaks(View(), schedule)
      modifies this
      ensures View() == RunEvents(old(View()), schedule)
      ensures Inv(View()) && Load(map[], aof) == Loaded(cols)
    {
      hide Inv, Leaks, ClientStep, KeysStep, IdsStep;
      ghost var start := View();
      assert schedule[0..] == schedule;
      for i := 0 to |schedule|
        invariant Inv(View()) && NoLeaks(View(), schedule[i..])
        invariant RunEvents(View(), schedule[i..]) == RunEvents(start, schedule)
      {
        assert schedule[i..][1..] == schedule[i + 1..];
        StepKeepsInv(View(), schedule[i]);
        Step(schedule[i]);
      }
      InvParts(View());
      LoadRuns(map[], aof);
    }
  }

  // ----- the scans inside the shrinker's sections

  /** Collects a batch of keys; stops at the first key beyond it. */
  method TakeKeys(ks: seq<Str>) returns (keys: seq<Str>, more: bool)
    ensures more <==> |ks| > MAX_KEYS
    ensures keys == if more then ks[..MAX_KEYS] else ks
  {
    keys, more := [], false;
    for i := 0 to |ks|
      invariant i <= MAX_KEYS && keys == ks[..i]
    {
      if |keys| == MAX_KEYS { return keys, true; }
      keys := keys + [ks[i]];
    }
    assert ks[..|ks|] == ks;
  }

  /** Writes a SET for each id of a batch; stops at the first id beyond it. */
  method TakeIds(col: Col, key: Str, ids: seq<Str>) returns (aofbuf: seq<Cmd>, more: bool)
    requires forall i :: i in ids ==> i in col
    ensures more <==> |ids| > MAX_IDS
    ensures forall i :: i in (if more then ids[..MAX_IDS] else ids) ==> i in col
    ensures aofbuf == Snapshot(col, key, if more then ids[..MAX_IDS] else ids)
  {
    hide SnapCmd;
    aofbuf, more := [], false;
    assert ids[..0] == [];
    var count := 0;
    while count < |ids|
      invariant 0 <= count <= |ids| && count <= MAX_IDS
      invariant forall j :: j in ids[..count] ==> j in ids
      invariant aofbuf == Snapshot(col, key, ids[..count])
    {
      if count == MAX_IDS {
        more := true;
        return;
      }
      SnapshotSnoc(col, key, ids, count);
      aofbuf := aofbuf + [SnapCmd(key, ids[count], col[ids[count]])];
      count := count + 1;
    }
    assert ids[..count] == ids;
  }

  // ----- helpers of PDEL

  ghost function Elements(s: seq<Str>): set<Str> {
    set x | x in s
  }

  lemma ElementsSnoc(s: seq<Str>, i: nat)
    requires i < |s|
    ensures Elements(s[..i + 1]) == Elements(s[..i]) + {s[i]}
  {
    assert s[..i + 1] == s[..i] + [s[i]];
  }

  lemma NoneCollected(s: seq<Str>)
    ensures Elements(s) == {} <==> |s| == 0
  {
    if |s| > 0 { assert s[0] in Elements(s); }
  }

  lemma PdelsMeans(pattern: Str, id: Str)
    ensures Pdels(pattern, id) <==>
              Visits(Parse(pattern, false).limits, false, id) && WildcardMatch(pattern, id) == Verdict(true)
  {}

  lemma CollectStep(children: seq<Str>, done: seq<Str>, id: Str, pattern: Str)
    requires forall x :: x in children <==> x in done && Pdels(pattern, x)
    ensures var more := if Pdels(pattern, id) then children + [id] else children;
            forall x :: x in more <==> x in done + [id] && Pdels(pattern, x)
  {
    hide Pdels;
  }

  method CollectHits(col: Col, pattern: Str) returns (children: seq<Str>)
    ensures Elements(children) == Hits(col, pattern)
  {
    hide WildcardMatch, Denotes, Visits, Parse, Pdels;
    var g := ParseLoop(pattern, false);
    var ids := Sorted(col.Keys);
    children := [];
    for i := 0 to |ids|
      invariant forall x :: x in children <==> x in ids[..i] && Pdels(pattern, x)
    {
      assert ids[..i + 1] == ids[..i] + [ids[i]];
      PdelsMeans(pattern, ids[i]);
      CollectStep(children, ids[..i], ids[i], pattern);
      if Visits(g.limits, false, ids[i]) {
        var matched, _ := Match(pattern, ids[i]);
        if matched { children := children + [ids[i]]; }
      }
    }
    assert ids[..|ids|] == ids;
  }

  lemma {:induction false} SnapshotSnoc(col: Col, key: Str, ids: seq<Str>, n: nat)
    requires n < |ids| && forall i :: i in ids ==> i in col
    ensures forall j :: j in ids[..n] ==> j in ids
    ensures forall j :: j in ids[..n + 1] ==> j in ids
    ensures Snapshot(col, key, ids[..n + 1]) == Snapshot(col, key, ids[..n]) + [SnapCmd(key, ids[n], col[ids[n]])]
    decreases n
  {
    hide SnapCmd;
    if n > 0 {
      assert ids[..n][1..] == ids[1..][..n - 1] && ids[..n + 1][1..] == ids[1..][..n];
      SnapshotSnoc(col, key, ids[1..], n - 1);
    } else {
      assert ids[..1][1..] == [] && ids[..0] == [];
    }
  }
}
