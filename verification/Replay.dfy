/** Replaying a log, and why running a logged stretch twice changes nothing. */
module Replay {
  import opened Bytes
  import Objects
  import opened GlobRange
  import opened Dataset

  /** The dataset after re-executing a log. */
  function Run(d: Data, log: seq<Cmd>): Data
    decreases |log|
  {
    if log == [] then d else Run(Exec(d, log[0], Null).data, log[1..])
  }

  datatype Loaded = Loaded(data: Data) | LoadFailed(err: Error)

  /** loadAOF: re-executes the log and stops at the first error that is not skipped. */
  function Load(d: Data, log: seq<Cmd>): Loaded
    decreases |log|
  {
    if log == [] then Loaded(d)
    else
      var o := Exec(d, log[0], Null);
      if o.err.Some? && Fatal(o.err.value) then LoadFailed(o.err.value) else Load(o.data, log[1..])
  }

  /** No malformed FSET: what writeAOF ever lets into a log. */
  ghost predicate Clean(log: seq<Cmd>) {
    forall i :: 0 <= i < |log| ==> !(log[i].Fset? && log[i].bad)
  }

  /** A clean log loads without a fatal error, to its replay. */
  lemma {:induction false} LoadRuns(d: Data, log: seq<Cmd>)
    requires Clean(log)
    ensures Load(d, log) == Loaded(Run(d, log))
    decreases |log|
  {
    if log != [] {
      LoadRuns(Exec(d, log[0], Null).data, log[1..]);
    }
  }

  /** A malformed FSET that meets its key, and its object unless it says XX. */
  predicate Breaks(d: Data, c: Cmd) {
    c.Fset? && c.bad && c.key in d && (c.xx || c.id in d[c.key])
  }

  /** Loading fails if and only if such an FSET comes up, with the error of its arguments; every other error is
      skipped. */
  lemma {:induction false} LoadFailsIff(d: Data, log: seq<Cmd>)
    ensures Load(d, log).LoadFailed? <==> exists n :: 0 <= n < |log| && Breaks(Run(d, log[..n]), log[n])
    ensures Load(d, log) == Loaded(Run(d, log)) || Load(d, log) == LoadFailed(InvalidArgument)
    decreases |log|
  {
    hide Exec;
    if log != [] {
      ErrorLaw(d, log[0], Null);
      var e := Exec(d, log[0], Null).data;
      LoadFailsIff(e, log[1..]);
      assert log[..0] == [] && Run(d, log[..0]) == d;
      forall n | 0 <= n < |log| - 1 ensures Run(e, log[1..][..n]) == Run(d, log[..n + 1]) && log[1..][n] == log[n + 1] {
        assert log[..n + 1][1..] == log[1..][..n];
      }
      if n :| 0 <= n < |log| && Breaks(Run(d, log[..n]), log[n]) {
        if n > 0 { assert Breaks(Run(e, log[1..][..n - 1]), log[1..][n - 1]); }
      }
      if n :| 0 <= n < |log| - 1 && Breaks(Run(e, log[1..][..n]), log[1..][n]) {
        assert Breaks(Run(d, log[..n + 1]), log[n + 1]);
      }
    }
  }

  lemma {:induction false} RunAppend(d: Data, a: seq<Cmd>, b: seq<Cmd>)
    ensures Run(d, a + b) == Run(Run(d, a), b)
    decreases |a|
  {
    if a == [] {
      assert a + b == b;
    } else {
      assert (a + b)[1..] == a[1..] + b;
      RunAppend(Exec(d, a[0], Null).data, a[1..], b);
    }
  }

  lemma RunSnoc(d: Data, log: seq<Cmd>, c: Cmd)
    ensures Run(d, log + [c]) == Exec(Run(d, log), c, Null).data
  {
    RunAppend(d, log, [c]);
    assert [c][1..] == [];
  }

  lemma {:induction false} RunKeepsWf(d: Data, log: seq<Cmd>)
    requires Wf(d)
    ensures Wf(Run(d, log))
    decreases |log|
  {
    if log != [] {
      ExecKeepsWf(d, log[0], Null);
      RunKeepsWf(Exec(d, log[0], Null).data, log[1..]);
    }
  }

  /** The reply format changes neither the effect nor the logging of a command. */
  lemma OutputIrrelevant(d: Data, c: Cmd, out: Output)
    ensures Exec(d, c, out).data == Exec(d, c, Null).data
    ensures Exec(d, c, out).updated == Exec(d, c, Null).updated
    ensures Logged(Exec(d, c, out)) == Logged(Exec(d, c, Null))
  {
    hide PutAll, Changes, Hits;
  }

  // ----- one object at a time

  function RunId(log: seq<Cmd>, key: Str, id: Str, r: Option<Rec>): Option<Rec>
    decreases |log|
  {
    if log == [] then r else RunId(log[1..], key, id, StepId(log[0], key, id, r))
  }

  lemma {:induction false} RunIsPointwise(d: Data, log: seq<Cmd>, key: Str, id: Str)
    ensures Lookup(Run(d, log), key, id) == RunId(log, key, id, Lookup(d, key, id))
    decreases |log|
  {
    hide StepId, Exec;
    if log != [] {
      ExecIsPointwise(d, log[0], Null, key, id);
      RunIsPointwise(Exec(d, log[0], Null).data, log[1..], key, id);
    }
  }

  lemma {:induction false} RunIdSnoc(log: seq<Cmd>, c: Cmd, key: Str, id: Str, r: Option<Rec>)
    ensures RunId(log + [c], key, id, r) == StepId(c, key, id, RunId(log, key, id, r))
    decreases |log|
  {
    hide StepId;
    if log == [] {
      assert (log + [c])[1..] == [];
    } else {
      assert (log + [c])[1..] == log[1..] + [c];
      RunIdSnoc(log[1..], c, key, id, StepId(log[0], key, id, r));
    }
  }

  // ----- logged runs

  /** Every command of `log` reported an update when it ran, starting from `d`. */
  ghost predicate AllLogged(d: Data, log: seq<Cmd>)
    decreases |log|
  {
    log != [] ==>
      var o := Exec(d, log[0], Null);
      Logged(o) && AllLogged(o.data, log[1..])
  }

  lemma {:induction false} AllLoggedSnoc(d: Data, log: seq<Cmd>, c: Cmd)
    requires AllLogged(d, log) && Logged(Exec(Run(d, log), c, Null))
    ensures AllLogged(d, log + [c])
    decreases |log|
  {
    hide Exec;
    if log == [] {
      assert (log + [c])[1..] == [];
    } else {
      assert (log + [c])[1..] == log[1..] + [c];
      AllLoggedSnoc(Exec(d, log[0], Null).data, log[1..], c);
    }
  }

  lemma {:induction false} AllLoggedAppend(d: Data, a: seq<Cmd>, b: seq<Cmd>)
    ensures AllLogged(d, a + b) <==> AllLogged(d, a) && AllLogged(Run(d, a), b)
    decreases |a|
  {
    hide Exec;
    if a == [] {
      assert a + b == b;
    } else {
      assert (a + b)[1..] == a[1..] + b && (a + b)[0] == a[0];
      AllLoggedAppend(Exec(d, a[0], Null).data, a[1..], b);
    }
  }

  /** Every command of `log` meets a dataset that it updates, starting from `d`. */
  ghost predicate AllUpdate(d: Data, log: seq<Cmd>) {
    forall n :: 0 <= n < |log| ==> Updates(Run(d, log[..n]), log[n])
  }

  lemma {:induction false} AllLoggedIffAllUpdate(d: Data, log: seq<Cmd>)
    ensures AllLogged(d, log) <==> AllUpdate(d, log)
    decreases |log|
  {
    hide Exec, Updates;
    if log != [] {
      var m := |log| - 1;
      AllLoggedIffAllUpdate(d, log[..m]);
      assert log == log[..m] + [log[m]];
      AllLoggedAppend(d, log[..m], [log[m]]);
      LoggedIffUpdates(Run(d, log[..m]), log[m], Null);
      assert [log[m]][1..] == [];
      assert forall n :: 0 <= n < m ==> log[..m][n] == log[n] && log[..m][..n] == log[..n];
    }
  }

  predicate About(c: Cmd, key: Str, id: Str) {
    (c.Set? || c.Fset?) && c.key == key && c.id == id
  }

  /** Commands that do nothing, and so are not logged, while the object is absent. */
  predicate NeedsPresent(c: Cmd, key: Str, id: Str) {
    About(c, key, id) && (c.Set? ==> c.cond.IfPresent?)
  }

  ghost predicate LegitId(log: seq<Cmd>, key: Str, id: Str, r: Option<Rec>)
    decreases |log|
  {
    log != [] ==>
      && (r.None? ==> !NeedsPresent(log[0], key, id))
      && LegitId(log[1..], key, id, StepId(log[0], key, id, r))
  }

  lemma {:induction false} LoggedIsLegit(d: Data, log: seq<Cmd>, key: Str, id: Str)
    requires AllLogged(d, log)
    ensures LegitId(log, key, id, Lookup(d, key, id))
    decreases |log|
  {
    if log != [] {
      ExecIsPointwise(d, log[0], Null, key, id);
      LoggedIsLegit(Exec(d, log[0], Null).data, log[1..], key, id);
    }
  }

  // ----- running a logged stretch twice

  predicate Deletes(c: Cmd, key: Str, id: Str) {
    match c
    case Set(_, _, _, _, _) => false
    case Fset(_, _, _, _, _) => false
    case Del(k, i) => k == key && i == id
    case Pdel(k, pattern) => k == key && Pdels(pattern, id)
    case Drop(k) => k == key
    case FlushDb => true
  }

  predicate HasDelete(log: seq<Cmd>, key: Str, id: Str)
    decreases |log|
  {
    log != [] && (Deletes(log[0], key, id) || HasDelete(log[1..], key, id))
  }

  /** A stretch that deletes the object somewhere forgets how it started. */
  lemma {:induction false} DeleteForgets(log: seq<Cmd>, key: Str, id: Str, r: Option<Rec>, q: Option<Rec>)
    requires HasDelete(log, key, id)
    ensures RunId(log, key, id, r) == RunId(log, key, id, q)
    decreases |log|
  {
    if !Deletes(log[0], key, id) {
      DeleteForgets(log[1..], key, id, StepId(log[0], key, id, r), StepId(log[0], key, id, q));
    }
  }

  /** What a stretch without deletes does to an object that is present: an object to store, if any,
      and field writes. */
  datatype Effect = Effect(obj: Option<Objects.Object>, writes: Writes)

  function EffectOf(c: Cmd, key: Str, id: Str): Effect {
    if !About(c, key, id) then Effect(None, [])
    else if c.Fset? then Effect(None, c.writes)
    else if c.cond.IfAbsent? then Effect(None, [])
    else Effect(Some(c.obj), c.writes)
  }

  function Then(e: Effect, f: Effect): Effect {
    Effect(if f.obj.Some? then f.obj else e.obj, e.writes + f.writes)
  }

  function EffectOfAll(log: seq<Cmd>, key: Str, id: Str): Effect
    decreases |log|
  {
    if log == [] then Effect(None, []) else Then(EffectOf(log[0], key, id), EffectOfAll(log[1..], key, id))
  }

  function Apply(e: Effect, r: Rec): Rec {
    Rec(if e.obj.Some? then e.obj.value else r.obj, PutAll(r.fields, e.writes))
  }

  lemma {:induction false} PutAllAppend(f: Fields, a: Writes, b: Writes)
    ensures PutAll(f, a + b) == PutAll(PutAll(f, a), b)
    decreases |a|
  {
    if a == [] {
      assert a + b == b;
    } else {
      assert (a + b)[1..] == a[1..] + b;
      PutAllAppend(Put(f, a[0].0, a[0].1), a[1..], b);
    }
  }

  lemma ApplyThen(e: Effect, f: Effect, r: Rec)
    ensures Apply(Then(e, f), r) == Apply(f, Apply(e, r))
  {
    PutAllAppend(r.fields, e.writes, f.writes);
  }

  lemma {:induction false} PresentEffect(log: seq<Cmd>, key: Str, id: Str, r: Rec)
    requires !HasDelete(log, key, id)
    ensures RunId(log, key, id, Some(r)) == Some(Apply(EffectOfAll(log, key, id), r))
    decreases |log|
  {
    if log != [] {
      var e := EffectOf(log[0], key, id);
      assert StepId(log[0], key, id, Some(r)) == Some(Apply(e, r));
      PresentEffect(log[1..], key, id, Apply(e, r));
      ApplyThen(e, EffectOfAll(log[1..], key, id), r);
    }
  }

  /** Writing the same fields again, after anything that ended in them, changes nothing. */
  lemma RewriteAbsorbed(f: Fields, a: Writes, b: Writes)
    requires NoZeros(f)
    ensures PutAll(PutAll(PutAll(PutAll(f, a), b), a), b) == PutAll(PutAll(f, a), b)
    ensures PutAll(PutAll(f, b), b) == PutAll(f, b)
  {
    forall name
      ensures Read(PutAll(PutAll(PutAll(PutAll(f, a), b), a), b), name) == Read(PutAll(PutAll(f, a), b), name)
      ensures Read(PutAll(PutAll(f, b), b), name) == Read(PutAll(f, b), name)
    {
      var g := PutAll(PutAll(f, a), b);
      PutAllReads(f, a, name);
      PutAllReads(PutAll(f, a), b, name);
      PutAllReads(g, a, name);
      PutAllReads(PutAll(g, a), b, name);
      PutAllReads(f, b, name);
      PutAllReads(PutAll(f, b), b, name);
    }
    PutAllNoZeros(f, a);
    PutAllNoZeros(PutAll(f, a), b);
    PutAllNoZeros(PutAll(PutAll(f, a), b), a);
    PutAllNoZeros(PutAll(PutAll(PutAll(f, a), b), a), b);
    PutAllNoZeros(f, b);
    PutAllNoZeros(PutAll(f, b), b);
    FieldsExtensional(PutAll(PutAll(PutAll(PutAll(f, a), b), a), b), PutAll(PutAll(f, a), b));
    FieldsExtensional(PutAll(PutAll(f, b), b), PutAll(f, b));
  }

  lemma {:induction false} TwiceFromPresent(log: seq<Cmd>, key: Str, id: Str, r: Rec)
    requires !HasDelete(log, key, id) && NoZeros(r.fields)
    ensures var once := RunId(log, key, id, Some(r)); RunId(log, key, id, once) == once
  {
    var e := EffectOfAll(log, key, id);
    PresentEffect(log, key, id, r);
    PresentEffect(log, key, id, Apply(e, r));
    RewriteAbsorbed(r.fields, [], e.writes);
  }

  lemma {:induction false} TwiceFromAbsent(log: seq<Cmd>, key: Str, id: Str)
    requires !HasDelete(log, key, id) && LegitId(log, key, id, None)
    ensures var once := RunId(log, key, id, None); RunId(log, key, id, once) == once
    decreases |log|
  {
    if log != [] {
      var c, rest := log[0], log[1..];
      if !About(c, key, id) {
        assert forall r :: StepId(c, key, id, r) == r;
        TwiceFromAbsent(rest, key, id);
      } else {
        var first := Rec(c.obj, PutAll(map[], c.writes));
        assert StepId(c, key, id, None) == Some(first);
        TwiceAfterCreation(c, rest, key, id, first);
      }
    }
  }

  lemma TwiceAfterCreation(c: Cmd, rest: seq<Cmd>, key: Str, id: Str, first: Rec)
    requires c.Set? && About(c, key, id) && !c.cond.IfPresent? && !HasDelete(rest, key, id)
    requires first == Rec(c.obj, PutAll(map[], c.writes))
    ensures var once := RunId(rest, key, id, Some(first));
            RunId(rest, key, id, StepId(c, key, id, once)) == once
  {
    var e := EffectOfAll(rest, key, id);
    PresentEffect(rest, key, id, first);
    var once := Apply(e, first);
    var again := if c.cond.IfAbsent? then once else Rec(c.obj, PutAll(once.fields, c.writes));
    assert StepId(c, key, id, Some(once)) == Some(again);
    PresentEffect(rest, key, id, again);
    var none: Fields := map[];
    RewriteAbsorbed(none, c.writes, e.writes);
    PutAllNoZeros(none, c.writes);
    RewriteAbsorbed(first.fields, [], e.writes);
  }

  /** Running a logged stretch again on the object it produced leaves that object as it is. */
  lemma LoggedRunIsSettled(log: seq<Cmd>, key: Str, id: Str, r: Option<Rec>)
    requires LegitId(log, key, id, r) && NoZeros(FieldsOf(r))
    ensures var once := RunId(log, key, id, r); RunId(log, key, id, once) == once
  {
    if HasDelete(log, key, id) {
      DeleteForgets(log, key, id, r, RunId(log, key, id, r));
    } else if r.Some? {
      TwiceFromPresent(log, key, id, r.value);
    } else {
      TwiceFromAbsent(log, key, id);
    }
  }
}
