/** The dataset as a value, and what each write command does to it: new dataset, `updated` flag, error. */
module Dataset {
  import opened Bytes
  import opened Objects
  import opened GlobRange

  /** Field values by name; a name that is absent reads as zero, and no zero is stored. */
  type Fields = map<Str, real>

  type Writes = seq<(Str, real)>

  datatype Rec = Rec(obj: Object, fields: Fields)

  type Col = map<Str, Rec>

  type Data = map<Str, Col>

  function Read(f: Fields, name: Str): real {
    if name in f then f[name] else 0.0
  }

  function Put(f: Fields, name: Str, v: real): Fields {
    if v == 0.0 then f - {name} else f[name := v]
  }

  /** Field writes applied left to right. */
  function PutAll(f: Fields, ws: Writes): Fields
    decreases |ws|
  {
    if ws == [] then f else PutAll(Put(f, ws[0].0, ws[0].1), ws[1..])
  }

  /** How many of the writes changed the value they found: FSET's updated_count. */
  function Changes(f: Fields, ws: Writes): nat
    decreases |ws|
  {
    if ws == [] then 0
    else (if Read(f, ws[0].0) != ws[0].1 then 1 else 0) + Changes(Put(f, ws[0].0, ws[0].1), ws[1..])
  }

  // ----- commands

  datatype Cond = Always | IfAbsent | IfPresent

  /** `bad` marks an FSET whose argument list breaks off in an error after `writes`. */
  datatype Cmd =
    | Set(key: Str, id: Str, writes: Writes, cond: Cond, obj: Object)
    | Fset(key: Str, id: Str, writes: Writes, xx: bool, bad: bool)
    | Del(key: Str, id: Str)
    | Pdel(key: Str, pattern: Str)
    | Drop(key: Str)
    | FlushDb

  /** The reply format of the caller; loading a log and following a leader use Null. */
  datatype Output = Null | Json | Resp

  datatype Error = KeyNotFound | IdNotFound | IdAlreadyExists | InvalidArgument

  datatype Outcome = Outcome(data: Data, updated: bool, err: Option<Error>)

  function Lookup(d: Data, key: Str, id: Str): Option<Rec> {
    if key in d && id in d[key] then Some(d[key][id]) else None
  }

  /** Stores a collection back, dropping the key when it is empty. */
  function WithCol(d: Data, key: Str, col: Col): Data {
    if col == map[] then d - {key} else d[key := col]
  }

  function FieldsOf(r: Option<Rec>): Fields {
    if r.Some? then r.value.fields else map[]
  }

  function Hits(col: Col, pattern: Str): set<Str> {
    set id | id in col && Pdels(pattern, id)
  }

  function Exec(d: Data, c: Cmd, out: Output): Outcome {
    match c
    case Set(key, id, writes, cond, obj) =>
      var was := Lookup(d, key, id);
      if (cond.IfPresent? && was.None?) || (cond.IfAbsent? && was.Some?) then
        Outcome(d, false,
                if out != Json then None else if cond.IfAbsent? then Some(IdAlreadyExists) else Some(IdNotFound))
      else
        var col := if key in d then d[key] else map[];
        Outcome(d[key := col[id := Rec(obj, PutAll(FieldsOf(was), writes))]], true, None)
    case Fset(key, id, writes, xx, bad) =>
      if key !in d then Outcome(d, false, Some(KeyNotFound))
      else if id in d[key] then
        var r := d[key][id];
        Outcome(d[key := d[key][id := r.(fields := PutAll(r.fields, writes))]],
                Changes(r.fields, writes) > 0,
                if bad then Some(InvalidArgument) else None)
      else if xx then Outcome(d, false, if bad then Some(InvalidArgument) else None)
      else Outcome(d, false, Some(IdNotFound))
    case Del(key, id) =>
      if Lookup(d, key, id).Some? then Outcome(WithCol(d, key, d[key] - {id}), true, None)
      else Outcome(d, false, None)
    case Pdel(key, pattern) =>
      if key in d then
        var hits := Hits(d[key], pattern);
        Outcome(WithCol(d, key, d[key] - hits), hits != {}, None)
      else Outcome(d, false, None)
    case Drop(key) => Outcome(d - {key}, key in d, None)
    case FlushDb => Outcome(map[], true, None)
  }

  /** handleInputCommand: a command is logged when it succeeded and updated something. */
  predicate Logged(o: Outcome) {
    o.err.None? && o.updated
  }

  /** commandErrIsFatal: the errors a log replay does not skip. */
  predicate Fatal(e: Error) {
    e != KeyNotFound && e != IdNotFound
  }

  // ----- well-formed datasets

  ghost predicate NoZeros(f: Fields) {
    forall name :: name in f ==> f[name] != 0.0
  }

  ghost predicate WfCol(col: Col) {
    col != map[] && forall id :: id in col ==> NoZeros(col[id].fields)
  }

  /** No empty collections and no stored zeros: every dataset is determined by its lookups. */
  ghost predicate Wf(d: Data) {
    forall key :: key in d ==> WfCol(d[key])
  }

  lemma WfColPut(col: Col, id: Str, r: Rec)
    requires (col == map[] || WfCol(col)) && NoZeros(r.fields)
    ensures WfCol(col[id := r])
  {
    assert id in col[id := r];
  }

  lemma {:induction false} PutAllNoZeros(f: Fields, ws: Writes)
    requires NoZeros(f)
    ensures NoZeros(PutAll(f, ws))
    decreases |ws|
  {
    if ws != [] {
      PutAllNoZeros(Put(f, ws[0].0, ws[0].1), ws[1..]);
    }
  }

  lemma ExecKeepsWf(d: Data, c: Cmd, out: Output)
    requires Wf(d)
    ensures Wf(Exec(d, c, out).data)
  {
    hide PutAll, Changes, Hits, WfCol, NoZeros;
    match c
    case Set(key, id, writes, _, obj) =>
      var f := FieldsOf(Lookup(d, key, id));
      assert NoZeros(f) by { StoredNoZeros(d, key, id); }
      PutAllNoZeros(f, writes);
      WfColPut(if key in d then d[key] else map[], id, Rec(obj, PutAll(f, writes)));
    case Fset(key, id, writes, _, _) =>
      if key in d && id in d[key] {
        var r := d[key][id];
        StoredNoZeros(d, key, id);
        PutAllNoZeros(r.fields, writes);
        WfColPut(d[key], id, r.(fields := PutAll(r.fields, writes)));
      }
    case Del(key, id) =>
      if key in d { WfWithout(d, key, {id}); }
    case Pdel(key, pattern) =>
      if key in d { WfWithout(d, key, Hits(d[key], pattern)); }
    case Drop(key) =>
    case FlushDb =>
  }

  lemma StoredNoZeros(d: Data, key: Str, id: Str)
    requires Wf(d)
    ensures NoZeros(FieldsOf(Lookup(d, key, id)))
  {}

  lemma WfWithout(d: Data, key: Str, ids: set<Str>)
    requires Wf(d) && key in d
    ensures Wf(WithCol(d, key, d[key] - ids))
  {}

  lemma WfExtensional(d: Data, e: Data)
    requires Wf(d) && Wf(e)
    requires forall key, id :: Lookup(d, key, id) == Lookup(e, key, id)
    ensures d == e
  {
    WfSubset(d, e);
    WfSubset(e, d);
    forall key | key in d ensures d[key] == e[key] {
      forall id | id in d[key] ensures id in e[key] && d[key][id] == e[key][id] {
        assert Lookup(d, key, id) == Lookup(e, key, id);
      }
      forall id | id in e[key] ensures id in d[key] {
        assert Lookup(d, key, id) == Lookup(e, key, id);
      }
    }
  }

  lemma WfSubset(d: Data, e: Data)
    requires Wf(d)
    requires forall key, id :: Lookup(d, key, id) == Lookup(e, key, id)
    ensures forall key :: key in d ==> key in e
  {
    forall key | key in d ensures key in e {
      var id :| id in d[key];
      assert Lookup(d, key, id) == Lookup(e, key, id);
    }
  }

  // ----- field writes

  /** The last write to a name wins; an unwritten name keeps its value. */
  function Last(ws: Writes, name: Str): Option<real>
    decreases |ws|
  {
    if ws == [] then None
    else if ws[|ws| - 1].0 == name then Some(ws[|ws| - 1].1)
    else Last(ws[..|ws| - 1], name)
  }

  lemma {:induction false} LastCons(w: (Str, real), ws: Writes, name: Str)
    ensures Last([w] + ws, name) ==
            if Last(ws, name).Some? then Last(ws, name) else if w.0 == name then Some(w.1) else None
    decreases |ws|
  {
    var all := [w] + ws;
    if ws == [] {
      assert all[..|all| - 1] == [];
    } else {
      assert all[..|all| - 1] == [w] + ws[..|ws| - 1];
      assert all[|all| - 1] == ws[|ws| - 1];
      LastCons(w, ws[..|ws| - 1], name);
    }
  }

  lemma {:induction false} PutAllReads(f: Fields, ws: Writes, name: Str)
    ensures Read(PutAll(f, ws), name) == if Last(ws, name).Some? then Last(ws, name).value else Read(f, name)
    decreases |ws|
  {
    if ws != [] {
      PutAllReads(Put(f, ws[0].0, ws[0].1), ws[1..], name);
      assert ws == [ws[0]] + ws[1..];
      LastCons(ws[0], ws[1..], name);
    }
  }

  lemma FieldsExtensional(f: Fields, g: Fields)
    requires NoZeros(f) && NoZeros(g)
    requires forall name :: Read(f, name) == Read(g, name)
    ensures f == g
  {
    assert forall name :: name in f <==> Read(f, name) != 0.0;
    assert forall name :: name in g <==> Read(g, name) != 0.0;
    assert forall name :: name in f ==> f[name] == Read(f, name);
    assert forall name :: name in g ==> g[name] == Read(g, name);
    assert forall name :: name in f <==> name in g;
  }

  /** An FSET that counts no change leaves the record as it was. */
  lemma {:induction false} NoChangesKeepsFields(f: Fields, ws: Writes)
    requires NoZeros(f) && Changes(f, ws) == 0
    ensures PutAll(f, ws) == f
    decreases |ws|
  {
    if ws != [] {
      assert Put(f, ws[0].0, ws[0].1) == f;
      NoChangesKeepsFields(f, ws[1..]);
    }
  }

  /** A command that reports no update left the dataset unchanged. */
  lemma NotUpdatedUnchanged(d: Data, c: Cmd, out: Output)
    requires Wf(d) && !Exec(d, c, out).updated
    ensures Exec(d, c, out).data == d
  {
    hide PutAll, Changes, Hits;
    match c
    case Fset(key, id, writes, _, _) =>
      if key in d && id in d[key] {
        var r := d[key][id];
        NoChangesKeepsFields(r.fields, writes);
        assert d[key][id := r] == d[key];
        assert d[key := d[key]] == d;
      }
    case Pdel(key, pattern) =>
      if key in d {
        assert d[key] - {} == d[key];
        assert d[key := d[key]] == d;
      }
    case _ =>
  }

  /** FSET's count is zero exactly when every write finds the value it writes. */
  lemma {:induction false} ChangesIff(f: Fields, ws: Writes)
    ensures Changes(f, ws) == 0 <==> forall i :: 0 <= i < |ws| ==> Read(f, ws[i].0) == ws[i].1
    decreases |ws|
  {
    if ws != [] {
      var g := Put(f, ws[0].0, ws[0].1);
      ChangesIff(g, ws[1..]);
      assert forall i :: 0 < i < |ws| ==> ws[i] == ws[1..][i - 1];
      if Read(f, ws[0].0) == ws[0].1 {
        assert forall name :: Read(g, name) == Read(f, name);
      }
    }
  }

  /** What a command needs to find in the dataset in order to update it. */
  predicate Updates(d: Data, c: Cmd) {
    match c
    case Set(key, id, _, cond, _) =>
      (cond.IfAbsent? ==> Lookup(d, key, id).None?) && (cond.IfPresent? ==> Lookup(d, key, id).Some?)
    case Fset(key, id, writes, _, bad) =>
      !bad && Lookup(d, key, id).Some?
      && exists i :: 0 <= i < |writes| && Read(Lookup(d, key, id).value.fields, writes[i].0) != writes[i].1
    case Del(key, id) => Lookup(d, key, id).Some?
    case Pdel(key, pattern) => key in d && exists id :: id in d[key] && Pdels(pattern, id)
    case Drop(key) => key in d
    case FlushDb => true
  }

  /** A command is logged if and only if the dataset holds what it needs: a plain SET and FLUSHDB always, NX an
      absent and XX a present object, FSET an object with a field to change, DEL the object, PDEL a hit, DROP
      the key. */
  lemma LoggedIffUpdates(d: Data, c: Cmd, out: Output)
    ensures Logged(Exec(d, c, out)) <==> Updates(d, c)
  {
    hide PutAll, Changes, Pdels, WithCol;
    match c
    case Fset(key, id, writes, _, _) =>
      if key in d && id in d[key] { ChangesIff(d[key][id].fields, writes); }
    case Pdel(key, pattern) =>
      if key in d {
        var hits := Hits(d[key], pattern);
        assert forall id :: id in hits <==> id in d[key] && Pdels(pattern, id);
      }
    case _ =>
  }

  /** Which error a command gives, error by error. Only FSET misses a key; only FSET without XX misses an id, and a
      SET with XX in JSON; only a SET with NX in JSON finds an id it does not want; only a malformed FSET that misses
      neither is told of its argument. */
  lemma ErrorLaw(d: Data, c: Cmd, out: Output)
    ensures var e := Exec(d, c, out).err;
            && (e == Some(KeyNotFound) <==> c.Fset? && c.key !in d)
            && (e == Some(IdNotFound) <==>
                || (c.Fset? && !c.xx && c.key in d && c.id !in d[c.key])
                || (c.Set? && c.cond == IfPresent && out == Json && Lookup(d, c.key, c.id).None?))
            && (e == Some(IdAlreadyExists) <==>
                c.Set? && c.cond == IfAbsent && out == Json && Lookup(d, c.key, c.id).Some?)
            && (e == Some(InvalidArgument) <==> c.Fset? && c.bad && c.key in d && (c.xx || c.id in d[c.key]))
  {
    hide PutAll, Changes, Hits;
  }

  /** DEL, PDEL, DROP and FLUSHDB never fail. */
  lemma NeverFails(d: Data, c: Cmd, out: Output)
    requires c.Del? || c.Pdel? || c.Drop? || c.FlushDb?
    ensures Exec(d, c, out).err == None
  {
    hide PutAll, Changes, Hits;
  }

  // ----- one object at a time

  /** What a command does to the object (key, id), seen alone. */
  function StepId(c: Cmd, key: Str, id: Str, r: Option<Rec>): Option<Rec> {
    match c
    case Set(k, i, writes, cond, obj) =>
      if k != key || i != id || (cond.IfPresent? && r.None?) || (cond.IfAbsent? && r.Some?) then r
      else Some(Rec(obj, PutAll(FieldsOf(r), writes)))
    case Fset(k, i, writes, _, _) =>
      if k != key || i != id || r.None? then r
      else Some(r.value.(fields := PutAll(r.value.fields, writes)))
    case Del(k, i) => if k == key && i == id then None else r
    case Pdel(k, pattern) => if k == key && Pdels(pattern, id) then None else r
    case Drop(k) => if k == key then None else r
    case FlushDb => None
  }

  lemma WithColLookup(d: Data, k: Str, col: Col, key: Str, id: Str)
    ensures Lookup(WithCol(d, k, col), key, id) ==
            if key != k then Lookup(d, key, id) else if id in col then Some(col[id]) else None
  {}

  /** The objects of a dataset do not influence one another. */
  lemma ExecIsPointwise(d: Data, c: Cmd, out: Output, key: Str, id: Str)
    ensures Lookup(Exec(d, c, out).data, key, id) == StepId(c, key, id, Lookup(d, key, id))
  {
    hide PutAll, Changes, Pdels, WithCol;
    match c
    case Set(k, i, writes, cond, obj) =>
    case Fset(k, i, writes, _, _) =>
    case Del(k, i) =>
      if k in d { WithColLookup(d, k, d[k] - {i}, key, id); }
    case Pdel(k, pattern) =>
      if k in d { WithColLookup(d, k, d[k] - Hits(d[k], pattern), key, id); }
    case Drop(k) =>
    case FlushDb =>
  }
}
