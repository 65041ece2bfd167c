/** A geofence: which event a change of an object is reported as, under which group id, and what whole runs of
    reports look like. */
module Fence {
  import opened Bytes
  import opened Objects

  datatype FenceCmd = Nearby | Within | Intersects

  datatype Detect = Inside | Outside | Enter | Exit | Cross

  /** A report under a group id, or the report of a deletion. */
  datatype Msg = Msg(id: Str, fset: bool, group: nat, detect: Detect) | Deleted(id: Str)

  /** The fence: its search command, the geometry tests, whether it ignores fields, and the detect list, if any.
      `crosses` tests the line between the two objects' points. */
  datatype Area = Area(
    cmd: FenceCmd, inside: (FenceCmd, Object) -> bool, crosses: (FenceCmd, Object, Object) -> bool,
    nofields: bool, detect: Option<set<Detect>>)

  /** What the fence is told of. An FSET and a deletion name an object that exists. */
  datatype Event = Set(id: Str, obj: Object) | Fset(id: Str) | Del(id: Str)

  /** `nextId` stands for the supply of fresh group ids. */
  datatype State = State(objs: map<Str, Object>, groups: map<Str, nat>, nextId: nat)

  // ----- one event

  /** fenceMatchObject; no test ever holds of a string. */
  predicate Holds(a: Area, obj: Object) {
    obj.geometry && a.inside(a.cmd, obj)
  }

  /** FSET passes no old object, so it never enters, leaves or crosses. */
  function Detected(a: Area, was: Option<Object>, obj: Object, fset: bool): Detect {
    var match1 := was.Some? && Holds(a, was.value);
    var match2 := Holds(a, obj);
    if match1 && match2 then Inside
    else if match1 then Exit
    else if match2 then if fset then Inside else Enter
    else if !fset && was.Some? && a.crosses(if a.cmd.Within? then Intersects else a.cmd, was.value, obj) then Cross
    else Outside
  }

  predicate Wanted(a: Area, d: Detect) {
    a.detect.None? || d in a.detect.value
  }

  /** An unwanted enter counts as inside and an unwanted exit as outside. */
  function Reported(a: Area, d: Detect): Option<Detect> {
    if Wanted(a, d) then Some(d)
    else if d.Enter? && Wanted(a, Inside) then Some(Inside)
    else if d.Exit? && Wanted(a, Outside) then Some(Outside)
    else None
  }

  function Reports(a: Area, id: Str, fset: bool, group: nat, d: Detect): seq<Msg> {
    [Msg(id, fset, group, d)]
    + (if d.Enter? && Wanted(a, Inside) then [Msg(id, fset, group, Inside)] else [])
    + (if (d.Exit? || d.Cross?) && Wanted(a, Outside) then [Msg(id, fset, group, Outside)] else [])
  }

  /** Group ids: a new one at each enter, kept until the next; a crossing has one of its own and ends it. */
  function GroupFor(st: State, id: Str, d: Detect): nat {
    if !d.Enter? && !d.Cross? && id in st.groups then st.groups[id] else st.nextId
  }

  function Regrouped(st: State, id: Str, d: Detect): State {
    if d.Cross? then st.(groups := st.groups - {id}, nextId := st.nextId + 1)
    else if d.Enter? || id !in st.groups then st.(groups := st.groups[id := st.nextId], nextId := st.nextId + 1)
    else st
  }

  function Step(a: Area, st: State, ev: Event): (State, seq<Msg>) {
    match ev
    case Del(id) =>
      if id !in st.objs then (st, [])
      else (st.(objs := st.objs - {id}), if st.objs[id].geometry then [Deleted(id)] else [])
    case Set(id, obj) =>
      var was := if id in st.objs then Some(st.objs[id]) else None;
      Changed(a, st.(objs := st.objs[id := obj]), id, was, obj, false)
    case Fset(id) =>
      if id !in st.objs || a.nofields then (st, []) else Changed(a, st, id, None, st.objs[id], true)
  }

  function Changed(a: Area, st: State, id: Str, was: Option<Object>, obj: Object, fset: bool): (State, seq<Msg>) {
    var d := Reported(a, Detected(a, was, obj, fset));
    if !obj.geometry || d.None? then (st, [])
    else (Regrouped(st, id, d.value), Reports(a, id, fset, GroupFor(st, id, d.value), d.value))
  }

  function Run(a: Area, st: State, evs: seq<Event>): (State, seq<Msg>) {
    if evs == [] then (st, [])
    else
      var (mid, tr) := Run(a, st, evs[..|evs| - 1]);
      var (end, msgs) := Step(a, mid, evs[|evs| - 1]);
      (end, tr + msgs)
  }

  // ----- the object

  class LiveFence {
    var cmd: FenceCmd
    const inside: (FenceCmd, Object) -> bool
    const crosses: (FenceCmd, Object, Object) -> bool
    const nofields: bool
    const detect: Option<set<Detect>>
    var groups: map<Str, nat>
    var nextId: nat

    ghost function View(): Area
      reads this
    {
      Area(cmd, inside, crosses, nofields, detect)
    }

    constructor (a: Area)
      ensures View() == a && groups == map[] && nextId == 0
    {
      cmd, inside, crosses, nofields, detect := a.cmd, a.inside, a.crosses, a.nofields, a.detect;
      groups, nextId := map[], 0;
    }

    /** The event, before the detect list. Testing the line of a "within" fence borrows "intersects". */
    method Detects(was: Option<Object>, obj: Object, fset: bool) returns (d: Detect)
      modifies `cmd
      ensures d == Detected(View(), was, obj, fset) && cmd == old(cmd)
    {
      var match1 := was.Some? && was.value.geometry && inside(cmd, was.value);
      var match2 := obj.geometry && inside(cmd, obj);
      d := Outside;
      if match1 && match2 {
        d := Inside;
      } else if match1 && !match2 {
        d := Exit;
      } else if !match1 && match2 {
        d := Enter;
        if fset { d := Inside; }
      } else if !fset && was.Some? {
        var temp := false;
        if cmd.Within? {
          cmd := Intersects;
          temp := true;
        }
        if crosses(cmd, was.value, obj) { d := Cross; }
        if temp { cmd := Within; }
      }
    }

    /** The detect list: an unwanted event may still be reported as a weaker one. */
    method Filter(start: Detect) returns (r: Option<Detect>)
      ensures r == Reported(View(), start)
    {
      var d := start;
      while detect.Some? && d !in detect.value
        invariant Reported(View(), d) == Reported(View(), start)
        decreases d.Enter? || d.Exit?
      {
        if d.Enter? {
          d := Inside;
        } else if d.Exit? {
          d := Outside;
        } else {
          return None;
        }
      }
      return Some(d);
    }

    method Group(id: Str, d: Detect) returns (group: nat)
      modifies `groups, `nextId
      ensures forall objs :: var st := State(objs, old(groups), old(nextId));
                group == GroupFor(st, id, d) && State(objs, groups, nextId) == Regrouped(st, id, d)
    {
      group := nextId;
      if d.Enter? {
        nextId, groups := nextId + 1, groups[id := group];
      } else if d.Cross? {
        nextId, groups := nextId + 1, groups - {id};
      } else if id in groups {
        group := groups[id];
      } else {
        nextId, groups := nextId + 1, groups[id := group];
      }
    }

    method MakeMsgs(id: Str, fset: bool, group: nat, d: Detect) returns (msgs: seq<Msg>)
      ensures msgs == Reports(View(), id, fset, group, d)
    {
      msgs := [Msg(id, fset, group, d)];
      match d
      case Enter =>
        if detect.None? || Inside in detect.value { msgs := msgs + [Msg(id, fset, group, Inside)]; }
      case Exit =>
        if detect.None? || Outside in detect.value { msgs := msgs + [Msg(id, fset, group, Outside)]; }
      case Cross =>
        if detect.None? || Outside in detect.value { msgs := msgs + [Msg(id, fset, group, Outside)]; }
      case _ =>
    }

    /** fenceMatch for a changed object: its reports, with the group table brought up to date. */
    method FenceMatch(id: Str, was: Option<Object>, obj: Object, fset: bool) returns (msgs: seq<Msg>)
      modifies this
      ensures View() == old(View())
      ensures forall objs ::
                Changed(View(), State(objs, old(groups), old(nextId)), id, was, obj, fset)
                == (State(objs, groups, nextId), msgs)
    {
      hide Detected, Reported, Reports, GroupFor, Regrouped;
      if !obj.geometry { return []; }
      var start := Detects(was, obj, fset);
      var d := Filter(start);
      if d.None? { return []; }
      var group := Group(id, d.value);
      msgs := MakeMsgs(id, fset, group, d.value);
    }

    /** One event on the collection's objects, and its reports. */
    method Handle(start: map<Str, Object>, ev: Event) returns (objs: map<Str, Object>, msgs: seq<Msg>)
      modifies this
      ensures View() == old(View())
      ensures Step(View(), State(start, old(groups), old(nextId)), ev) == (State(objs, groups, nextId), msgs)
    {
      hide Changed;
      objs, msgs := start, [];
      match ev
      case Del(id) =>
        if id in start {
          if start[id].geometry { msgs := [Deleted(id)]; }
          objs := start - {id};
        }
      case Set(id, obj) =>
        var was := if id in start then Some(start[id]) else None;
        objs := start[id := obj];
        msgs := FenceMatch(id, was, obj, false);
      case Fset(id) =>
        if id in start && !nofields { msgs := FenceMatch(id, None, start[id], true); }
    }

    /** A run of events: the reports of the run. */
    method Watch(start: map<Str, Object>, evs: seq<Event>) returns (objs: map<Str, Object>, trace: seq<Msg>)
      modifies this
      ensures View() == old(View())
      ensures Run(View(), State(start, old(groups), old(nextId)), evs) == (State(objs, groups, nextId), trace)
    {
      hide Step;
      objs, trace := start, [];
      ghost var a, st := View(), State(start, groups, nextId);
      assert evs[..0] == [];
      for i := 0 to |evs|
        invariant View() == a && Run(a, st, evs[..i]) == (State(objs, groups, nextId), trace)
      {
        assert evs[..i + 1][..i] == evs[..i] && evs[..i + 1][i] == evs[i];
        var msgs;
        objs, msgs := Handle(objs, evs[i]);
        trace := trace + msgs;
      }
      assert evs[..|evs|] == evs;
    }
  }

  // ----- enters and exits

  predicate In(a: Area, st: State, id: Str) {
    id in st.objs && st.objs[id].geometry && a.inside(a.cmd, st.objs[id])
  }

  /** The enter and exit reports of one object. */
  function Crossings(tr: seq<Msg>, id: Str): seq<Detect> {
    if tr == [] then []
    else
      var m := tr[|tr| - 1];
      Crossings(tr[..|tr| - 1], id)
      + if m.Msg? && m.id == id && (m.detect.Enter? || m.detect.Exit?) then [m.detect] else []
  }

  /** Enters and exits by turns, leading from one side of the fence to the other. */
  predicate Lead(start: bool, c: seq<Detect>, end: bool)
    decreases |c|
  {
    if c == [] then start == end
    else c[|c| - 1] == (if end then Enter else Exit) && Lead(start, c[..|c| - 1], !end)
  }

  lemma {:induction false} CrossingsAppend(tr: seq<Msg>, more: seq<Msg>, id: Str)
    ensures Crossings(tr + more, id) == Crossings(tr, id) + Crossings(more, id)
    decreases |more|
  {
    if more == [] {
      assert tr + more == tr;
    } else {
      var m := |more| - 1;
      CrossingsAppend(tr, more[..m], id);
      assert (tr + more)[..|tr + more| - 1] == tr + more[..m];
    }
  }

  /** An event that takes the object away without a report of its side: a deletion, or a string in its place. */
  predicate Silent(ev: Event, id: Str) {
    ev.id == id && (ev.Del? || (ev.Set? && !ev.obj.geometry))
  }

  lemma StepCrosses(a: Area, st: State, ev: Event, id: Str)
    requires a.detect.None?
    ensures var (st', msgs) := Step(a, st, ev);
            if Silent(ev, id) then Crossings(msgs, id) == [] && !In(a, st', id)
            else Crossings(msgs, id) == if In(a, st', id) == In(a, st, id) then []
                                        else if In(a, st', id) then [Enter] else [Exit]
  {
    hide Crossings, GroupFor;
    var (st', msgs) := Step(a, st, ev);
    if msgs == [] {
      NoCrossings(id);
    } else if |msgs| == 1 {
      assert msgs == [msgs[0]];
      OneCrossing(msgs[0], id);
    } else {
      assert msgs == [msgs[0]] + [msgs[1]];
      CrossingsAppend([msgs[0]], [msgs[1]], id);
      OneCrossing(msgs[0], id);
      OneCrossing(msgs[1], id);
    }
  }

  lemma OneCrossing(m: Msg, id: Str)
    ensures Crossings([m], id) == if m.Msg? && m.id == id && (m.detect.Enter? || m.detect.Exit?) then [m.detect] else []
  {
    assert [m][..0] == [];
  }

  /** The exact condition: whenever the object is deleted or replaced by a string, it is outside. */
  ghost predicate TakenOutside(a: Area, st: State, evs: seq<Event>, id: Str) {
    forall n :: 0 <= n < |evs| && Silent(evs[n], id) ==> !In(a, Run(a, st, evs[..n]).0, id)
  }

  lemma TakenSnoc(a: Area, st: State, evs: seq<Event>, id: Str)
    requires evs != []
    ensures var m := |evs| - 1;
            TakenOutside(a, st, evs, id) <==>
            TakenOutside(a, st, evs[..m], id) && (Silent(evs[m], id) ==> !In(a, Run(a, st, evs[..m]).0, id))
  {
    hide Run, In, Silent;
    var m := |evs| - 1;
    assert forall n :: 0 <= n < m ==> evs[..m][n] == evs[n] && evs[..m][..n] == evs[..n];
  }

  /** An object that is inside came in by its last crossing, or was inside all the time. */
  predicate CameIn(start: bool, c: seq<Detect>) {
    if c == [] then start else c[|c| - 1].Enter?
  }

  /** In every run of an unfiltered fence: the enters and exits of an object strictly alternate and lead from the
      side it started on to the side it is on, if and only if it was outside whenever it was deleted or replaced
      by a string. */
  lemma {:induction false} CrossingsAlternateIff(a: Area, st: State, evs: seq<Event>, id: Str)
    requires a.detect.None?
    ensures var (end, tr) := Run(a, st, evs);
            && (Lead(In(a, st, id), Crossings(tr, id), In(a, end, id)) <==> TakenOutside(a, st, evs, id))
            && (In(a, end, id) ==> CameIn(In(a, st, id), Crossings(tr, id)))
    decreases |evs|
  {
    hide Step, Crossings, In, TakenOutside, Silent, Lead, CameIn;
    if evs == [] {
      NoCrossings(id);
      NothingTaken(a, st, id);
      NoTurns(In(a, st, id));
    } else {
      var n := |evs| - 1;
      CrossingsAlternateIff(a, st, evs[..n], id);
      TakenSnoc(a, st, evs, id);
      var (mid, tr) := Run(a, st, evs[..n]);
      var (end, msgs) := Step(a, mid, evs[n]);
      StepCrosses(a, mid, evs[n], id);
      CrossingsAppend(tr, msgs, id);
      LeadStep(In(a, st, id), Crossings(tr, id), Crossings(msgs, id),
               In(a, mid, id), In(a, end, id), Silent(evs[n], id));
    }
  }

  lemma NoTurns(start: bool)
    ensures Lead(start, [], start) && (start ==> CameIn(start, []))
  {}

  /** One more event: a report of a change of sides is the next turn, a silent one breaks the series exactly if
      the object was inside, and no later event mends it. */
  lemma LeadStep(start: bool, c: seq<Detect>, more: seq<Detect>, mid: bool, end: bool, silent: bool)
    requires mid ==> CameIn(start, c)
    requires if silent then more == [] && !end
             else more == if end == mid then [] else if end then [Enter] else [Exit]
    ensures Lead(start, c + more, end) <==> Lead(start, c, mid) && (silent ==> !mid)
    ensures end ==> CameIn(start, c + more)
  {
    if more == [] {
      assert c + more == c;
    } else {
      assert (c + more)[..|c + more| - 1] == c;
    }
  }

  lemma NothingTaken(a: Area, st: State, id: Str)
    ensures TakenOutside(a, st, [], id)
  {}

  lemma NoCrossings(id: Str)
    ensures Crossings([], id) == []
  {}

  /** What leading by turns means: neighbours differ, and the first leaves the side it starts on. */
  lemma {:induction false} LeadAlternates(start: bool, c: seq<Detect>, end: bool)
    requires Lead(start, c, end)
    ensures forall i :: 0 <= i < |c| ==> c[i] == Enter || c[i] == Exit
    ensures forall i :: 0 <= i < |c| - 1 ==> c[i] != c[i + 1]
    ensures c != [] ==> c[0] == if start then Exit else Enter
    decreases |c|
  {
    if c != [] {
      var n := |c| - 1;
      LeadAlternates(start, c[..n], !end);
      forall i | 0 <= i < n ensures c[i] != c[i + 1] {
        if i + 1 == n { assert c[i] == c[..n][n - 1]; } else { assert c[..n][i] != c[..n][i + 1]; }
      }
      if n > 0 { assert c[0] == c[..n][0]; }
    }
  }

  /** Deletion breaks the pattern: an object that enters, is deleted and enters again has two enters in a row. */
  lemma DeleteBreaksAlternation(a: Area, id: Str, obj: Object)
    requires a.detect.None? && obj.geometry && a.inside(a.cmd, obj)
    ensures var (_, tr) := Run(a, State(map[], map[], 0), [Set(id, obj), Del(id), Set(id, obj)]);
            Crossings(tr, id) == [Enter, Enter]
  {
    hide Crossings;
    var s0 := State(map[], map[], 0);
    var e: seq<Event> := [Set(id, obj), Del(id), Set(id, obj)];
    var (s1, m1) := Step(a, s0, e[0]);
    var (s2, m2) := Step(a, s1, e[1]);
    var (s3, m3) := Step(a, s2, e[2]);
    assert e[..2][..1] == e[..1] && e[..1][..0] == [];
    assert Run(a, s0, e[..1]) == (s1, [] + m1);
    assert Run(a, s0, e[..2]) == (s2, [] + m1 + m2);
    assert Run(a, s0, e) == (s3, [] + m1 + m2 + m3);
    StepCrosses(a, s0, e[0], id);
    StepCrosses(a, s2, e[2], id);
    CrossingsAppend([], m1, id);
    CrossingsAppend([] + m1, m2, id);
    CrossingsAppend([] + m1 + m2, m3, id);
    DeletedIsNoCrossing(id);
  }

  lemma DeletedIsNoCrossing(id: Str)
    ensures Crossings([Deleted(id)], id) == [] && Crossings([], id) == []
  {
    assert [Deleted(id)][..0] == [];
  }

  // ----- what is reported

  /** The kinds of the reports of one object, in order. */
  function Kinds(tr: seq<Msg>, id: Str): seq<Detect> {
    if tr == [] then []
    else
      var m := tr[|tr| - 1];
      Kinds(tr[..|tr| - 1], id) + if m.Msg? && m.id == id then [m.detect] else []
  }

  lemma {:induction false} KindsAppend(tr: seq<Msg>, more: seq<Msg>, id: Str)
    ensures Kinds(tr + more, id) == Kinds(tr, id) + Kinds(more, id)
    decreases |more|
  {
    if more == [] {
      assert tr + more == tr;
    } else {
      var m := |more| - 1;
      KindsAppend(tr, more[..m], id);
      assert (tr + more)[..|tr + more| - 1] == tr + more[..m];
    }
  }

  lemma KindsOfFew(x: Msg, y: Msg, id: Str)
    ensures Kinds([], id) == []
    ensures Kinds([x], id) == if x.Msg? && x.id == id then [x.detect] else []
    ensures Kinds([x, y], id) == Kinds([x], id) + if y.Msg? && y.id == id then [y.detect] else []
  {
    assert [x][..0] == [] && [x, y][..1] == [x];
  }

  /** What a move from one side to a side is reported as; `line` if the way crosses the fence. */
  function Sides(was: bool, now: bool, line: bool): seq<Detect> {
    if was != now then if now then [Enter, Inside] else [Exit, Outside]
    else if now then [Inside]
    else if line then [Cross, Outside]
    else [Outside]
  }

  /** What an unfiltered fence reports of an object, by the side it was on and the side it is on. */
  lemma StepReports(a: Area, st: State, ev: Event, id: Str)
    requires a.detect.None?
    ensures var (st', msgs) := Step(a, st, ev);
            Kinds(msgs, id) ==
              if ev.id != id then []
              else if ev.Set? && ev.obj.geometry then
                Sides(In(a, st, id), In(a, st', id),
                      id in st.objs && a.crosses(if a.cmd == Within then Intersects else a.cmd, st.objs[id], ev.obj))
              else if ev.Fset? && !a.nofields && id in st.objs && st.objs[id].geometry then
                if In(a, st, id) then [Inside] else [Outside]
              else []
  {
    hide Kinds, GroupFor, Regrouped;
    StepObjs(a, st, ev);
    var (st', msgs) := Step(a, st, ev);
    if msgs == [] {
      KindsOfFew(Deleted(id), Deleted(id), id);
    } else {
      KindsOfFew(msgs[0], msgs[|msgs| - 1], id);
      assert msgs == if |msgs| == 1 then [msgs[0]] else [msgs[0], msgs[1]];
    }
  }

  /** The objects after an event, whatever is reported of it. */
  lemma StepObjs(a: Area, st: State, ev: Event)
    ensures Step(a, st, ev).0.objs ==
            match ev
            case Set(id, obj) => st.objs[id := obj]
            case Fset(_) => st.objs
            case Del(id) => st.objs - {id}
  {
    hide Detected, Reported, GroupFor, Reports;
  }

  /** A deletion is reported exactly if there was a geometry to delete. */
  lemma DeletionReported(a: Area, st: State, ev: Event, id: Str)
    ensures Deleted(id) in Step(a, st, ev).1 <==> ev == Del(id) && id in st.objs && st.objs[id].geometry
  {
    hide Detected, Reported, GroupFor, Regrouped;
  }

  function Selected(ds: seq<Detect>, list: set<Detect>): seq<Detect> {
    if ds == [] then [] else (if ds[0] in list then [ds[0]] else []) + Selected(ds[1..], list)
  }

  lemma SelectedFew(x: Detect, y: Detect, list: set<Detect>)
    ensures Selected([], list) == []
    ensures Selected([x], list) == if x in list then [x] else []
    ensures Selected([x, y], list) == (if x in list then [x] else []) + if y in list then [y] else []
  {
    assert [x][1..] == [] && [x, y][1..] == [y] && [y][1..] == [];
  }

  /** With a detect list the reports are the wanted ones of the unfiltered fence, except that a crossing that is not
      wanted takes its outside report with it. */
  lemma DetectListSelects(a: Area, st: State, ev: Event, id: Str)
    requires a.detect.Some?
    ensures var list, all := a.detect.value, Kinds(Step(a.(detect := None), st, ev).1, id);
            Kinds(Step(a, st, ev).1, id) == if [Cross] <= all && Cross !in list then [] else Selected(all, list)
  {
    hide Step, Kinds, KindsFor, Selected;
    var u := a.(detect := None);
    OneReport(a, st, ev, id);
    OneReport(u, st, ev, id);
    NothingSelected(a.detect.value);
    if ev.id == id && (ev.Set? || (ev.Fset? && !a.nofields && id in st.objs)) {
      var was := if ev.Set? && id in st.objs then Some(st.objs[id]) else None;
      KindsForSelects(a, was, if ev.Set? then ev.obj else st.objs[id], ev.Fset?);
    }
  }

  lemma NothingSelected(list: set<Detect>)
    ensures Selected([], list) == []
  {}

  lemma KindsForSelects(a: Area, was: Option<Object>, obj: Object, fset: bool)
    requires a.detect.Some?
    ensures var list, all := a.detect.value, KindsFor(a.(detect := None), was, obj, fset);
            KindsFor(a, was, obj, fset) == if [Cross] <= all && Cross !in list then [] else Selected(all, list)
  {
    hide Detected, Selected;
    assert Detected(a.(detect := None), was, obj, fset) == Detected(a, was, obj, fset) by {
      SameDetected(a, was, obj, fset);
    }
    var ks := KindsFor(a.(detect := None), was, obj, fset);
    if ks == [] {
      NothingSelected(a.detect.value);
    } else {
      SelectedFew(ks[0], ks[|ks| - 1], a.detect.value);
      assert ks == if |ks| == 1 then [ks[0]] else [ks[0], ks[1]];
    }
  }

  lemma SameDetected(a: Area, was: Option<Object>, obj: Object, fset: bool)
    ensures Detected(a.(detect := None), was, obj, fset) == Detected(a, was, obj, fset)
  {}

  /** The kinds of one event's reports, from the event it is detected as. */
  lemma OneReport(a: Area, st: State, ev: Event, id: Str)
    ensures var was := if ev.Set? && id in st.objs then Some(st.objs[id]) else None;
            Kinds(Step(a, st, ev).1, id) ==
              if ev.id != id || ev.Del? || (ev.Fset? && (a.nofields || id !in st.objs)) then []
              else KindsFor(a, was, if ev.Set? then ev.obj else st.objs[id], ev.Fset?)
  {
    hide Kinds, GroupFor, Regrouped, Detected;
    var msgs := Step(a, st, ev).1;
    if msgs == [] {
      KindsOfFew(Deleted(id), Deleted(id), id);
    } else {
      KindsOfFew(msgs[0], msgs[|msgs| - 1], id);
      assert msgs == if |msgs| == 1 then [msgs[0]] else [msgs[0], msgs[1]];
    }
  }

  function KindsFor(a: Area, was: Option<Object>, obj: Object, fset: bool): seq<Detect> {
    var d := Reported(a, Detected(a, was, obj, fset));
    if !obj.geometry || d.None? then []
    else
      [d.value]
      + (if d.value.Enter? && Wanted(a, Inside) then [Inside] else [])
      + (if (d.value.Exit? || d.value.Cross?) && Wanted(a, Outside) then [Outside] else [])
  }

  /** The side an object was last reported on. */
  function LastSide(tr: seq<Msg>, id: Str): Option<Detect> {
    var ks := Kinds(tr, id);
    if ks == [] then None else Some(ks[|ks| - 1])
  }

  /** Over a whole run of an unfiltered fence: what was last reported of an object that is there is the side it is
      on. */
  lemma {:induction false} LastReportIsSide(a: Area, st: State, evs: seq<Event>, id: Str)
    requires a.detect.None?
    ensures var (end, tr) := Run(a, st, evs);
            id in end.objs && end.objs[id].geometry && LastSide(tr, id).Some? ==>
              LastSide(tr, id).value == if In(a, end, id) then Inside else Outside
    decreases |evs|
  {
    hide Step, Kinds;
    if evs == [] {
      KindsOfFew(Deleted(id), Deleted(id), id);
    } else {
      var n := |evs| - 1;
      LastReportIsSide(a, st, evs[..n], id);
      var (mid, tr) := Run(a, st, evs[..n]);
      var (end, msgs) := Step(a, mid, evs[n]);
      StepReports(a, mid, evs[n], id);
      StepObjs(a, mid, evs[n]);
      KindsAppend(tr, msgs, id);
    }
  }

  // ----- groups

  /** The second report of a crossing. */
  predicate FollowsCross(before: Msg, m: Msg) {
    m.Msg? && m.detect.Outside? && before == Msg(m.id, m.fset, m.group, Cross)
  }

  /** The group an object is in, read off the trace: an enter opens one, a crossing ends it, and any other report
      outside a group opens one too; `base` holds the groups at the start. */
  function Holding(base: map<Str, nat>, tr: seq<Msg>, id: Str): Option<nat> {
    if tr == [] then if id in base then Some(base[id]) else None
    else
      var n := |tr| - 1;
      var m := tr[n];
      if m.Deleted? || m.id != id || (n > 0 && FollowsCross(tr[n - 1], m)) then Holding(base, tr[..n], id)
      else if m.detect.Cross? then None
      else Some(m.group)
  }

  ghost predicate Unused(base: map<Str, nat>, tr: seq<Msg>, group: nat) {
    && (forall i :: 0 <= i < |tr| && tr[i].Msg? ==> tr[i].group != group)
    && (forall id :: id in base ==> base[id] != group)
  }

  /** Which group a report carries: an enter and a crossing a new one, any other that of its object, or a new one
      if it is in none. */
  ghost predicate CarriesAt(base: map<Str, nat>, tr: seq<Msg>, j: nat)
    requires j < |tr|
  {
    var m, h := tr[j], Holding(base, tr[..j], tr[j].id);
    m.Msg? && !(j > 0 && FollowsCross(tr[j - 1], m)) ==>
      if m.detect.Enter? || m.detect.Cross? || h.None? then Unused(base, tr[..j], m.group) else m.group == h.value
  }

  ghost predicate Carries(base: map<Str, nat>, tr: seq<Msg>) {
    forall j :: 0 <= j < |tr| ==> CarriesAt(base, tr, j)
  }

  ghost predicate AllBelow(base: map<Str, nat>, tr: seq<Msg>, n: nat) {
    && (forall i :: 0 <= i < |tr| && tr[i].Msg? ==> tr[i].group < n)
    && (forall id :: id in base ==> base[id] < n)
  }

  /** The group table is what the trace says, and ids are handed out once. */
  ghost predicate InStep(base: map<Str, nat>, st: State, tr: seq<Msg>) {
    && (forall id :: Holding(base, tr, id) == if id in st.groups then Some(st.groups[id]) else None)
    && AllBelow(base, tr, st.nextId) && (forall id :: id in st.groups ==> st.groups[id] < st.nextId)
  }

  lemma HoldingSnoc(base: map<Str, nat>, tr: seq<Msg>, m: Msg, id: Str)
    ensures Holding(base, tr + [m], id) ==
            if m.Deleted? || m.id != id || (tr != [] && FollowsCross(tr[|tr| - 1], m)) then Holding(base, tr, id)
            else if m.detect.Cross? then None
            else Some(m.group)
  {
    assert (tr + [m])[..|tr|] == tr;
  }

  lemma CarriesSnoc(base: map<Str, nat>, tr: seq<Msg>, m: Msg)
    requires Carries(base, tr)
    requires m.Msg? && !(tr != [] && FollowsCross(tr[|tr| - 1], m)) ==>
               var h := Holding(base, tr, m.id);
               if m.detect.Enter? || m.detect.Cross? || h.None? then Unused(base, tr, m.group) else m.group == h.value
    ensures Carries(base, tr + [m])
  {
    hide Holding, Unused;
    var all := tr + [m];
    forall j | 0 <= j < |all| ensures CarriesAt(base, all, j) {
      assert all[..j] == tr[..j];
      if j < |tr| { assert CarriesAt(base, tr, j); } else { assert tr[..j] == tr; }
    }
  }

  lemma BelowIsUnused(base: map<Str, nat>, tr: seq<Msg>, n: nat)
    requires AllBelow(base, tr, n)
    ensures Unused(base, tr, n)
  {}

  /** After a crossing the object is in no group. */
  lemma HeldIsNotCross(base: map<Str, nat>, tr: seq<Msg>, m: Msg)
    requires tr != [] && FollowsCross(tr[|tr| - 1], m)
    ensures Holding(base, tr, m.id) == None
  {}

  /** A report under the group the table yields keeps the trace and the table in step. */
  lemma ReportCarries(base: map<Str, nat>, st: State, tr: seq<Msg>, id: Str, fset: bool, d: Detect)
    requires InStep(base, st, tr) && Carries(base, tr)
    ensures var m := Msg(id, fset, GroupFor(st, id, d), d);
            InStep(base, Regrouped(st, id, d), tr + [m]) && Carries(base, tr + [m])
  {
    hide Holding;
    var m := Msg(id, fset, GroupFor(st, id, d), d);
    BelowIsUnused(base, tr, st.nextId);
    assert !(tr != [] && FollowsCross(tr[|tr| - 1], m)) by {
      if tr != [] && FollowsCross(tr[|tr| - 1], m) { HeldIsNotCross(base, tr, m); }
    }
    hide AllBelow, Unused;
    forall x ensures Holding(base, tr + [m], x) ==
            if m.id != x then Holding(base, tr, x) else if d.Cross? then None else Some(m.group) {
      HoldingSnoc(base, tr, m, x);
    }
    CarriesSnoc(base, tr, m);
    BelowSnoc(base, tr, m, st.nextId, Regrouped(st, id, d).nextId);
  }

  lemma BelowSnoc(base: map<Str, nat>, tr: seq<Msg>, m: Msg, n: nat, n': nat)
    requires AllBelow(base, tr, n) && n <= n' && (m.Msg? ==> m.group < n')
    ensures AllBelow(base, tr + [m], n')
  {}

  /** The second report of an enter, exit or crossing, under the same group. */
  lemma FollowUpCarries(base: map<Str, nat>, st: State, tr: seq<Msg>, first: Msg, d: Detect)
    requires InStep(base, st, tr + [first]) && Carries(base, tr + [first]) && first.Msg?
    requires d.Inside? || d.Outside?
    requires if first.detect.Cross? then d.Outside? else first.id in st.groups && st.groups[first.id] == first.group
    ensures var m := Msg(first.id, first.fset, first.group, d);
            InStep(base, st, tr + [first] + [m]) && Carries(base, tr + [first] + [m])
  {
    hide Holding;
    var before, m := tr + [first], Msg(first.id, first.fset, first.group, d);
    assert before[|before| - 1] == first;
    assert m.group < st.nextId;
    hide AllBelow, Unused;
    forall x ensures Holding(base, before + [m], x) == Holding(base, before, x) { HoldingSnoc(base, before, m, x); }
    CarriesSnoc(base, before, m);
    BelowSnoc(base, before, m, st.nextId, st.nextId);
  }

  lemma ChangedCarries(
    a: Area, base: map<Str, nat>, st: State, id: Str, was: Option<Object>, obj: Object, fset: bool, tr: seq<Msg>)
    requires InStep(base, st, tr) && Carries(base, tr)
    ensures var (st', msgs) := Changed(a, st, id, was, obj, fset);
            InStep(base, st', tr + msgs) && Carries(base, tr + msgs)
  {
    hide InStep, Carries, Detected;
    var r := Reported(a, Detected(a, was, obj, fset));
    if !obj.geometry || r.None? {
      assert tr + [] == tr;
    } else {
      var d := r.value;
      var group, st' := GroupFor(st, id, d), Regrouped(st, id, d);
      var first := Msg(id, fset, group, d);
      var msgs := Reports(a, id, fset, group, d);
      ReportCarries(base, st, tr, id, fset, d);
      if |msgs| == 1 {
        assert msgs == [first];
      } else {
        var second := msgs[1];
        assert msgs == [first, second];
        assert tr + msgs == tr + [first] + [second];
        FollowUpCarries(base, st', tr, first, second.detect);
      }
    }
  }

  lemma StepCarries(a: Area, base: map<Str, nat>, st: State, ev: Event, tr: seq<Msg>)
    requires InStep(base, st, tr) && Carries(base, tr)
    ensures var (st', msgs) := Step(a, st, ev); InStep(base, st', tr + msgs) && Carries(base, tr + msgs)
  {
    hide Changed, Carries, Holding;
    assert tr + [] == tr;
    match ev
    case Del(id) =>
      var m: Msg := Deleted(id);
      forall x ensures Holding(base, tr + [m], x) == Holding(base, tr, x) { HoldingSnoc(base, tr, m, x); }
      CarriesSnoc(base, tr, m);
    case Set(id, obj) =>
      var was := if id in st.objs then Some(st.objs[id]) else None;
      ChangedCarries(a, base, st.(objs := st.objs[id := obj]), id, was, obj, false, tr);
    case Fset(id) =>
      if id in st.objs { ChangedCarries(a, base, st, id, None, st.objs[id], true, tr); }
  }

  /** In every run, filtered or not: each report carries the group the trace gives its object, and the table holds
      that. */
  lemma {:induction false} GroupsCarry(a: Area, st: State, evs: seq<Event>)
    requires forall id :: id in st.groups ==> st.groups[id] < st.nextId
    ensures var (end, tr) := Run(a, st, evs); InStep(st.groups, end, tr) && Carries(st.groups, tr)
    decreases |evs|
  {
    if evs == [] {
      NothingCarries(st);
    } else {
      hide Step, InStep, Carries;
      var n := |evs| - 1;
      GroupsCarry(a, st, evs[..n]);
      var (mid, tr) := Run(a, st, evs[..n]);
      StepCarries(a, st.groups, mid, evs[n], tr);
    }
  }

  lemma NothingCarries(st: State)
    requires forall id :: id in st.groups ==> st.groups[id] < st.nextId
    ensures InStep(st.groups, st, []) && Carries(st.groups, [])
  {}

  /** The reports of an event are about its object and command. */
  lemma ReportsNameEvent(a: Area, st: State, ev: Event)
    ensures forall m :: m in Step(a, st, ev).1 ==> m.id == ev.id && (m.Msg? ==> m.fset == ev.Fset?)
  {
    hide Detected, Reported, GroupFor, Regrouped;
  }

  /** The reports of one event carry one group. */
  lemma OneGroup(a: Area, st: State, ev: Event, i: nat, j: nat)
    requires i < |Step(a, st, ev).1| && j < |Step(a, st, ev).1|
    requires Step(a, st, ev).1[i].Msg? && Step(a, st, ev).1[j].Msg?
    ensures Step(a, st, ev).1[i].group == Step(a, st, ev).1[j].group
  {
    hide Detected, Reported, GroupFor, Regrouped;
  }

  /** By position: an enter at i, no enter or crossing of that object between i and j. */
  lemma {:induction false} HoldingIsEnter(base: map<Str, nat>, tr: seq<Msg>, i: nat, j: nat)
    requires Carries(base, tr) && i < j <= |tr| && tr[i].Msg? && tr[i].detect.Enter?
    requires forall k :: i < k < j && tr[k].Msg? && tr[k].id == tr[i].id ==>
                           !tr[k].detect.Enter? && !tr[k].detect.Cross?
    ensures Holding(base, tr[..j], tr[i].id) == Some(tr[i].group)
    decreases j
  {
    hide Holding, Unused;
    var k := j - 1;
    assert tr[..j] == tr[..k] + [tr[k]];
    HoldingSnoc(base, tr[..k], tr[k], tr[i].id);
    if k > i {
      HoldingIsEnter(base, tr, i, k);
      assert CarriesAt(base, tr, k);
      assert tr[..k][k - 1] == tr[k - 1];
    }
  }

  lemma SameGroupSinceEnter(a: Area, st: State, evs: seq<Event>, i: nat, j: nat)
    requires (forall id :: id in st.groups ==> st.groups[id] < st.nextId) && i < j < |Run(a, st, evs).1|
    requires var tr := Run(a, st, evs).1;
             && tr[i].Msg? && tr[i].detect.Enter? && tr[j].Msg? && tr[j].id == tr[i].id
             && forall k :: i < k <= j && tr[k].Msg? && tr[k].id == tr[i].id ==>
                              !tr[k].detect.Enter? && !tr[k].detect.Cross?
    ensures Run(a, st, evs).1[j].group == Run(a, st, evs).1[i].group
  {
    hide Run, Holding, InStep, Unused;
    var tr := Run(a, st, evs).1;
    GroupsCarry(a, st, evs);
    HoldingIsEnter(st.groups, tr, i, j);
    assert CarriesAt(st.groups, tr, j);
  }
}
