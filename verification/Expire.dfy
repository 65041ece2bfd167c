/** Deadlines and the background goroutine that purges expired objects, beside commands and the log shrinker.
    A step is one critical section: most hold the server lock, the expiry list has a lock of its own. */
module Expire {
  import opened Bytes
  import opened Dataset
  import opened Replay
  import opened Shrink
  import opened GlobRange
  import opened Server

  type Time = int

  datatype ExItem = ExItem(key: Str, id: Str, at: Time)

  type Expires = map<Str, map<Str, Time>>

  function Deadline(e: Expires, key: Str, id: Str): Option<Time> {
    if key in e && id in e[key] then Some(e[key][id]) else None
  }

  /** hasExpired: there is a deadline and it lies before `now`. */
  predicate Expired(e: Expires, key: Str, id: Str, now: Time) {
    Deadline(e, key, id).Some? && Deadline(e, key, id).value < now
  }

  // ----- what every step keeps

  /** Only existing objects have a deadline. */
  ghost predicate OnlyLive(d: Data, e: Expires) {
    forall key, id :: Deadline(e, key, id).Some? ==> Lookup(d, key, id).Some?
  }

  /** Every deadline has its entry in the expiry list, on the purge list, or about to be appended. */
  ghost predicate Tracked(e: Expires, exlist: seq<ExItem>, purge: seq<ExItem>, adding: Option<ExItem>) {
    forall key, id :: Deadline(e, key, id).Some? ==>
                        var x := ExItem(key, id, Deadline(e, key, id).value);
                        x in exlist || x in purge || adding == Some(x)
  }

  ghost predicate AllBefore(xs: seq<ExItem>, now: Time) {
    forall x :: x in xs ==> x.at < now
  }

  // ----- commands

  /** The objects whose deadline a data command clears. */
  predicate Clears(d: Data, c: Cmd, key: Str, id: Str) {
    match c
    case Set(k, i, _, cond, _) =>
      k == key && i == id
      && !(cond.IfPresent? && Lookup(d, key, id).None?) && !(cond.IfAbsent? && Lookup(d, key, id).Some?)
    case Fset(_, _, _, _, _) => false
    case Del(k, i) => k == key && i == id
    case Pdel(k, pattern) => k == key && Lookup(d, key, id).Some? && Pdels(pattern, id)
    case Drop(k) => k == key && k in d
    case FlushDb => true
  }

  ghost predicate ClearedBy(e: Expires, f: Expires, d: Data, c: Cmd) {
    forall key, id :: Deadline(f, key, id) == if Clears(d, c, key, id) then None else Deadline(e, key, id)
  }

  lemma OnlyLiveKept(d: Data, c: Cmd, out: Output, e: Expires, f: Expires)
    requires OnlyLive(d, e) && ClearedBy(e, f, d, c)
    ensures OnlyLive(Exec(d, c, out).data, f)
  {
    hide Exec, Pdels;
    forall key, id | Deadline(f, key, id).Some? ensures Lookup(Exec(d, c, out).data, key, id).Some? {
      assert !Clears(d, c, key, id) && Lookup(d, key, id).Some?;
      ExecIsPointwise(d, c, out, key, id);
    }
  }

  lemma TrackedKept(
    e: Expires, f: Expires, exlist: seq<ExItem>, more: seq<ExItem>, purge: seq<ExItem>, adding: Option<ExItem>)
    requires Tracked(e, exlist, purge, adding)
    requires forall key, id :: Deadline(f, key, id).Some? ==> Deadline(f, key, id) == Deadline(e, key, id)
    requires (forall key, id :: Deadline(f, key, id).None?) || forall x :: x in exlist ==> x in more
    ensures Tracked(f, more, purge, adding)
  {
    hide Deadline;
  }

  /** A new deadline is tracked by the entry about to be appended. */
  lemma TrackedAfterMark(
    e: Expires, f: Expires, exlist: seq<ExItem>, purge: seq<ExItem>, key: Str, id: Str, at: Time)
    requires Tracked(e, exlist, purge, None)
    requires forall k, i :: Deadline(f, k, i) == if k == key && i == id then Some(at) else Deadline(e, k, i)
    ensures Tracked(f, exlist, purge, Some(ExItem(key, id, at)))
  {
    hide Deadline;
  }

  /** Working off the head of the purge list: its own deadline has passed, so either it is still current and
      the object is deleted, or another entry tracks the current deadline. */
  lemma TrackedAfterPurge(
    e: Expires, f: Expires, exlist: seq<ExItem>, x: ExItem, rest: seq<ExItem>, adding: Option<ExItem>, now: Time)
    requires Tracked(e, exlist, [x] + rest, adding) && x.at < now
    requires forall k, i :: Deadline(f, k, i) ==
                              if k == x.key && i == x.id && Expired(e, k, i, now) then None else Deadline(e, k, i)
    ensures Tracked(f, exlist, rest, adding)
  {
    hide Deadline;
    forall key, id | Deadline(f, key, id).Some?
      ensures var y := ExItem(key, id, Deadline(f, key, id).value); y in exlist || y in rest || adding == Some(y)
    {
      assert Deadline(f, key, id) == Deadline(e, key, id);
      assert ExItem(key, id, Deadline(f, key, id).value) != x;
    }
  }

  // ----- the object

  /** `ex` is the EX argument of a SET, in the clock's unit. */
  datatype Request =
    | Plain(cmd: Cmd, ex: Option<Time>)
    | Expire(key: Str, id: Str, value: Time)
    | Persist(key: Str, id: Str)

  /** EXPIRE and PERSIST take an object that exists and has not expired. */
  predicate Accepts(req: Request, d: Data, e: Expires, now: Time)
    requires !req.Plain?
  {
    Lookup(d, req.key, req.id).Some? && !Expired(e, req.key, req.id, now)
  }

  /** The deadline of an object after a request: the one the request sets or clears, else the one before. */
  function NewDeadline(req: Request, d: Data, e: Expires, now: Time, key: Str, id: Str): Option<Time> {
    match req
    case Plain(cmd, ex) =>
      if !Clears(d, cmd, key, id) then Deadline(e, key, id)
      else if cmd.Set? && ex.Some? then Some(now + ex.value)
      else None
    case Expire(k, i, value) =>
      if k == key && i == id && Accepts(req, d, e, now) then Some(now + value) else Deadline(e, key, id)
    case Persist(k, i) =>
      if k == key && i == id && Accepts(req, d, e, now) then None else Deadline(e, key, id)
  }

  /** What changes a deadline. A SET that takes effect leaves its object the deadline it brings, or none; EXPIRE and
      PERSIST on an object that is there and not expired set and clear it; an object that is removed loses it; and
      nothing else changes one. */
  lemma DeadlineLaw(req: Request, d: Data, e: Expires, now: Time, out: Output, key: Str, id: Str)
    requires OnlyLive(d, e)
    ensures NewDeadline(req, d, e, now, key, id) ==
            match req
            case Plain(cmd, ex) =>
              if cmd.Set? && cmd.key == key && cmd.id == id && Updates(d, cmd) then
                if ex == None then None else Some(now + ex.value)
              else if Lookup(Exec(d, cmd, out).data, key, id) == None then None
              else Deadline(e, key, id)
            case Expire(k, i, value) =>
              if k == key && i == id && Lookup(d, key, id) != None && !Expired(e, key, id, now) then Some(now + value)
              else Deadline(e, key, id)
            case Persist(k, i) =>
              if k == key && i == id && Lookup(d, key, id) != None && !Expired(e, key, id, now) then None
              else Deadline(e, key, id)
  {
    hide Exec, Pdels, Deadline, Expired;
    if req.Plain? { ExecIsPointwise(d, req.cmd, out, key, id); }
  }

  datatype Step =
    | Handle(req: Request, out: Output, wait: nat)
    | Append
    | Collect(wait: nat, rand: nat -> nat)
    | Purge(waits: nat -> nat, out: Output)
    | Shrinking(e: Event)

  class Expirer {
    const server: Controller
    var expires: Expires
    var exlist: seq<ExItem>

    /** The entry a command has marked but not yet appended; the command holds the server lock meanwhile. */
    var adding: Option<ExItem>

    /** The list the background goroutine took off `exlist` and has not worked off. */
    var purgelist: seq<ExItem>

    /** The last reading of the clock, which does not run backwards. */
    var clock: Time

    ghost predicate Valid()
      reads this, server
    {
      && OnlyLive(server.cols, expires)
      && Tracked(expires, exlist, purgelist, adding)
      && AllBefore(purgelist, clock)
    }

    constructor ()
      ensures Valid() && fresh(server) && server.View() == Initial
    {
      server := new Controller();
      expires, exlist, adding, purgelist, clock := map[], [], None, [], 0;
    }

    // ----- deadlines

    method ClearIDExpires(key: Str, id: Str) returns (cleared: bool)
      modifies `expires
      ensures forall k, i :: Deadline(expires, k, i) ==
                               if k == key && i == id then None else old(Deadline(expires, k, i))
      ensures cleared <==> old(Deadline(expires, key, id)).Some?
    {
      if key !in expires { return false; }
      var m := expires[key];
      if id !in m { return false; }
      expires := expires[key := m - {id}];
      return true;
    }

    /** expireAt up to the append: the deadline is set, the list entry still to be added. */
    method ExpireAt(key: Str, id: Str, at: Time)
      modifies `expires, `adding
      ensures forall k, i :: Deadline(expires, k, i) ==
                               if k == key && i == id then Some(at) else old(Deadline(expires, k, i))
      ensures adding == Some(ExItem(key, id, at))
    {
      var m := if key in expires then expires[key] else map[];
      expires := expires[key := m[id := at]];
      adding := Some(ExItem(key, id, at));
    }

    /** The append of expireAt, under the list's own lock. */
    method AppendExpire()
      requires Valid() && adding.Some?
      modifies `exlist, `adding
      ensures Valid() && adding.None?
      ensures exlist == old(exlist) + [old(adding).value]
    {
      exlist := exlist + [adding.value];
      adding := None;
    }

    // ----- commands

    /** The deadlines a data command clears, command by command. */
    method ClearFor(c: Cmd, before: Data)
      modifies `expires, `exlist
      ensures ClearedBy(old(expires), expires, before, c)
      ensures exlist == if c.FlushDb? then [] else old(exlist)
    {
      hide Pdels;
      match c
      case Set(key, id, _, cond, _) =>
        var present := key in before && id in before[key];
        if !(cond.IfPresent? && !present) && !(cond.IfAbsent? && present) {
          var _ := ClearIDExpires(key, id);
        }
      case Fset(_, _, _, _, _) =>
      case Del(key, id) =>
        var _ := ClearIDExpires(key, id);
      case Pdel(key, pattern) =>
        if key in before { ClearHits(key, before[key], pattern); }
      case Drop(key) =>
        if key in before { expires := expires - {key}; }
      case FlushDb =>
        exlist := [];
        expires := map[];
    }

    method ClearHits(key: Str, col: Col, pattern: Str)
      modifies `expires
      ensures forall k, i :: Deadline(expires, k, i) ==
                if k == key && i in col && Pdels(pattern, i) then None else old(Deadline(expires, k, i))
    {
      hide Pdels;
      var children := CollectHits(col, pattern);
      for n := 0 to |children|
        invariant forall k, i :: Deadline(expires, k, i) ==
                    if k == key && i in children[..n] then None else old(Deadline(expires, k, i))
      {
        assert children[..n + 1] == children[..n] + [children[n]];
        var _ := ClearIDExpires(key, children[n]);
      }
      assert forall i :: i in children <==> i in Elements(children);
      assert children[..|children|] == children;
    }

    /** A request under the server lock. SET with EX, and EXPIRE on an object that has not expired, leave the
        append of the list entry to the next step. */
    method HandleRequest(req: Request, out: Output, wait: nat) returns (err: Option<Error>)
      requires Valid() && adding.None?
      modifies this, server
      ensures Valid() && purgelist == old(purgelist) && clock == old(clock) + wait
      ensures req.Plain? ==> server.View() == ClientStep(old(server.View()), req.cmd, out)
      ensures !req.Plain? ==> server.View() == old(server.View())
      ensures forall k, i :: Deadline(expires, k, i) == NewDeadline(req, old(server.cols), old(expires), clock, k, i)
      ensures req.Plain? ==> err == Exec(old(server.cols), req.cmd, out).err
      ensures req.Expire? ==> (err.Some? <==> out == Json && !Accepts(req, old(server.cols), old(expires), clock))
      ensures req.Persist? ==> (err.Some? <==> out != Resp && !Accepts(req, old(server.cols), old(expires), clock))
    {
      hide Exec, Deadline, OnlyLive, Clears;
      clock := clock + wait;
      err := None;
      match req
      case Plain(cmd, ex) =>
        ghost var e, xs := expires, exlist;
        var before := server.cols;
        err := server.HandleInputCommand(cmd, out);
        ClearFor(cmd, before);
        OnlyLiveKept(before, cmd, out, e, expires);
        ClearedTracked(e, expires, before, cmd, xs, exlist, purgelist);
        if cmd.Set? { SetClearsOne(before, cmd); }
        if cmd.Set? && Clears(before, cmd, cmd.key, cmd.id) && ex.Some? {
          SetMakesLive(before, cmd, out);
          Mark(cmd.key, cmd.id, clock + ex.value);
        }
      case Expire(key, id, value) =>
        if key in server.cols && id in server.cols[key] && !Expired(expires, key, id, clock) {
          Mark(key, id, clock + value);
        } else if out == Json {
          err := Some(IdNotFound);
        }
      case Persist(key, id) =>
        if key in server.cols && id in server.cols[key] && !Expired(expires, key, id, clock) {
          ghost var e := expires;
          var _ := ClearIDExpires(key, id);
          TrackedKept(e, expires, exlist, exlist, purgelist, adding);
          FewerOnlyLive(server.cols, e, expires);
        } else if out != Resp {
          err := Some(IdNotFound);
        }
    }

    method Mark(key: Str, id: Str, at: Time)
      requires Valid() && adding.None? && Lookup(server.cols, key, id).Some?
      modifies `expires, `adding
      ensures Valid()
      ensures forall k, i :: Deadline(expires, k, i) ==
                               if k == key && i == id then Some(at) else old(Deadline(expires, k, i))
    {
      hide Deadline;
      ghost var e := expires;
      ExpireAt(key, id, at);
      TrackedAfterMark(e, expires, exlist, purgelist, key, id, at);
    }

    // ----- the background goroutine

    /** First section: up to 20 random looks at the list; entries whose time has passed are swap-removed onto
        the purge list. Nothing is lost or duplicated. */
    method CollectExpired(wait: nat, rand: nat -> nat)
      requires Valid() && purgelist == []
      modifies `clock, `exlist, `purgelist
      ensures Valid() && clock == old(clock) + wait
      ensures multiset(exlist) + multiset(purgelist) == multiset(old(exlist))
      ensures |purgelist| <= 20 && AllBefore(purgelist, clock)
      ensures AllBefore(old(exlist), clock) ==> |purgelist| == if |old(exlist)| < 20 then |old(exlist)| else 20
    {
      assert AllBefore(purgelist, clock + wait);
      hide Deadline, OnlyLive, Tracked, AllBefore;
      ghost var start := exlist;
      clock := clock + wait;
      var i := 0;
      while i < 20 && |exlist| > 0
        invariant 0 <= i <= 20 && |purgelist| <= i && AllBefore(purgelist, clock)
        invariant AllBefore(start, clock) ==> |purgelist| == i
        invariant clock == old(clock) + wait
        invariant multiset(exlist) + multiset(purgelist) == multiset(start)
        decreases 20 - i
      {
        var ix := rand(i) % |exlist|;
        if AllBefore(start, clock) { StillBefore(start, exlist, purgelist, clock); }
        if exlist[ix].at < clock { TakeOff(ix); }
        i := i + 1;
      }
      assert |multiset(exlist) + multiset(purgelist)| == |start|;
      TrackedAfterCollect(expires, start, exlist, purgelist, adding);
    }

    /** Swap-removes one entry onto the purge list. */
    method TakeOff(ix: nat)
      requires ix < |exlist| && exlist[ix].at < clock && AllBefore(purgelist, clock)
      modifies `exlist, `purgelist
      ensures AllBefore(purgelist, clock) && |purgelist| == old(|purgelist|) + 1
      ensures multiset(exlist) + multiset(purgelist) == old(multiset(exlist) + multiset(purgelist))
    {
      hide AllBefore;
      SwapRemoved(exlist, ix);
      MovedToPurge(exlist, ix, exlist[ix := exlist[|exlist| - 1]][..|exlist| - 1], purgelist);
      BeforeSnoc(purgelist, exlist[ix], clock);
      purgelist := purgelist + [exlist[ix]];
      exlist := exlist[ix := exlist[|exlist| - 1]];
      exlist := exlist[..|exlist| - 1];
    }

    /** Second section, under the server lock: each listed object whose deadline has passed by now is deleted
        and the deletion is logged. No object is deleted before its current deadline, even if its entry was
        collected under an earlier one. `evs` are the deletions, as steps of the server. */
    method PurgeExpired(waits: nat -> nat, out: Output) returns (ghost evs: seq<Event>)
      requires Valid() && adding.None?
      modifies this, server
      ensures Valid() && adding.None? && purgelist == [] && exlist == old(exlist) && old(clock) <= clock
      ensures OnlyExpiredGone(old(server.cols), old(expires), server.cols, old(purgelist), clock)
      ensures ExpiredGone(old(expires), server.cols, old(purgelist), old(clock))
      ensures forall k, i, t :: old(Deadline(expires, k, i)) == Some(t) && t >= clock ==>
                                  Lookup(server.cols, k, i) == old(Lookup(server.cols, k, i))
      ensures forall x, t :: x in old(purgelist) && old(Deadline(expires, x.key, x.id)) == Some(t) && t < old(clock) ==>
                               Lookup(server.cols, x.key, x.id) == None
      ensures Deletions(evs) && server.View() == RunEvents(old(server.View()), evs)
    {
      hide Deadline, Expired, OnlyLive, Tracked, OnlyExpiredGone, ExpiredGone, DeadlinesKept, Next, Deletions, Lookup;
      ghost var d0, e0, clock0, list := server.cols, expires, clock, purgelist;
      assert purgelist[..0] == [] && purgelist[0..] == purgelist;
      NothingGone(d0, e0, clock0);
      evs := [];
      assert Deletions(evs) by { NoDeletions(); }
      for n := 0 to |purgelist|
        invariant purgelist == list && exlist == old(exlist) && adding.None?
        invariant clock0 <= clock && AllBefore(purgelist, clock)
        invariant OnlyLive(server.cols, expires) && Tracked(expires, exlist, purgelist[n..], None)
        invariant DeadlinesKept(e0, server.cols, expires)
        invariant OnlyExpiredGone(d0, e0, server.cols, purgelist[..n], clock)
        invariant ExpiredGone(e0, server.cols, purgelist[..n], clock0)
        invariant Deletions(evs) && server.View() == RunEvents(old(server.View()), evs)
      {
        ghost var e, d, rest := expires, server.cols, purgelist[n + 1..];
        assert purgelist[n..] == [purgelist[n]] + rest && purgelist[..n + 1] == purgelist[..n] + [purgelist[n]];
        ghost var more := PurgeOne(purgelist[n], waits(n), out);
        TrackedAfterPurge(e, expires, exlist, purgelist[n], rest, None, clock);
        GoneStep(d0, e0, d, e, server.cols, expires, purgelist[..n], purgelist[n], clock0, clock - waits(n), clock);
        RunEventsAppend(old(server.View()), evs, more);
        DeletionsAppend(evs, more);
        evs := evs + more;
      }
      assert purgelist[..|purgelist|] == list && purgelist[|purgelist|..] == [];
      DueIsGone(d0, e0, server.cols, list, clock0, clock);
      purgelist := [];
    }

    method PurgeOne(x: ExItem, wait: nat, out: Output) returns (ghost evs: seq<Event>)
      requires OnlyLive(server.cols, expires)
      modifies `clock, `expires, server
      ensures OnlyLive(server.cols, expires) && clock == old(clock) + wait
      ensures OneGone(old(server.cols), old(expires), server.cols, expires, x, clock)
      ensures Deletions(evs) && server.View() == RunEvents(old(server.View()), evs)
    {
      hide Exec, OnlyLive, Deadline, Lookup;
      clock := clock + wait;
      evs := [];
      if Expired(expires, x.key, x.id, clock) {
        var del := Del(x.key, x.id);
        ghost var d, e := server.cols, expires;
        OneEvent(server.View(), Client(del, out));
        evs := [Client(del, out)];
        var _ := server.HandleInputCommand(del, out);
        var _ := ClearIDExpires(x.key, x.id);
        OnlyLiveKept(d, del, out, e, expires);
        DelGone(d, e, expires, x, clock, out);
      }
    }

    // ----- whole runs

    /** Any schedule of requests, appends, collecting and purging sections and shrinker sections; a section
        whose lock is held by a command in progress waits. Deadlines stay consistent throughout. `trace` is the
        run of the server, purges included: if none of its commands is a malformed FSET that changes a field, the
        log still loads to the dataset, and a schedule without malformed FSETs has such a trace. */
    method Serve(schedule: seq<Step>) returns (ghost trace: seq<Event>)
      requires Valid()
      modifies this, server
      ensures Valid() && server.View() == RunEvents(old(server.View()), trace)
      ensures Inv(old(server.View())) && NoLeaks(old(server.View()), trace) ==>
                Inv(server.View()) && InStep(server.View())
      ensures (forall n :: 0 <= n < |schedule| ==> !Malformed(schedule[n])) ==> NoLeaks(old(server.View()), trace)
    {
      hide OnlyLive, Tracked, AllBefore, Inv, Malformed, Expired, NoLeaks, Next, WellFormed;
      ghost var start := server.View();
      trace := [];
      assert WellFormed(trace) by { NothingMalformed(); }
      for n := 0 to |schedule|
        invariant Valid() && server.View() == RunEvents(start, trace)
        invariant (forall m :: 0 <= m < n ==> !Malformed(schedule[m])) ==> WellFormed(trace)
      {
        ghost var more := Take(schedule[n]);
        RunEventsAppend(start, trace, more);
        if WellFormed(trace) && WellFormed(more) { WellFormedAppend(trace, more); }
        trace := trace + more;
      }
      if WellFormed(trace) { WellFormedNoLeaks(start, trace); }
      if Inv(start) && NoLeaks(start, trace) {
        RunKeepsInv(start, trace);
        InvParts(server.View());
        LoadRuns(map[], server.aof);
      }
    }

    method Take(st: Step) returns (ghost evs: seq<Event>)
      requires Valid()
      modifies this, server
      ensures Valid() && server.View() == RunEvents(old(server.View()), evs)
      ensures !Malformed(st) ==> WellFormed(evs)
    {
      hide OnlyLive, Tracked, Expired, ClientStep, OnlyExpiredGone, ExpiredGone;
      evs := [];
      match st
      case Handle(req, out, wait) =>
        if adding.None? {
          if req.Plain? {
            evs := [Client(req.cmd, out)];
            OneEvent(server.View(), evs[0]);
          }
          var _ := HandleRequest(req, out, wait);
        }
      case Append => if adding.Some? { AppendExpire(); }
      case Collect(wait, rand) => if purgelist == [] { CollectExpired(wait, rand); }
      case Purge(waits, out) => if adding.None? { evs := PurgeExpired(waits, out); }
      case Shrinking(e) =>
        if adding.None? && !e.Client? {
          evs := [e];
          OneEvent(server.View(), e);
          server.Step(e);
        }
    }
  }

  /** An FSET whose argument list breaks off in an error, the one command that the log can miss. */
  predicate Malformed(st: Step) {
    st.Handle? && st.req.Plain? && st.req.cmd.Fset? && st.req.cmd.bad
  }

  // ----- the run of the server

  ghost predicate WellFormed(es: seq<Event>) {
    forall n :: 0 <= n < |es| && es[n].Client? ==> !(es[n].cmd.Fset? && es[n].cmd.bad)
  }

  ghost predicate Deletions(es: seq<Event>) {
    forall n :: 0 <= n < |es| ==> es[n].Client? && es[n].cmd.Del?
  }

  lemma {:induction false} WellFormedNoLeaks(s: State, es: seq<Event>)
    requires WellFormed(es)
    ensures NoLeaks(s, es)
    decreases |es|
  {
    hide Next;
    if es != [] {
      assert forall n :: 0 <= n < |es[1..]| ==> es[1..][n] == es[n + 1];
      WellFormedNoLeaks(Next(s, es[0]), es[1..]);
    }
  }

  lemma WellFormedAppend(a: seq<Event>, b: seq<Event>)
    requires WellFormed(a) && WellFormed(b)
    ensures WellFormed(a + b)
  {}

  lemma DeletionsAppend(a: seq<Event>, b: seq<Event>)
    requires Deletions(a) && Deletions(b)
    ensures Deletions(a + b)
  {}

  lemma NothingMalformed()
    ensures WellFormed([])
  {}

  lemma NoDeletions()
    ensures Deletions([])
  {}

  // ----- what a purge does

  predicate OnList(list: seq<ExItem>, key: Str, id: Str) {
    exists n :: 0 <= n < |list| && list[n].key == key && list[n].id == id
  }

  /** Whatever is gone was listed and past its deadline; everything else is as it was. */
  ghost predicate OnlyExpiredGone(d: Data, e: Expires, d': Data, list: seq<ExItem>, now: Time) {
    forall k, i :: Lookup(d', k, i) == Lookup(d, k, i)
                   || (Lookup(d', k, i).None? && Expired(e, k, i, now) && OnList(list, k, i))
  }

  /** Whatever was listed and past its deadline is gone. */
  ghost predicate ExpiredGone(e: Expires, d': Data, list: seq<ExItem>, now: Time) {
    forall n :: 0 <= n < |list| && Expired(e, list[n].key, list[n].id, now) ==>
                  Lookup(d', list[n].key, list[n].id).None?
  }

  /** Nothing goes before its deadline, and what is listed goes after it. */
  lemma DueIsGone(d: Data, e: Expires, d': Data, list: seq<ExItem>, was: Time, now: Time)
    requires OnlyExpiredGone(d, e, d', list, now) && ExpiredGone(e, d', list, was)
    ensures forall k, i, t :: Deadline(e, k, i) == Some(t) && t >= now ==> Lookup(d', k, i) == Lookup(d, k, i)
    ensures forall x, t :: x in list && Deadline(e, x.key, x.id) == Some(t) && t < was ==>
                  Lookup(d', x.key, x.id) == None
  {
    hide Deadline, Lookup;
  }

  ghost predicate DeadlinesKept(e: Expires, d': Data, e': Expires) {
    forall k, i :: Deadline(e', k, i) == Deadline(e, k, i) || (Deadline(e', k, i).None? && Lookup(d', k, i).None?)
  }

  ghost predicate OneGone(d: Data, e: Expires, d': Data, e': Expires, x: ExItem, now: Time) {
    forall k, i ::
      if k == x.key && i == x.id && Expired(e, k, i, now)
      then Deadline(e', k, i).None? && Lookup(d', k, i).None?
      else Deadline(e', k, i) == Deadline(e, k, i) && Lookup(d', k, i) == Lookup(d, k, i)
  }

  lemma DelGone(d: Data, e: Expires, e': Expires, x: ExItem, now: Time, out: Output)
    requires Expired(e, x.key, x.id, now)
    requires forall k, i :: Deadline(e', k, i) == if k == x.key && i == x.id then None else Deadline(e, k, i)
    ensures OneGone(d, e, Exec(d, Del(x.key, x.id), out).data, e', x, now)
  {
    hide Exec, Deadline, Lookup;
    forall k, i ensures Lookup(Exec(d, Del(x.key, x.id), out).data, k, i) ==
                        if k == x.key && i == x.id then None else Lookup(d, k, i) {
      ExecIsPointwise(d, Del(x.key, x.id), out, k, i);
    }
  }

  lemma NothingGone(d: Data, e: Expires, now: Time)
    ensures DeadlinesKept(e, d, e) && OnlyExpiredGone(d, e, d, [], now) && ExpiredGone(e, d, [], now)
  {}

  lemma GoneStep(
    d0: Data, e0: Expires, d: Data, e: Expires, d': Data, e': Expires, done: seq<ExItem>, x: ExItem,
    clock0: Time, was: Time, now: Time)
    requires clock0 <= was <= now && OneGone(d, e, d', e', x, now)
    requires DeadlinesKept(e0, d, e) && OnlyExpiredGone(d0, e0, d, done, was) && ExpiredGone(e0, d, done, clock0)
    ensures DeadlinesKept(e0, d', e')
    ensures OnlyExpiredGone(d0, e0, d', done + [x], now)
    ensures ExpiredGone(e0, d', done + [x], clock0)
  {
    hide Deadline, Lookup;
    forall k, i ensures Lookup(d', k, i) == Lookup(d0, k, i)
                   || (Lookup(d', k, i).None? && Expired(e0, k, i, now) && OnList(done + [x], k, i)) {
      OnListSnoc(done, x, k, i);
      assert Lookup(d, k, i) == Lookup(d0, k, i)
                   || (Lookup(d, k, i).None? && Expired(e0, k, i, was) && OnList(done, k, i));
      assert DeadlinesKept(e0, d, e);
    }
    forall n | 0 <= n < |done + [x]| && Expired(e0, (done + [x])[n].key, (done + [x])[n].id, clock0)
      ensures Lookup(d', (done + [x])[n].key, (done + [x])[n].id).None?
    {
      var y := (done + [x])[n];
      if n < |done| {
        assert y == done[n] && Lookup(d, y.key, y.id).None?;
      } else {
        assert Deadline(e, x.key, x.id) == Deadline(e0, x.key, x.id) || Lookup(d, x.key, x.id).None?;
      }
    }
  }

  lemma OnListSnoc(list: seq<ExItem>, x: ExItem, k: Str, i: Str)
    ensures OnList(list + [x], k, i) <==> OnList(list, k, i) || (x.key == k && x.id == i)
  {
    var more := list + [x];
    if OnList(list, k, i) {
      var n :| 0 <= n < |list| && list[n].key == k && list[n].id == i;
      assert more[n] == list[n];
    }
    assert more[|list|] == x;
  }

  // ----- lists

  /** A swap-remove takes out one element and keeps the others. */
  lemma SwapRemoved<T>(s: seq<T>, ix: nat)
    requires ix < |s|
    ensures multiset(s[ix := s[|s| - 1]][..|s| - 1]) == multiset(s) - multiset{s[ix]}
  {
    var last := |s| - 1;
    var t := s[ix := s[last]][..last];
    if ix == last {
      assert t == s[..last];
      assert s == t + [s[last]];
    } else {
      var left, mid := s[..ix], s[ix + 1..last];
      assert s == left + [s[ix]] + mid + [s[last]];
      assert t == left + [s[last]] + mid;
    }
  }

  lemma MovedToPurge<T>(s: seq<T>, ix: nat, t: seq<T>, purge: seq<T>)
    requires ix < |s| && multiset(t) == multiset(s) - multiset{s[ix]}
    ensures multiset(t) + multiset(purge + [s[ix]]) == multiset(s) + multiset(purge)
  {
    assert s[ix] in multiset(s);
    assert multiset(purge + [s[ix]]) == multiset(purge) + multiset{s[ix]};
  }

  lemma StillBefore(all: seq<ExItem>, rest: seq<ExItem>, taken: seq<ExItem>, now: Time)
    requires multiset(rest) + multiset(taken) == multiset(all) && AllBefore(all, now)
    ensures forall i :: 0 <= i < |rest| ==> rest[i].at < now
  {
    forall i | 0 <= i < |rest| ensures rest[i].at < now {
      assert rest[i] in multiset(rest) + multiset(taken);
      assert rest[i] in multiset(all);
    }
  }

  lemma BeforeSnoc(xs: seq<ExItem>, x: ExItem, now: Time)
    requires AllBefore(xs, now) && x.at < now
    ensures AllBefore(xs + [x], now)
  {}

  lemma TrackedAfterCollect(
    e: Expires, before: seq<ExItem>, exlist: seq<ExItem>, purge: seq<ExItem>, adding: Option<ExItem>)
    requires Tracked(e, before, [], adding)
    requires multiset(exlist) + multiset(purge) == multiset(before)
    ensures Tracked(e, exlist, purge, adding)
  {
    hide Deadline;
    forall x | x in before ensures x in exlist || x in purge {
      assert x in multiset(before);
      assert x in multiset(exlist) + multiset(purge);
    }
  }

  lemma ClearedTracked(
    e: Expires, f: Expires, d: Data, c: Cmd, exlist: seq<ExItem>, more: seq<ExItem>, purge: seq<ExItem>)
    requires Tracked(e, exlist, purge, None) && ClearedBy(e, f, d, c)
    requires more == if c.FlushDb? then [] else exlist
    ensures Tracked(f, more, purge, None)
  {
    hide Deadline, Pdels, Lookup;
    TrackedKept(e, f, exlist, more, purge, None);
  }

  lemma SetClearsOne(d: Data, c: Cmd)
    requires c.Set?
    ensures forall key, id :: Clears(d, c, key, id) ==> key == c.key && id == c.id
  {}

  lemma SetMakesLive(d: Data, c: Cmd, out: Output)
    requires c.Set? && Clears(d, c, c.key, c.id)
    ensures Lookup(Exec(d, c, out).data, c.key, c.id).Some?
  {
    hide Exec;
    ExecIsPointwise(d, c, out, c.key, c.id);
  }

  lemma FewerOnlyLive(d: Data, e: Expires, f: Expires)
    requires OnlyLive(d, e) && forall k, i :: Deadline(f, k, i).Some? ==> Deadline(e, k, i).Some?
    ensures OnlyLive(d, f)
  {
    hide Deadline, Lookup;
  }
}
