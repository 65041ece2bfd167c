/** SCAN with a cursor and a limit: the writer that counts, skips and stops, and what a client collects by
    following the cursors it is given. */
module Scanner {
  import opened Bytes
  import opened Dataset
  import opened Glob
  import opened GlobMatch
  import opened GlobRange
  import opened GlobLoops

  const LIMIT_ITEMS := 100

  /** A pattern with a wildcard byte that the matcher does not reject. */
  predicate IsGlob(p: Str) {
    PrefixLen(p) < |p| && !WildcardMatch(p, WHATEVER).BadPattern?
  }

  /** globMatch: everything, one literal id, or what the matcher accepts. */
  predicate GlobOk(p: Str, id: Str) {
    p == [STAR] || p == [] || if IsGlob(p) then WildcardMatch(p, id) == Verdict(true) else id == p
  }

  // ----- what a scan is to return

  function Reversed(s: seq<Str>): (r: seq<Str>)
    ensures |r| == |s| && forall i :: 0 <= i < |s| ==> r[i] == s[|s| - 1 - i]
  {
    if s == [] then [] else [s[|s| - 1]] + Reversed(s[..|s| - 1])
  }

  /** The order in which a collection is scanned. */
  function Order(col: Col, desc: bool): seq<Str> {
    if desc then Reversed(Sorted(col.Keys)) else Sorted(col.Keys)
  }

  ghost predicate Lists(ids: seq<Str>, s: set<Str>) {
    && (forall id :: id in ids <==> id in s)
    && (forall i, j :: 0 <= i < j < |ids| ==> ids[i] != ids[j])
  }

  lemma AscendingLists(ids: seq<Str>, s: set<Str>)
    requires Ascending(ids) && forall id :: id in ids <==> id in s
    ensures Lists(ids, s)
  {
    hide Less;
    forall i, j | 0 <= i < j < |ids| ensures ids[i] != ids[j] { LessAsymmetric(ids[i], ids[j]); }
  }

  lemma ReversedLists(ids: seq<Str>, s: set<Str>)
    requires Lists(ids, s)
    ensures Lists(Reversed(ids), s)
  {
    var r := Reversed(ids);
    forall id | id in ids ensures id in r {
      var i :| 0 <= i < |ids| && ids[i] == id;
      assert r[|ids| - 1 - i] == id;
    }
  }

  /** Every id once. */
  lemma OrderLists(col: Col, desc: bool)
    ensures Lists(Order(col, desc), col.Keys)
  {
    hide Sorted, Lists, Reversed;
    AscendingLists(Sorted(col.Keys), col.Keys);
    ReversedLists(Sorted(col.Keys), col.Keys);
  }

  /** By id, going up or down. */
  ghost predicate InScanOrder(ids: seq<Str>, desc: bool) {
    forall i, j :: 0 <= i < j < |ids| ==> if desc then Less(ids[j], ids[i]) else Less(ids[i], ids[j])
  }

  lemma OrderIsById(col: Col, desc: bool)
    ensures InScanOrder(Order(col, desc), desc)
  {
    hide Less, Sorted;
    var up := Sorted(col.Keys);
    assert Ascending(up);
  }

  predicate Keeps(col: Col, p: Str, desc: bool, filter: Rec -> bool, id: Str) {
    id in col && Visits(Parse(p, desc).limits, desc, id) && GlobOk(p, id) && filter(col[id])
  }

  ghost function Keeper(col: Col, p: Str, desc: bool, filter: Rec -> bool): Str -> bool {
    id => Keeps(col, p, desc, filter, id)
  }

  /** All matching ids, in scan order. */
  ghost function Matching(col: Col, p: Str, desc: bool, filter: Rec -> bool): seq<Str> {
    Filter(Order(col, desc), Keeper(col, p, desc, filter))
  }

  function Page<T>(s: seq<T>, cursor: nat, limit: nat): seq<T> {
    if cursor >= |s| then [] else if cursor + limit <= |s| then s[cursor..cursor + limit] else s[cursor..]
  }

  lemma FilterCons(x: Str, rest: seq<Str>, keep: Str -> bool)
    ensures Filter([x] + rest, keep) == (if keep(x) then [x] else []) + Filter(rest, keep)
  {
    assert ([x] + rest)[1..] == rest;
  }

  lemma {:induction false} FilterSnoc(ids: seq<Str>, x: Str, keep: Str -> bool)
    ensures Filter(ids + [x], keep) == Filter(ids, keep) + if keep(x) then [x] else []
    decreases |ids|
  {
    if ids == [] {
      assert ids + [x] == [x] && [x][1..] == [];
    } else {
      var y, rest := ids[0], ids[1..];
      FilterSnoc(rest, x, keep);
      hide Filter;
      FilterCons(y, rest, keep);
      FilterCons(y, rest + [x], keep);
      assert ids == [y] + rest && ids + [x] == [y] + (rest + [x]);
    }
  }

  lemma {:induction false} FilterKeepsOrder(ids: seq<Str>, keep: Str -> bool, desc: bool)
    requires InScanOrder(ids, desc)
    ensures InScanOrder(Filter(ids, keep), desc)
    decreases |ids|
  {
    hide Less;
    if ids != [] {
      var rest := ids[1..];
      assert forall i :: 0 <= i < |rest| ==> rest[i] == ids[i + 1];
      FilterKeepsOrder(rest, keep, desc);
      forall j | 0 <= j < |Filter(rest, keep)|
        ensures var x := Filter(rest, keep)[j]; if desc then Less(x, ids[0]) else Less(ids[0], x)
      {
        FilterMembers(rest, keep, Filter(rest, keep)[j]);
      }
    }
  }

  lemma MatchingInOrder(col: Col, p: Str, desc: bool, filter: Rec -> bool)
    ensures InScanOrder(Matching(col, p, desc, filter), desc)
  {
    hide Filter, Order, InScanOrder;
    OrderIsById(col, desc);
    FilterKeepsOrder(Order(col, desc), Keeper(col, p, desc, filter), desc);
  }

  lemma PageInOrder(ids: seq<Str>, desc: bool, cursor: nat, limit: nat)
    requires InScanOrder(ids, desc)
    ensures InScanOrder(Page(ids, cursor, limit), desc)
  {
    hide Less;
  }

  lemma {:induction false} FilterPrefix(ids: seq<Str>, i: nat, keep: Str -> bool)
    requires i <= |ids|
    ensures Filter(ids[..i], keep) <= Filter(ids, keep)
    ensures (forall j :: i <= j < |ids| ==> !keep(ids[j])) ==> Filter(ids[..i], keep) == Filter(ids, keep)
    decreases |ids| - i
  {
    if i == |ids| {
      assert ids[..i] == ids;
    } else {
      assert ids[..i + 1] == ids[..i] + [ids[i]];
      FilterSnoc(ids[..i], ids[i], keep);
      FilterPrefix(ids, i + 1, keep);
    }
  }

  lemma {:induction false} FilterMembers(ids: seq<Str>, keep: Str -> bool, id: Str)
    ensures id in Filter(ids, keep) <==> id in ids && keep(id)
    decreases |ids|
  {
    if ids != [] {
      FilterMembers(ids[1..], keep, id);
      assert ids == [ids[0]] + ids[1..];
    }
  }

  // ----- the writer

  const MAX_UINT64 := 0xFFFF_FFFF_FFFF_FFFF

  function Limit(limit: nat, counting: bool): nat {
    if limit != 0 then limit else if counting then MAX_UINT64 else LIMIT_ITEMS
  }

  class ScanWriter {
    const cursor: nat
    const limit: nat
    const pattern: Str
    const globEverything: bool
    const globSingle: bool
    const filter: Rec -> bool
    const counting: bool
    var count: nat
    var numberItems: nat
    var hitLimit: bool
    var values: seq<Str>

    /** The ids accepted so far, skipped ones included. */
    ghost var seen: seq<Str>

    ghost predicate Valid()
      reads this
    {
      && limit >= 1
      && globEverything == (pattern == [STAR] || pattern == [])
      && globSingle == (!globEverything && !IsGlob(pattern))
      && count == |seen| && values == (if counting then [] else Page(seen, cursor, limit))
      && numberItems == |values| && hitLimit == (|values| == limit)
    }

    /** A limit of zero stands for the default, which is none at all when only counting. */
    constructor (pattern: Str, cursor: nat, limit: nat, filter: Rec -> bool, counting: bool)
      ensures Valid() && seen == [] && !hitLimit
      ensures this.pattern == pattern && this.cursor == cursor && this.filter == filter && this.counting == counting
      ensures this.limit == Limit(limit, counting)
    {
      hide WildcardMatch;
      this.pattern, this.cursor, this.filter, this.counting := pattern, cursor, filter, counting;
      this.limit := Limit(limit, counting);
      globEverything := pattern == [STAR] || pattern == [];
      globSingle := !(pattern == [STAR] || pattern == []) && !IsGlob(pattern);
      count, numberItems, hitLimit, values, seen := 0, 0, false, [], [];
    }

    /** globMatch: whether the id matches, and whether there can be another match. */
    method GlobMatch(id: Str) returns (ok: bool, keepGoing: bool)
      requires Valid()
      ensures ok == GlobOk(pattern, id)
      ensures !keepGoing ==> globSingle && id == pattern
    {
      hide WildcardMatch;
      if !globEverything {
        if globSingle {
          if pattern != id { return false, true; }
          return true, false;
        }
        var matched, _ := Match(pattern, id);
        if !matched { return false, true; }
      }
      return true, true;
    }

    /** writeObject: an accepted object is counted, skipped up to the cursor, then written up to the limit, or only
        counted, and that until the count is past the cursor and at the limit. */
    method WriteObject(id: Str, rec: Rec) returns (keepGoing: bool)
      requires Valid() && !hitLimit
      modifies `count, `numberItems, `hitLimit, `values, `seen
      ensures Valid()
      ensures seen == old(seen) + if GlobOk(pattern, id) && filter(rec) then [id] else []
      ensures hitLimit ==> !keepGoing
      ensures !counting && !keepGoing ==> hitLimit || (globSingle && id == pattern)
      ensures counting ==> (keepGoing <==> seen == old(seen) || |seen| <= cursor || |seen| < limit)
    {
      hide GlobOk, IsGlob;
      var matched, more := GlobMatch(id);
      if !matched { return true; }
      if !filter(rec) { return true; }
      count := count + 1;
      seen := seen + [id];
      if count <= cursor { return true; }
      if counting { return count < limit; }
      values := values + [id];
      numberItems := numberItems + 1;
      if numberItems == limit {
        hitLimit := true;
        return false;
      }
      return more;
    }

    /** writeFoot: the cursor to continue from, zero when the scan came to its end. */
    method WriteFoot() returns (next: nat)
      requires Valid()
      ensures next == if |values| == limit then cursor + limit else 0
    {
      next := cursor + numberItems;
      if !hitLimit { next := 0; }
    }
  }

  // ----- one page, and all of them

  /** cmdScan: scans the range of the pattern, or everything, until the writer stops it. */
  method Scan(col: Col, p: Str, desc: bool, filter: Rec -> bool, cursor: nat, limit: nat)
    returns (values: seq<Str>, next: nat)
    ensures var lim := if limit == 0 then LIMIT_ITEMS else limit;
            && values == Page(Matching(col, p, desc, filter), cursor, lim)
            && next == if |values| == lim then cursor + lim else 0
    ensures InScanOrder(values, desc)
  {
    hide WildcardMatch, Parse, Visits, IsGlob, Order, Filter, Page;
    var sw := new ScanWriter(p, cursor, limit, filter, false);
    var g := ParseLoop(p, desc);
    var ids := Order(col, desc);
    OrderLists(col, desc);
    ghost var keep := Keeper(col, p, desc, filter);
    assert ids[..0] == [];
    NothingKept(keep);
    var i, going := 0, true;
    while i < |ids| && going
      invariant 0 <= i <= |ids| && sw.Valid() && fresh(sw)
      invariant sw.pattern == p && sw.cursor == cursor && sw.filter == filter && !sw.counting
      invariant sw.limit == Limit(limit, false)
      invariant sw.seen == Filter(ids[..i], keep)
      invariant going ==> !sw.hitLimit
      invariant !going ==> sw.hitLimit || (i > 0 && sw.globSingle && ids[i - 1] == p)
    {
      var id := ids[i];
      assert ids[..i + 1] == ids[..i] + [id];
      FilterSnoc(ids[..i], id, keep);
      if Visits(g.limits, desc, id) { going := sw.WriteObject(id, col[id]); }
      i := i + 1;
    }
    FilterPrefix(ids, i, keep);
    if !sw.hitLimit { NoMoreSingles(ids, i, keep, p, col, desc, filter, going); }
    PageDone(sw.seen, Filter(ids, keep), cursor, sw.limit);
    values := sw.values;
    MatchingInOrder(col, p, desc, filter);
    PageInOrder(Matching(col, p, desc, filter), desc, cursor, sw.limit);
    next := sw.WriteFoot();
  }

  // ----- counting

  /** Where a count stops: past the cursor and at the limit. */
  function End(cursor: nat, limit: nat): nat {
    if cursor < limit then limit else cursor + 1
  }

  function Counted(n: nat, cursor: nat, limit: nat): nat {
    if n < End(cursor, limit) then n else End(cursor, limit)
  }

  /** The shortcut of cmdScan for a count of everything. */
  function Remaining(n: nat, cursor: nat): nat {
    if n < cursor then 0 else n - cursor
  }

  /** cmdScan with the COUNT output; `wheres` says whether there are WHERE or WHEREIN clauses. A count of everything
      without them is read off the collection, others are counted object by object. */
  method ScanCount(col: Col, p: Str, desc: bool, filter: Rec -> bool, wheres: bool, cursor: nat, limit: nat)
    returns (count: nat)
    ensures count == if (p == [STAR] || p == []) && !wheres then Remaining(|col|, cursor)
                     else Counted(|Matching(col, p, desc, filter)|, cursor, Limit(limit, true))
  {
    hide WildcardMatch, Parse, Visits, IsGlob, Order, Filter;
    var sw := new ScanWriter(p, cursor, limit, filter, true);
    if sw.globEverything && !wheres {
      var left := |col| - cursor;
      if left < 0 { left := 0; }
      return left;
    }
    var g := ParseLoop(p, desc);
    var ids := Order(col, desc);
    OrderLists(col, desc);
    ghost var keep := Keeper(col, p, desc, filter);
    assert ids[..0] == [];
    NothingKept(keep);
    var i, going := 0, true;
    while i < |ids| && going
      invariant 0 <= i <= |ids| && sw.Valid() && fresh(sw)
      invariant sw.pattern == p && sw.cursor == cursor && sw.filter == filter && sw.counting
      invariant sw.limit == Limit(limit, true)
      invariant sw.seen == Filter(ids[..i], keep)
      invariant going ==> |sw.seen| <= cursor || |sw.seen| < sw.limit
      invariant !going ==> |sw.seen| == if cursor < sw.limit then sw.limit else cursor + 1
    {
      var id := ids[i];
      assert ids[..i + 1] == ids[..i] + [id];
      FilterSnoc(ids[..i], id, keep);
      if Visits(g.limits, desc, id) { going := sw.WriteObject(id, col[id]); }
      i := i + 1;
    }
    FilterPrefix(ids, i, keep);
    if going { assert ids[..i] == ids; }
    count := sw.count;
  }

  /** Where everything matches, the shortcut gives the count that counting object by object gives if and only if
      there is no object, or no cursor and the limit is not passed, or the limit happens to cut off the cursor's
      share; so without a limit, if and only if there is no object or no cursor. */
  lemma ShortcutAgreesIff(col: Col, p: Str, desc: bool, filter: Rec -> bool, cursor: nat, limit: nat)
    requires (p == [STAR] || p == []) && forall id :: id in col ==> filter(col[id])
    ensures var n, lim := |col|, Limit(limit, true);
            && (Remaining(n, cursor) == Counted(|Matching(col, p, desc, filter)|, cursor, lim) <==>
                || n == 0 || (cursor == 0 && n <= lim)
                || (cursor > 0 && n == cursor + End(cursor, lim)))
            && (limit == 0 && n <= MAX_UINT64 ==>
                  (Remaining(n, cursor) == Counted(|Matching(col, p, desc, filter)|, cursor, lim) <==>
                   n == 0 || cursor == 0))
  {
    hide Matching;
    EverythingMatches(col, p, desc, filter);
  }

  lemma EverythingMatches(col: Col, p: Str, desc: bool, filter: Rec -> bool)
    requires (p == [STAR] || p == []) && forall id :: id in col ==> filter(col[id])
    ensures |Matching(col, p, desc, filter)| == |col|
  {
    hide Filter, Order, Parse, Visits;
    var ids, keep := Order(col, desc), Keeper(col, p, desc, filter);
    OrderLists(col, desc);
    forall id | id in ids ensures keep(id) { EverythingVisited(p, desc, id); }
    FilterAll(ids, keep);
    AsMany(ids, col.Keys);
  }

  lemma {:induction false} FilterAll(ids: seq<Str>, keep: Str -> bool)
    requires forall id :: id in ids ==> keep(id)
    ensures Filter(ids, keep) == ids
    decreases |ids|
  {
    if ids != [] {
      FilterAll(ids[1..], keep);
      assert ids == [ids[0]] + ids[1..];
    }
  }

  lemma {:induction false} AsMany(ids: seq<Str>, s: set<Str>)
    requires (forall id :: id in ids <==> id in s) && forall i, j :: 0 <= i < j < |ids| ==> ids[i] != ids[j]
    ensures |ids| == |s|
    decreases |ids|
  {
    if ids != [] {
      assert ids == [ids[0]] + ids[1..];
      AsMany(ids[1..], s - {ids[0]});
    } else {
      assert s == {};
    }
  }

  lemma NothingKept(keep: Str -> bool)
    ensures Filter([], keep) == []
  {}

  lemma NoMoreSingles(
    ids: seq<Str>, i: nat, keep: Str -> bool, p: Str, col: Col, desc: bool, filter: Rec -> bool, going: bool)
    requires i <= |ids| && ids == Order(col, desc) && keep == Keeper(col, p, desc, filter)
    requires going ==> i == |ids|
    requires !going ==> i > 0 && p != [STAR] && p != [] && !IsGlob(p) && ids[i - 1] == p
    ensures forall j :: i <= j < |ids| ==> !keep(ids[j])
  {
    hide WildcardMatch, Parse, Visits, IsGlob, Order;
    OrderLists(col, desc);
    forall j | i <= j < |ids| ensures !keep(ids[j]) { assert ids[i - 1] != ids[j]; }
  }

  /** A page that is full, or was taken from the whole list, is the page of the whole list. */
  lemma PageDone(seen: seq<Str>, all: seq<Str>, cursor: nat, limit: nat)
    requires seen <= all && limit >= 1 && (|Page(seen, cursor, limit)| == limit || seen == all)
    ensures Page(seen, cursor, limit) == Page(all, cursor, limit)
  {
    if seen != all {
      assert seen == all[..|seen|];
    }
  }

  /** Following the cursors from zero until zero comes back collects every match once, in scan order. */
  method FollowCursors(col: Col, p: Str, desc: bool, filter: Rec -> bool, limit: nat)
    returns (all: seq<Str>)
    ensures all == Matching(col, p, desc, filter) && InScanOrder(all, desc)
  {
    hide Matching, Page;
    MatchingInOrder(col, p, desc, filter);
    ghost var m, lim := Matching(col, p, desc, filter), if limit == 0 then LIMIT_ITEMS else limit;
    var cursor, done := 0, false;
    all := [];
    while !done
      invariant cursor <= |m| && all == if done then m else m[..cursor]
      decreases !done, |m| - cursor
    {
      var values, next := Scan(col, p, desc, filter, cursor, limit);
      PageFollows(m, cursor, lim);
      all := all + values;
      cursor, done := next, next == 0;
    }
  }

  lemma PageFollows(m: seq<Str>, cursor: nat, limit: nat)
    requires cursor <= |m| && limit >= 1
    ensures var page := Page(m, cursor, limit);
            if |page| == limit then cursor + limit <= |m| && m[..cursor] + page == m[..cursor + limit]
            else m[..cursor] + page == m
  {
    if cursor >= |m| { assert m[..cursor] == m; }
  }

  // ----- which ids match

  /** A well-formed pattern is a glob if and only if it holds a wildcard byte; a plain one never is. */
  lemma IsGlobIff(p: Str)
    requires ParseToks(p).Some?
    ensures IsGlob(p) <==> exists i :: 0 <= i < |p| && (p[i] == STAR || p[i] == QUESTION || p[i] == OPEN)
  {
    hide WildcardMatch, ParseToks;
    OnlyWellFormedMatch(p, WHATEVER);
    var n := PrefixLen(p);
    if n < |p| { assert Special(p[n]); }
  }

  /** With a pattern whose range is safe, the scan finds exactly the ids the pattern denotes; a pattern that is
      not a glob names one id. */
  lemma MatchingMeans(col: Col, p: Str, desc: bool, filter: Rec -> bool, id: Str)
    requires RangeSafe(p) && Narrow(id)
    ensures id in Matching(col, p, desc, filter) <==>
            id in col && filter(col[id]) && (p == [] || p == [STAR] || if IsGlob(p) then Denotes(p, id) else id == p)
  {
    hide WildcardMatch, Denotes, IsGlob, Order, Filter, Parse, Visits;
    OrderLists(col, desc);
    FilterMembers(Order(col, desc), Keeper(col, p, desc, filter), id);
    MatchIffDenotes(p, id);
    if WildcardMatch(p, id) == Verdict(true) { SafeRangeKeepsMatches(p, desc, id); }
    if id == p { LiteralVisited(p, desc); }
    if p == [] || p == [STAR] { EverythingVisited(p, desc, id); }
  }

  lemma EverythingVisited(p: Str, desc: bool, id: Str)
    requires p == [] || p[0] == STAR
    ensures Visits(Parse(p, desc).limits, desc, id)
  {}

  lemma LiteralVisited(p: Str, desc: bool)
    requires RangeSafe(p)
    ensures Visits(Parse(p, desc).limits, desc, p)
  {
    hide WildcardMatch;
    if p == [] || p[0] == STAR {
      EverythingVisited(p, desc, p);
    } else if desc {
      hide Parse, Visits;
      DescendingRangeExact(p, p);
    } else {
      hide Parse, Visits;
      AscendingRangeExact(p, p);
    }
  }
}
