/** Range search and full scan, with a callback that may stop them. */
module RtreeSearch {
  import opened Rtree
  import opened RtreeInsert

  /** Everything below a node, in scan order. */
  function Scan<T>(t: Tree<T>): seq<Entry<T>>
    decreases t, 0
  {
    match t
    case Item(box, item) => [Entry(box, item)]
    case Node(_, _, _, kids) => ScanAll(kids)
  }

  function ScanAll<T>(kids: seq<Tree<T>>): seq<Entry<T>>
    decreases kids, 0
  {
    if kids == [] then [] else ScanAll(kids[..|kids| - 1]) + Scan(kids[|kids| - 1])
  }

  /** A scan visits each stored item once. */
  lemma {:induction false} ScanIsBag<T>(t: Tree<T>)
    ensures multiset(Scan(t)) == Bag(t)
    decreases t, 0
  {
    if t.Node? { ScanAllIsBag(t.kids); }
  }

  lemma {:induction false} ScanAllIsBag<T>(kids: seq<Tree<T>>)
    ensures multiset(ScanAll(kids)) == BagOf(kids)
    decreases kids, 0
  {
    if kids != [] {
      ScanAllIsBag(kids[..|kids| - 1]);
      ScanIsBag(kids[|kids| - 1]);
    }
  }

  // ----- what a search should visit

  /** The entries that meet the query box, in order. */
  function Meeting<T>(es: seq<Entry<T>>, q: Box): seq<Entry<T>>
    decreases |es|
  {
    if es == [] then []
    else Meeting(es[..|es| - 1], q) + if Intersects(q, es[|es| - 1].box) then [es[|es| - 1]] else []
  }

  lemma {:induction false} MeetingAppend<T>(a: seq<Entry<T>>, b: seq<Entry<T>>, q: Box)
    ensures Meeting(a + b, q) == Meeting(a, q) + Meeting(b, q)
    decreases |b|
  {
    if b == [] {
      assert a + b == a;
    } else {
      var m := |b| - 1;
      assert (a + b)[..|a + b| - 1] == a + b[..m];
      MeetingAppend(a, b[..m], q);
    }
  }

  lemma {:induction false} MeetingAllOrNone<T>(es: seq<Entry<T>>, q: Box)
    ensures (forall e :: e in es ==> Intersects(q, e.box)) ==> Meeting(es, q) == es
    ensures (forall e :: e in es ==> !Intersects(q, e.box)) ==> Meeting(es, q) == []
    decreases |es|
  {
    if es != [] {
      var m := |es| - 1;
      MeetingAllOrNone(es[..m], q);
      assert es == es[..m] + [es[m]];
      assert es[m] in es;
    }
  }

  // ----- what the search does

  datatype Overlap = Not | Meets | Covers

  /** How the query box lies to a child's: apart, overlapping, or around it; axis by axis. */
  function Overlaps(q: Box, b: Box): Overlap
    requires q.Box? && b.Box?
  {
    if b.min.x > q.max.x || b.max.x < q.min.x then Not
    else if q.min.x > b.min.x || b.max.x > q.max.x then
      if b.min.y > q.max.y || b.max.y < q.min.y then Not else Meets
    else if b.min.y > q.max.y || b.max.y < q.min.y then Not
    else if q.min.y > b.min.y || b.max.y > q.max.y then Meets
    else Covers
  }

  lemma OverlapsMeaning(q: Box, b: Box, e: Box)
    requires q.Box? && b.Box? && Contains(b, e) && Proper(e)
    ensures Overlaps(q, b) == Not ==> !Intersects(q, e)
    ensures Overlaps(q, b) == Covers ==> Intersects(q, e)
    ensures !Intersects(b, q) ==> !Intersects(q, e)
  {}

  /** The list up to and including the first entry at which the callback stops. */
  function Until<T>(es: seq<Entry<T>>, stop: T -> bool): seq<Entry<T>>
    decreases |es|
  {
    if es == [] then [] else if stop(es[0].item) then [es[0]] else [es[0]] + Until(es[1..], stop)
  }

  predicate Stops<T>(es: seq<Entry<T>>, stop: T -> bool) {
    exists i :: 0 <= i < |es| && stop(es[i].item)
  }

  lemma {:induction false} UntilAppend<T>(a: seq<Entry<T>>, b: seq<Entry<T>>, stop: T -> bool)
    ensures Until(a + b, stop) == if Stops(a, stop) then Until(a, stop) else a + Until(b, stop)
    ensures Stops(a + b, stop) <==> Stops(a, stop) || Stops(b, stop)
    decreases |a|
  {
    hide Stops;
    if a == [] {
      assert a + b == b;
      StartOfScan<T>(stop);
      assert [] + Until(b, stop) == Until(b, stop);
    } else {
      assert (a + b)[1..] == a[1..] + b && (a + b)[0] == a[0];
      UntilAppend(a[1..], b, stop);
      StopsCons(a, stop);
      StopsCons(a + b, stop);
      assert [a[0]] + (a[1..] + Until(b, stop)) == a + Until(b, stop);
    }
  }

  lemma StopsCons<T>(a: seq<Entry<T>>, stop: T -> bool)
    requires a != []
    ensures Stops(a, stop) <==> stop(a[0].item) || Stops(a[1..], stop)
  {
    assert forall i :: 0 <= i < |a[1..]| ==> a[1..][i] == a[i + 1];
    if Stops(a, stop) && !stop(a[0].item) {
      var i :| 0 <= i < |a| && stop(a[i].item);
      assert a[1..][i - 1] == a[i];
    }
  }

  /** What a child contributes to a search of its parent: pruned, searched, or scanned unchecked. */
  lemma ChildContribution<T>(n: Tree<T>, i: nat, q: Box)
    requires n.Node? && Ok(n) && i < |n.kids| && q.Box?
    ensures n.kids[i].box.Box?
    ensures n.leaf ==> Meeting(Scan(n.kids[i]), q) == if Intersects(q, n.kids[i].box) then Scan(n.kids[i]) else []
    ensures !n.leaf && Overlaps(q, n.kids[i].box) == Not ==> Meeting(Scan(n.kids[i]), q) == []
    ensures !n.leaf && Overlaps(q, n.kids[i].box) == Covers ==> Meeting(Scan(n.kids[i]), q) == Scan(n.kids[i])
  {
    hide Ok, Meeting, Overlaps, Bag, Union;
    var k := n.kids[i];
    KidIsOk(n, i);
    KidBoxed(n, i);
    forall e | e in Scan(k) ensures Contains(k.box, e.box) && Proper(e.box) {
      ScanIsBag(k);
      assert e in multiset(Scan(k));
      if !n.leaf { StoredInsideBox(k, e); }
    }
    forall e | e in Scan(k)
      ensures Overlaps(q, k.box) == Not ==> !Intersects(q, e.box)
      ensures Overlaps(q, k.box) == Covers ==> Intersects(q, e.box)
    {
      OverlapsMeaning(q, k.box, e.box);
    }
    MeetingAllOrNone(Scan(k), q);
  }

  lemma KidBoxed<T>(n: Tree<T>, i: nat)
    requires n.Node? && Ok(n) && i < |n.kids|
    ensures n.kids[i].box.Box?
  {
    OkIsBoxed(n);
  }

  lemma ScanSnoc<T>(kids: seq<Tree<T>>, i: nat)
    requires i < |kids|
    ensures ScanAll(kids[..i + 1]) == ScanAll(kids[..i]) + Scan(kids[i])
  {
    assert kids[..i + 1][..i] == kids[..i];
  }

  /** Scans a subtree without looking at boxes. */
  method ScanNode<T>(n: Tree<T>, stop: T -> bool) returns (visited: seq<Entry<T>>, keepOn: bool)
    requires n.Node? && Ok(n)
    ensures visited == Until(Scan(n), stop) && (keepOn <==> !Stops(Scan(n), stop))
    decreases n
  {
    hide Ok, Until, Stops, ScanAll;
    visited := [];
    StartOfScan<T>(stop);
    for i := 0 to |n.kids|
      invariant visited == ScanAll(n.kids[..i])
      invariant Until(ScanAll(n.kids[..i]), stop) == visited && !Stops(ScanAll(n.kids[..i]), stop)
    {
      var k := n.kids[i];
      KidIsOk(n, i);
      ScanSnoc(n.kids, i);
      RestOfScan(n, i + 1, stop);
      UntilAppend(ScanAll(n.kids[..i]), Scan(k), stop);
      if n.leaf {
        OneEntry(Entry(k.box, k.item), stop);
        visited := visited + [Entry(k.box, k.item)];
        if stop(k.item) { return visited, false; }
      } else {
        var more, on := ScanNode(k, stop);
        NeverStops(Scan(k), stop);
        visited := visited + more;
        if !on { return visited, false; }
      }
    }
    assert n.kids[..|n.kids|] == n.kids;
    keepOn := true;
  }

  lemma StartOfScan<T>(stop: T -> bool)
    ensures ScanAll<T>([]) == [] && Until<T>([], stop) == [] && !Stops<T>([], stop)
  {}

  lemma OneEntry<T>(e: Entry<T>, stop: T -> bool)
    ensures Until([e], stop) == [e] && (Stops([e], stop) <==> stop(e.item))
  {
    assert [e][1..] == [];
    assert [e][0] == e;
  }

  lemma {:induction false} NeverStops<T>(es: seq<Entry<T>>, stop: T -> bool)
    ensures !Stops(es, stop) ==> Until(es, stop) == es
    decreases |es|
  {
    if es != [] {
      StopsCons(es, stop);
      NeverStops(es[1..], stop);
      assert es == [es[0]] + es[1..];
    }
  }

  /** A stop among the first children decides the whole scan. */
  lemma RestOfScan<T>(n: Tree<T>, i: nat, stop: T -> bool)
    requires n.Node? && i <= |n.kids|
    ensures Stops(ScanAll(n.kids[..i]), stop) ==>
              Until(Scan(n), stop) == Until(ScanAll(n.kids[..i]), stop) && Stops(Scan(n), stop)
  {
    hide Until, Stops;
    ScanSplit(n.kids, i);
    UntilAppend(ScanAll(n.kids[..i]), ScanAll(n.kids[i..]), stop);
  }

  lemma {:induction false} ScanSplit<T>(kids: seq<Tree<T>>, i: nat)
    requires i <= |kids|
    ensures ScanAll(kids) == ScanAll(kids[..i]) + ScanAll(kids[i..])
    decreases |kids| - i
  {
    if i == |kids| {
      assert kids[..i] == kids && kids[i..] == [];
    } else {
      var m := |kids| - 1;
      assert kids[..m][..i] == kids[..i] && kids[..m][i..] == kids[i..][..m - i];
      ScanSplit(kids[..m], i);
    }
  }

  /** The part of a node's scan that meets the query, child by child. */
  lemma MeetingSnoc<T>(n: Tree<T>, i: nat, q: Box)
    requires n.Node? && i < |n.kids|
    ensures Meeting(ScanAll(n.kids[..i + 1]), q) == Meeting(ScanAll(n.kids[..i]), q) + Meeting(Scan(n.kids[i]), q)
  {
    hide Meeting, ScanAll;
    ScanSnoc(n.kids, i);
    MeetingAppend(ScanAll(n.kids[..i]), Scan(n.kids[i]), q);
  }

  lemma RestOfSearch<T>(n: Tree<T>, i: nat, q: Box, stop: T -> bool)
    requires n.Node? && i <= |n.kids|
    ensures Stops(Meeting(ScanAll(n.kids[..i]), q), stop) ==>
              && Until(Meeting(Scan(n), q), stop) == Until(Meeting(ScanAll(n.kids[..i]), q), stop)
              && Stops(Meeting(Scan(n), q), stop)
  {
    hide Until, Stops, Meeting;
    ScanSplit(n.kids, i);
    MeetingAppend(ScanAll(n.kids[..i]), ScanAll(n.kids[i..]), q);
    UntilAppend(Meeting(ScanAll(n.kids[..i]), q), Meeting(ScanAll(n.kids[i..]), q), stop);
  }

  /** Searches below a node: subtrees apart from the query are skipped, subtrees inside it are scanned
      unchecked, and still the visits are exactly the entries that meet the query, in scan order,
      up to the one where the callback stops. */
  method SearchNode<T>(n: Tree<T>, q: Box, stop: T -> bool) returns (visited: seq<Entry<T>>, keepOn: bool)
    requires n.Node? && Ok(n) && q.Box?
    ensures visited == Until(Meeting(Scan(n), q), stop)
    ensures keepOn <==> !Stops(Meeting(Scan(n), q), stop)
    decreases n
  {
    hide Ok, Until, Stops, ScanAll, Meeting, Overlaps, Intersects;
    visited := [];
    StartOfScan<T>(stop);
    NothingMeets<T>(q);
    for i := 0 to |n.kids|
      invariant visited == Meeting(ScanAll(n.kids[..i]), q)
      invariant Until(visited, stop) == visited && !Stops(visited, stop)
    {
      var k := n.kids[i];
      KidIsOk(n, i);
      ChildContribution(n, i, q);
      MeetingSnoc(n, i, q);
      RestOfSearch(n, i + 1, q, stop);
      ghost var part := Meeting(Scan(k), q);
      UntilAppend(visited, part, stop);
      NeverStops(part, stop);
      if n.leaf {
        if Intersects(q, k.box) {
          OneEntry(Entry(k.box, k.item), stop);
          visited := visited + [Entry(k.box, k.item)];
          if stop(k.item) { return visited, false; }
        }
      } else {
        var r := Overlaps(q, k.box);
        if r == Meets {
          var more, on := SearchNode(k, q, stop);
          visited := visited + more;
          if !on { return visited, false; }
        } else if r == Covers {
          var more, on := ScanNode(k, stop);
          visited := visited + more;
          if !on { return visited, false; }
        }
      }
    }
    assert n.kids[..|n.kids|] == n.kids;
    keepOn := true;
  }

  lemma NothingMeets<T>(q: Box)
    ensures Meeting<T>([], q) == []
  {}

  /** Search from the root: nothing at all when the query is apart from the tree's box. */
  method Search<T>(root: Tree<T>, q: Box, stop: T -> bool) returns (visited: seq<Entry<T>>, keepOn: bool)
    requires RootOk(root) && q.Box?
    ensures visited == Until(Meeting(Scan(root), q), stop)
    ensures keepOn <==> !Stops(Meeting(Scan(root), q), stop)
  {
    hide Ok, Until, Stops, Meeting, Intersects;
    assert root.Node? by { OkIsNode(root); }
    if !Intersects(root.box, q) {
      ApartFindsNothing(root, q);
      StartOfScan<T>(stop);
      return [], true;
    }
    visited, keepOn := SearchNode(root, q, stop);
  }

  lemma ApartFindsNothing<T>(root: Tree<T>, q: Box)
    requires Ok(root) && q.Box? && !Intersects(root.box, q)
    ensures Meeting(Scan(root), q) == []
  {
    hide Ok, Meeting, Bag;
    forall e | e in Scan(root) ensures !Intersects(q, e.box) {
      ScanIsBag(root);
      assert e in multiset(Scan(root));
      StoredInsideBox(root, e);
      OverlapsMeaning(q, root.box, e.box);
    }
    MeetingAllOrNone(Scan(root), q);
  }

  /** With a callback that never stops, a search visits each stored item that meets the query
      as often as it is stored, and no other. */
  lemma SearchVisitsExactly<T>(root: Tree<T>, q: Box, e: Entry<T>)
    ensures multiset(Meeting(Scan(root), q))[e] == if Intersects(q, e.box) then Bag(root)[e] else 0
  {
    ScanIsBag(root);
    MeetingCounts(Scan(root), q, e);
  }

  lemma {:induction false} MeetingCounts<T>(es: seq<Entry<T>>, q: Box, e: Entry<T>)
    ensures multiset(Meeting(es, q))[e] == if Intersects(q, e.box) then multiset(es)[e] else 0
    decreases |es|
  {
    if es != [] {
      var m := |es| - 1;
      MeetingCounts(es[..m], q, e);
      assert es == es[..m] + [es[m]];
    }
  }
}
