/** Best-first nearest neighbours over the R-tree. */
module Knn {
  import opened Bytes
  import opened Objects
  import opened Rtree
  import opened RtreeInsert

  // ----- distances

  function AxisDist(k: real, min: real, max: real): real {
    if k < min then min - k else if k <= max then 0.0 else k - max
  }

  function Square(x: real): real { x * x }

  /** The gap between two intervals, squared; zero when they meet. */
  function AxisGap(amin: real, amax: real, bmin: real, bmax: real): real {
    var min := if amin > bmin then amin else bmin;
    var max := if amax < bmax then amax else bmax;
    if min - max > 0.0 then Square(min - max) else 0.0
  }

  function BoxDistRect(a: Box, b: Box): real
    requires a.Box? && b.Box?
  {
    AxisGap(a.min.x, a.max.x, b.min.x, b.max.x) + AxisGap(a.min.y, a.max.y, b.min.y, b.max.y)
  }

  function BoxDistPoint(p: Vec, b: Box): real
    requires b.Box?
  {
    Square(AxisDist(p.x, b.min.x, b.max.x)) + Square(AxisDist(p.y, b.min.y, b.max.y))
  }

  predicate IsBox(q: Box)
    requires q.Box?
  {
    q.min.x != q.max.x || q.min.y != q.max.y
  }

  function Center(q: Box): Vec
    requires q.Box?
  {
    Vec((q.min.x + q.max.x) / 2.0, (q.min.y + q.max.y) / 2.0)
  }

  /** The box distance of the query, a rectangle or a point. */
  function Dist(q: Box, b: Box): real
    requires q.Box? && b.Box?
  {
    if IsBox(q) then BoxDistRect(q, b) else BoxDistPoint(Center(q), b)
  }

  lemma SquareMonotone(x: real, y: real)
    requires 0.0 <= x <= y
    ensures 0.0 <= Square(x) <= Square(y)
  {
    assert x * x <= x * y;
    assert x * y <= y * y;
  }

  lemma AxisGapMonotone(qmin: real, qmax: real, amin: real, amax: real, bmin: real, bmax: real)
    requires amin <= bmin && bmax <= amax
    ensures AxisGap(qmin, qmax, amin, amax) <= AxisGap(qmin, qmax, bmin, bmax)
  {
    hide Square;
    var a := (if qmin > amin then qmin else amin) - (if qmax < amax then qmax else amax);
    var b := (if qmin > bmin then qmin else bmin) - (if qmax < bmax then qmax else bmax);
    assert a <= b;
    if a > 0.0 { SquareMonotone(a, b); }
    else if b > 0.0 { SquareMonotone(0.0, b); }
  }

  lemma AxisDistMonotone(k: real, amin: real, amax: real, bmin: real, bmax: real)
    requires amin <= bmin <= bmax <= amax
    ensures Square(AxisDist(k, amin, amax)) <= Square(AxisDist(k, bmin, bmax))
  {
    hide Square;
    SquareMonotone(AxisDist(k, amin, amax), AxisDist(k, bmin, bmax));
  }

  /** A box is never farther than anything inside it. */
  lemma DistMonotone(q: Box, a: Box, b: Box)
    requires q.Box? && a.Box? && Contains(a, b) && Proper(b)
    ensures Dist(q, a) <= Dist(q, b)
  {
    hide Square, AxisGap, AxisDist;
    if IsBox(q) {
      AxisGapMonotone(q.min.x, q.max.x, a.min.x, a.max.x, b.min.x, b.max.x);
      AxisGapMonotone(q.min.y, q.max.y, a.min.y, a.max.y, b.min.y, b.max.y);
    } else {
      var p := Center(q);
      AxisDistMonotone(p.x, a.min.x, a.max.x, b.min.x, b.max.x);
      AxisDistMonotone(p.y, a.min.y, a.max.y, b.min.y, b.max.y);
    }
  }

  // ----- what the distance is

  /** The square of the distance of two points. */
  function Between(v: Vec, w: Vec): real {
    (v.x - w.x) * (v.x - w.x) + (v.y - w.y) * (v.y - w.y)
  }

  ghost predicate NoNearer(q: Box, b: Box, d: real) {
    forall v, w :: Has(q, v) && Has(b, w) ==> d <= Between(v, w)
  }

  /** `d` is the square of the distance of two boxes: no two of their points are nearer, and some are that near. */
  ghost predicate IsDistance(q: Box, b: Box, d: real) {
    && NoNearer(q, b, d)
    && exists v, w :: Has(q, v) && Has(b, w) && Between(v, w) == d
  }

  /** The nearest point of an interval. */
  function Clamp(k: real, min: real, max: real): real {
    if k < min then min else if k <= max then k else max
  }

  lemma SquareOfGap(gap: real, x: real)
    requires 0.0 <= gap && (gap <= x || gap <= -x)
    ensures Square(gap) <= x * x
  {
    if gap <= x { SquareMonotone(gap, x); } else {
      SquareMonotone(gap, -x);
      assert (-x) * (-x) == x * x;
    }
  }

  lemma AxisGapIsLeast(amin: real, amax: real, bmin: real, bmax: real, x: real, y: real)
    requires amin <= x <= amax && bmin <= y <= bmax
    ensures AxisGap(amin, amax, bmin, bmax) <= (x - y) * (x - y)
  {
    hide Square;
    var min := if amin > bmin then amin else bmin;
    var max := if amax < bmax then amax else bmax;
    if min - max > 0.0 {
      SquareOfGap(min - max, x - y);
    } else {
      SquareOfGap(0.0, x - y);
      ZeroSquare();
    }
  }

  lemma ZeroSquare()
    ensures Square(0.0) == 0.0
  {}

  lemma AxisGapIsAttained(amin: real, amax: real, bmin: real, bmax: real)
    requires amin <= amax && bmin <= bmax
    ensures var x := Clamp(bmin, amin, amax);
            var y := Clamp(x, bmin, bmax);
            && amin <= x <= amax && bmin <= y <= bmax
            && AxisGap(amin, amax, bmin, bmax) == (x - y) * (x - y)
  {}

  lemma AxisDistIs(k: real, min: real, max: real, y: real)
    requires min <= max
    ensures min <= y <= max ==> Square(AxisDist(k, min, max)) <= (k - y) * (k - y)
    ensures var c := Clamp(k, min, max); min <= c <= max && Square(AxisDist(k, min, max)) == (k - c) * (k - c)
  {
    if min <= y <= max { SquareOfGap(AxisDist(k, min, max), k - y); }
  }

  /** What the code computes is the square of the distance, for a rectangle and for a point. */
  lemma DistIsDistance(q: Box, b: Box)
    requires Proper(q) && Proper(b)
    ensures IsDistance(q, b, Dist(q, b))
  {
    hide AxisGap, AxisDist, Square, Clamp;
    if IsBox(q) { RectIsDistance(q, b); } else { PointIsDistance(q, b); }
  }

  lemma RectIsDistance(q: Box, b: Box)
    requires Proper(q) && Proper(b)
    ensures IsDistance(q, b, BoxDistRect(q, b))
  {
    hide AxisGap, Clamp;
    forall v, w | Has(q, v) && Has(b, w) ensures BoxDistRect(q, b) <= Between(v, w) {
      AxisGapIsLeast(q.min.x, q.max.x, b.min.x, b.max.x, v.x, w.x);
      AxisGapIsLeast(q.min.y, q.max.y, b.min.y, b.max.y, v.y, w.y);
    }
    AxisGapIsAttained(q.min.x, q.max.x, b.min.x, b.max.x);
    AxisGapIsAttained(q.min.y, q.max.y, b.min.y, b.max.y);
    var v := Vec(Clamp(b.min.x, q.min.x, q.max.x), Clamp(b.min.y, q.min.y, q.max.y));
    var w := Vec(Clamp(v.x, b.min.x, b.max.x), Clamp(v.y, b.min.y, b.max.y));
    assert Has(q, v) && Has(b, w) && Between(v, w) == BoxDistRect(q, b);
  }

  lemma PointIsDistance(q: Box, b: Box)
    requires Proper(q) && Proper(b) && !IsBox(q)
    ensures IsDistance(q, b, BoxDistPoint(Center(q), b))
  {
    hide AxisDist, Clamp, Square;
    var p := q.min;
    assert Center(q) == p;
    forall v, w | Has(q, v) && Has(b, w) ensures BoxDistPoint(p, b) <= Between(v, w) {
      assert v == p;
      AxisDistIs(p.x, b.min.x, b.max.x, w.x);
      AxisDistIs(p.y, b.min.y, b.max.y, w.y);
    }
    AxisDistIs(p.x, b.min.x, b.max.x, 0.0);
    AxisDistIs(p.y, b.min.y, b.max.y, 0.0);
    var w := Vec(Clamp(p.x, b.min.x, b.max.x), Clamp(p.y, b.min.y, b.max.y));
    assert Has(q, p) && Has(b, w) && Between(p, w) == BoxDistPoint(p, b);
  }

  /** There is only one distance, and it is zero exactly if the boxes share a point. */
  lemma DistanceIsOne(q: Box, b: Box, d: real, e: real)
    requires IsDistance(q, b, d) && IsDistance(q, b, e)
    ensures d == e && (d == 0.0 <==> exists v :: Has(q, v) && Has(b, v))
  {
    hide Between, Has;
    var v, w :| Has(q, v) && Has(b, w) && Between(v, w) == d;
    var x, y :| Has(q, x) && Has(b, y) && Between(x, y) == e;
    assert d <= Between(x, y) && e <= Between(v, w);
    BetweenIsZero(v, w);
    if z :| Has(q, z) && Has(b, z) {
      assert d <= Between(z, z);
      BetweenIsZero(z, z);
    }
  }

  lemma BetweenIsZero(v: Vec, w: Vec)
    ensures if v == w then Between(v, w) == 0.0 else Between(v, w) > 0.0
  {
    hide Between, Square;
    BetweenIs(v, w);
    SquareIsPositive(v.x - w.x);
    SquareIsPositive(v.y - w.y);
  }

  lemma BetweenIs(v: Vec, w: Vec)
    ensures Between(v, w) == Square(v.x - w.x) + Square(v.y - w.y)
  {}

  lemma SquareIsPositive(x: real)
    ensures if x == 0.0 then Square(x) == 0.0 else Square(x) > 0.0
  {
    hide Square;
    if x > 0.0 {
      PositiveSquare(x);
    } else if x < 0.0 {
      PositiveSquare(-x);
      SameSquare(x, -x);
    } else {
      ZeroSquare();
    }
  }

  function Times(x: real, y: real): real { x * y }

  lemma PositiveProduct(x: real, y: real)
    requires x > 0.0 && y > 0.0
    ensures Times(x, y) > 0.0
  {}

  lemma PositiveSquare(x: real)
    requires x > 0.0
    ensures Square(x) > 0.0
  {
    PositiveProduct(x, x);
    assert Square(x) == Times(x, x);
  }

  lemma SameSquare(x: real, y: real)
    requires y == -x
    ensures Square(x) == Square(y)
  {}

  // ----- the queue

  /** A queued child, an item or a node, with its distance. */
  datatype QueueItem<T> = QueueItem(node: Tree<T>, dist: real)

  ghost predicate QueuedOk<T>(q: Box, x: QueueItem<T>)
    requires q.Box?
  {
    && Proper(x.node.box) && x.dist == Dist(q, x.node.box)
    && (x.node.Node? ==> Ok(x.node))
  }

  ghost function Nodes<T>(queue: seq<QueueItem<T>>): seq<Tree<T>>
    decreases |queue|
  {
    if queue == [] then [] else Nodes(queue[..|queue| - 1]) + [queue[|queue| - 1].node]
  }

  lemma {:induction false} NodesAt<T>(queue: seq<QueueItem<T>>)
    ensures |Nodes(queue)| == |queue|
    ensures forall i :: 0 <= i < |queue| ==> Nodes(queue)[i] == queue[i].node
    decreases |queue|
  {
    if queue != [] { NodesAt(queue[..|queue| - 1]); }
  }

  /** The items still reachable from the queue. */
  ghost function Pending<T>(queue: seq<QueueItem<T>>): multiset<Entry<T>> {
    BagOf(Nodes(queue))
  }

  lemma NodesWithout<T>(queue: seq<QueueItem<T>>, i: nat)
    requires i < |queue|
    ensures |Nodes(queue)| == |queue| && Nodes(queue)[i] == queue[i].node
    ensures Nodes(Without(queue, i)) == Without(Nodes(queue), i)
  {
    hide Nodes;
    var rest := Without(queue, i);
    NodesAt(queue);
    NodesAt(rest);
    forall k | 0 <= k < |rest| ensures Nodes(rest)[k] == Without(Nodes(queue), i)[k] {
      assert rest[k] == queue[if k < i then k else k + 1];
    }
  }

  lemma PendingPop<T>(queue: seq<QueueItem<T>>, i: nat)
    requires i < |queue|
    ensures Pending(queue) == Pending(Without(queue, i)) + Bag(queue[i].node)
  {
    hide Bag, BagOf, Nodes, Without;
    NodesWithout(queue, i);
    BagWithout(Nodes(queue), i);
  }

  ghost predicate AllQueuedOk<T>(q: Box, queue: seq<QueueItem<T>>)
    requires q.Box?
  {
    forall x :: x in queue ==> QueuedOk(q, x)
  }

  /** Nothing queued is nearer than `d`. */
  ghost predicate NotNearer<T>(queue: seq<QueueItem<T>>, d: real) {
    forall x :: x in queue ==> d <= x.dist
  }

  /** The front of a priority queue: some element of least distance. */
  method Peek<T>(queue: seq<QueueItem<T>>) returns (top: nat)
    requires queue != []
    ensures top < |queue| && NotNearer(queue, queue[top].dist)
  {
    top := 0;
    for i := 0 to |queue|
      invariant top < |queue| && forall j :: 0 <= j < i ==> queue[top].dist <= queue[j].dist
    {
      if queue[i].dist < queue[top].dist { top := i; }
    }
  }

  /** Everything reachable from the queue is at least as far as the queue. */
  lemma PendingNotNearer<T>(q: Box, queue: seq<QueueItem<T>>, d: real, e: Entry<T>)
    requires q.Box? && AllQueuedOk(q, queue) && NotNearer(queue, d) && e in Pending(queue)
    ensures Proper(e.box) && d <= Dist(q, e.box)
  {
    hide Ok, Dist, Contains, Bag;
    InBagOf(Nodes(queue), e);
    NodesAt(queue);
    var k :| k in Nodes(queue) && e in Bag(k);
    var i :| 0 <= i < |queue| && queue[i].node == k;
    assert queue[i] in queue;
    if k.Node? {
      StoredInsideBox(k, e);
      DistMonotone(q, k.box, e.box);
    } else {
      BagOfItem(k, e);
    }
  }

  lemma BagOfItem<T>(k: Tree<T>, e: Entry<T>)
    requires k.Item? && e in Bag(k)
    ensures e == Entry(k.box, k.item)
  {}

  // ----- the search

  datatype Hit<T> = Hit(entry: Entry<T>, dist: real)

  ghost function Entries<T>(hits: seq<Hit<T>>): multiset<Entry<T>>
    decreases |hits|
  {
    if hits == [] then multiset{} else Entries(hits[..|hits| - 1]) + multiset{hits[|hits| - 1].entry}
  }

  /** Hits carry their box distance and come in order of it. */
  ghost predicate InOrder<T>(q: Box, hits: seq<Hit<T>>)
    requires q.Box?
  {
    && (forall h :: h in hits ==> Proper(h.entry.box) && h.dist == Dist(q, h.entry.box))
    && (forall i, j :: 0 <= i < j < |hits| ==> hits[i].dist <= hits[j].dist)
  }

  /** The state between two pops: hits in order, all of them no farther than anything queued, and
      hits and queue together hold everything the tree holds. */
  ghost predicate SearchOk<T>(root: Tree<T>, q: Box, hits: seq<Hit<T>>, queue: seq<QueueItem<T>>)
    requires q.Box?
  {
    && InOrder(q, hits) && AllQueuedOk(q, queue)
    && (forall h, x :: h in hits && x in queue ==> h.dist <= x.dist)
    && Entries(hits) + Pending(queue) == Bag(root)
  }

  /** Emitting the nearest item keeps the state. */
  lemma EmitKeeps<T>(root: Tree<T>, q: Box, hits: seq<Hit<T>>, queue: seq<QueueItem<T>>, top: nat)
    requires q.Box? && SearchOk(root, q, hits, queue)
    requires top < |queue| && NotNearer(queue, queue[top].dist) && queue[top].node.Item?
    ensures var x := queue[top];
            SearchOk(root, q, hits + [Hit(Entry(x.node.box, x.node.item), x.dist)], Without(queue, top))
  {
    hide Ok, Dist, Bag, BagOf, Pending, Entries, InOrder;
    var x := queue[top];
    var h := Hit(Entry(x.node.box, x.node.item), x.dist);
    assert x in queue;
    assert QueuedOk(q, x);
    PendingPop(queue, top);
    EntriesSnoc(hits, h);
    assert Bag(x.node) == multiset{h.entry} by { ItemBag(x.node); }
    assert forall y :: y in Without(queue, top) ==> y in queue;
    assert forall g :: g in hits ==> g.dist <= h.dist;
    InOrderSnoc(q, hits, h);
    SumSwap(Entries(hits), multiset{h.entry}, Pending(Without(queue, top)));
    SumFlip(Pending(Without(queue, top)), multiset{h.entry});
  }

  lemma ItemBag<T>(k: Tree<T>)
    requires k.Item?
    ensures Bag(k) == multiset{Entry(k.box, k.item)}
  {}

  lemma EntriesSnoc<T>(hits: seq<Hit<T>>, h: Hit<T>)
    ensures Entries(hits + [h]) == Entries(hits) + multiset{h.entry}
  {
    assert (hits + [h])[..|hits|] == hits;
  }

  lemma InOrderSnoc<T>(q: Box, hits: seq<Hit<T>>, h: Hit<T>)
    requires q.Box? && InOrder(q, hits) && Proper(h.entry.box) && h.dist == Dist(q, h.entry.box)
    requires forall g :: g in hits ==> g.dist <= h.dist
    ensures InOrder(q, hits + [h])
  {
    hide Dist;
    var all := hits + [h];
    forall i, j | 0 <= i < j < |all| ensures all[i].dist <= all[j].dist {
      if j == |hits| { assert all[i] in hits; }
    }
  }

  lemma SumFlip<E>(a: multiset<E>, b: multiset<E>)
    ensures a + b == b + a
  {}

  /** Replacing the nearest node by its children keeps the state. */
  lemma ExpandKeeps<T>(root: Tree<T>, q: Box, hits: seq<Hit<T>>, queue: seq<QueueItem<T>>, node: Tree<T>,
                       pushed: seq<QueueItem<T>>)
    requires q.Box? && node.Node? && Ok(node)
    requires InOrder(q, hits) && AllQueuedOk(q, queue)
    requires forall h, x :: h in hits && x in queue ==> h.dist <= x.dist
    requires forall h :: h in hits ==> node.kids == [] || (node.box.Box? && h.dist <= Dist(q, node.box))
    requires Entries(hits) + Pending(queue) + Bag(node) == Bag(root)
    requires |pushed| == |queue| + |node.kids| && pushed[..|queue|] == queue
    requires forall i :: 0 <= i < |node.kids| ==>
               node.kids[i].box.Box? && pushed[|queue| + i] == QueueItem(node.kids[i], Dist(q, node.kids[i].box))
    ensures SearchOk(root, q, hits, pushed)
  {
    hide Ok, Dist, BagOf, Entries, Bag, Contains;
    forall x | x in pushed
      ensures QueuedOk(q, x)
      ensures forall h :: h in hits ==> h.dist <= x.dist
    {
      var j :| 0 <= j < |pushed| && pushed[j] == x;
      if j < |queue| {
        assert pushed[..|queue|][j] == x;
        assert x in queue;
      } else {
        var i := j - |queue|;
        KidProper(node, i);
        KidIsOk(node, i);
        DistMonotone(q, node.box, node.kids[i].box);
      }
    }
    PushedPending(queue, node, pushed);
  }

  lemma KidProper<T>(n: Tree<T>, i: nat)
    requires n.Node? && Ok(n) && i < |n.kids|
    ensures Proper(n.kids[i].box) && Contains(n.box, n.kids[i].box) && n.box.Box?
  {
    hide Extend, Contains;
    KidIsOk(n, i);
    KidInUnion(n.kids, n.kids[i]);
    OkIsBoxed(n);
    BoxedUnion(n.kids);
    if !n.leaf { NodeProper(n.kids[i]); }
  }

  lemma {:induction false} NodeProper<T>(n: Tree<T>)
    requires n.Node? && Ok(n) && n.kids != []
    ensures Proper(n.box)
    decreases n
  {
    KidIsOk(n, 0);
    if !n.leaf { NodeProper(n.kids[0]); }
    KidInUnion(n.kids, n.kids[0]);
  }

  lemma PushedNodes<T>(queue: seq<QueueItem<T>>, node: Tree<T>, pushed: seq<QueueItem<T>>)
    requires node.Node? && |pushed| == |queue| + |node.kids| && pushed[..|queue|] == queue
    requires forall i :: 0 <= i < |node.kids| ==> pushed[|queue| + i].node == node.kids[i]
    ensures Nodes(pushed) == Nodes(queue) + node.kids
  {
    hide Nodes;
    NodesAt(queue);
    NodesAt(pushed);
    var n := |queue|;
    assert forall i :: 0 <= i < n ==> pushed[i] == pushed[..n][i];
    assert forall j :: 0 <= j < |node.kids| ==> Nodes(pushed)[n + j] == node.kids[j];
    assert Nodes(pushed) == Nodes(queue) + node.kids;
  }

  lemma PushedPending<T>(queue: seq<QueueItem<T>>, node: Tree<T>, pushed: seq<QueueItem<T>>)
    requires node.Node? && |pushed| == |queue| + |node.kids| && pushed[..|queue|] == queue
    requires forall i :: 0 <= i < |node.kids| ==> pushed[|queue| + i].node == node.kids[i]
    ensures Pending(pushed) == Pending(queue) + Bag(node)
  {
    PushedNodes(queue, node, pushed);
    UnionAppend(Nodes(queue), node.kids);
  }

  method PushKids<T>(queue: seq<QueueItem<T>>, node: Tree<T>, q: Box) returns (pushed: seq<QueueItem<T>>)
    requires q.Box? && node.Node? && Ok(node)
    ensures |pushed| == |queue| + |node.kids| && pushed[..|queue|] == queue
    ensures forall i :: 0 <= i < |node.kids| ==>
              node.kids[i].box.Box? && pushed[|queue| + i] == QueueItem(node.kids[i], Dist(q, node.kids[i].box))
  {
    hide Ok, Dist;
    OkBoxes(node);
    pushed := queue;
    for i := 0 to |node.kids|
      invariant |pushed| == |queue| + i && pushed[..|queue|] == queue
      invariant forall j :: 0 <= j < i ==> pushed[|queue| + j] == QueueItem(node.kids[j], Dist(q, node.kids[j].box))
    {
      pushed := pushed + [QueueItem(node.kids[i], Dist(q, node.kids[i].box))];
    }
  }

  lemma OkBoxes<T>(n: Tree<T>)
    requires n.Node? && Ok(n)
    ensures forall i :: 0 <= i < |n.kids| ==> n.kids[i].box.Box?
  {
    OkIsBoxed(n);
  }

  /** The number of nodes still to open. */
  ghost function Opens<T>(t: Tree<T>): nat
    decreases t, 0
  {
    if t.Item? then 0 else 1 + OpensOf(t.kids)
  }

  ghost function OpensOf<T>(f: seq<Tree<T>>): nat
    decreases f, 0
  {
    if f == [] then 0 else OpensOf(f[..|f| - 1]) + Opens(f[|f| - 1])
  }

  lemma {:induction false} OpensAppend<T>(a: seq<Tree<T>>, b: seq<Tree<T>>)
    ensures OpensOf(a + b) == OpensOf(a) + OpensOf(b)
    decreases |b|
  {
    if b == [] {
      assert a + b == a;
    } else {
      var m := |b| - 1;
      assert (a + b)[..|a + b| - 1] == a + b[..m];
      OpensAppend(a, b[..m]);
    }
  }

  lemma OpensWithout<T>(f: seq<Tree<T>>, i: nat)
    requires i < |f|
    ensures OpensOf(f) == OpensOf(Without(f, i)) + Opens(f[i])
  {
    hide Opens, OpensOf;
    assert f == f[..i] + ([f[i]] + f[i + 1..]);
    OpensAppend(f[..i], [f[i]] + f[i + 1..]);
    OpensAppend([f[i]], f[i + 1..]);
    OpensAppend(f[..i], f[i + 1..]);
    OpensOne(f[i]);
  }

  lemma OpensOne<T>(t: Tree<T>)
    ensures OpensOf([t]) == Opens(t)
  {
    hide Opens;
    assert [t][..0] == [];
  }

  lemma QueueOpens<T>(queue: seq<QueueItem<T>>, top: nat)
    requires top < |queue|
    ensures OpensOf(Nodes(queue)) == OpensOf(Nodes(Without(queue, top))) + Opens(queue[top].node)
  {
    hide Opens, OpensOf, Nodes, Without;
    NodesWithout(queue, top);
    OpensWithout(Nodes(queue), top);
  }

  lemma PushedOpens<T>(queue: seq<QueueItem<T>>, node: Tree<T>, pushed: seq<QueueItem<T>>)
    requires node.Node? && |pushed| == |queue| + |node.kids| && pushed[..|queue|] == queue
    requires forall i :: 0 <= i < |node.kids| ==> pushed[|queue| + i].node == node.kids[i]
    ensures OpensOf(Nodes(pushed)) + 1 == OpensOf(Nodes(queue)) + Opens(node)
  {
    PushedNodes(queue, node, pushed);
    OpensAppend(Nodes(queue), node.kids);
  }

  /** The callback did not stop the search at any of these. */
  ghost predicate NoStop<T>(hits: seq<Hit<T>>, stop: T -> bool) {
    forall h :: h in hits ==> !stop(h.entry.item)
  }

  /** What nearest first means, on points: each hit has the distance of its rectangle, they come in order of it,
      and nothing left has a point nearer to the query. */
  ghost predicate NearestFirst<T>(q: Box, hits: seq<Hit<T>>, rest: multiset<Entry<T>>) {
    && (forall h :: h in hits ==> IsDistance(q, h.entry.box, h.dist))
    && (forall i, j :: 0 <= i < j < |hits| ==> hits[i].dist <= hits[j].dist)
    && (forall h, e :: h in hits && e in rest ==> NoNearer(q, e.box, h.dist))
  }

  lemma OrderIsByDistance<T>(q: Box, hits: seq<Hit<T>>, rest: multiset<Entry<T>>)
    requires Proper(q) && InOrder(q, hits)
    requires forall h, e :: h in hits && e in rest ==> Proper(e.box) && h.dist <= Dist(q, e.box)
    ensures NearestFirst(q, hits, rest)
  {
    hide Dist, Has, Between;
    forall h | h in hits ensures IsDistance(q, h.entry.box, h.dist) { DistIsDistance(q, h.entry.box); }
    forall h, e | h in hits && e in rest ensures NoNearer(q, e.box, h.dist) { DistIsDistance(q, e.box); }
  }

  /** Items nearest first. The hits come in order of box distance, each stored item at most once;
      whatever was not emitted is at least as far as everything that was; and unless the callback
      stopped the search nothing was left. */
  method Nearest<T>(root: Tree<T>, q: Box, stop: T -> bool)
    returns (hits: seq<Hit<T>>, keepOn: bool, ghost rest: multiset<Entry<T>>)
    requires RootOk(root) && q.Box?
    ensures InOrder(q, hits) && Entries(hits) + rest == Bag(root)
    ensures forall h, e :: h in hits && e in rest ==> Proper(e.box) && h.dist <= Dist(q, e.box)
    ensures Proper(q) ==> NearestFirst(q, hits, rest)
    ensures keepOn ==> rest == multiset{}
    ensures !keepOn ==> hits != [] && stop(hits[|hits| - 1].entry.item)
    ensures NoStop(if keepOn then hits else hits[..|hits| - 1], stop)
  {
    hide Ok, Dist, Bag, BagOf, Pending, Entries, Without, Opens, OpensOf, Nodes;
    assert root.Node? by { OkIsNode(root); }
    hits, keepOn := [], true;
    var queue: seq<QueueItem<T>> := [];
    var node := Some(root);
    EmptyQueue<T>();
    while node.Some?
      invariant node.Some? ==> Opening(root, q, hits, queue, node.value)
      invariant node.None? ==> SearchOk(root, q, hits, queue) && queue == []
      invariant NoStop(hits, stop)
      decreases node.Some?, if node.Some? then OpensOf(Nodes(queue)) + Opens(node.value) else 0
    {
      var pushed := PushKids(queue, node.value, q);
      ExpandKeeps(root, q, hits, queue, node.value, pushed);
      PushedOpens(queue, node.value, pushed);
      ghost var left := OpensOf(Nodes(pushed));
      queue := pushed;
      var top: nat := 0;
      if queue != [] { top := Peek(queue); }
      while queue != [] && queue[top].node.Item?
        invariant SearchOk(root, q, hits, queue)
        invariant queue != [] ==> top < |queue| && NotNearer(queue, queue[top].dist)
        invariant OpensOf(Nodes(queue)) == left && NoStop(hits, stop)
        decreases |queue|
      {
        var x := queue[top];
        EmitKeeps(root, q, hits, queue, top);
        QueueOpens(queue, top);
        ItemOpens(x.node);
        WithoutLength(queue, top);
        ghost var seen := hits;
        hits := hits + [Hit(Entry(x.node.box, x.node.item), x.dist)];
        queue := Without(queue, top);
        if stop(x.node.item) {
          keepOn, rest := false, Pending(queue);
          assert hits[..|hits| - 1] == seen;
          LeftoverIsFarther(root, q, hits, queue);
          if Proper(q) { OrderIsByDistance(q, hits, rest); }
          return;
        }
        if queue != [] { top := Peek(queue); }
      }
      if queue == [] {
        node := None;
      } else {
        QueueOpens(queue, top);
        PopNode(root, q, hits, queue, top);
        node := Some(queue[top].node);
        queue := Without(queue, top);
      }
    }
    rest := Pending(queue);
    EmptyQueue<T>();
    if Proper(q) { OrderIsByDistance(q, hits, rest); }
  }

  /** A node is about to be opened: nothing found so far is farther than it. */
  ghost predicate Opening<T>(root: Tree<T>, q: Box, hits: seq<Hit<T>>, queue: seq<QueueItem<T>>, node: Tree<T>)
    requires q.Box?
  {
    && node.Node? && Ok(node)
    && InOrder(q, hits) && AllQueuedOk(q, queue)
    && (forall h, x :: h in hits && x in queue ==> h.dist <= x.dist)
    && (forall h :: h in hits ==> node.kids == [] || (node.box.Box? && h.dist <= Dist(q, node.box)))
    && Entries(hits) + Pending(queue) + Bag(node) == Bag(root)
  }

  lemma PopNode<T>(root: Tree<T>, q: Box, hits: seq<Hit<T>>, queue: seq<QueueItem<T>>, top: nat)
    requires q.Box? && SearchOk(root, q, hits, queue) && top < |queue| && queue[top].node.Node?
    ensures Opening(root, q, hits, Without(queue, top), queue[top].node)
  {
    hide Ok, Dist, Bag, BagOf, Entries;
    var x := queue[top];
    assert x in queue;
    assert QueuedOk(q, x);
    PendingPop(queue, top);
    assert forall y :: y in Without(queue, top) ==> y in queue;
    hide Pending, Without;
    SumSwap(Entries(hits), Pending(Without(queue, top)), Bag(x.node));
  }

  lemma SumSwap<E>(a: multiset<E>, b: multiset<E>, c: multiset<E>)
    ensures a + b + c == a + (b + c)
  {}

  lemma LeftoverIsFarther<T>(root: Tree<T>, q: Box, hits: seq<Hit<T>>, queue: seq<QueueItem<T>>)
    requires q.Box? && SearchOk(root, q, hits, queue)
    ensures forall h, e :: h in hits && e in Pending(queue) ==> Proper(e.box) && h.dist <= Dist(q, e.box)
  {
    hide Ok, Dist, Pending, Entries, Bag;
    forall h, e | h in hits && e in Pending(queue) ensures Proper(e.box) && h.dist <= Dist(q, e.box) {
      PendingNotNearer(q, queue, h.dist, e);
    }
  }

  lemma EmptyQueue<T>()
    ensures Pending<T>([]) == multiset{} && Entries<T>([]) == multiset{}
  {}

  lemma ItemOpens<T>(t: Tree<T>)
    requires t.Item?
    ensures Opens(t) == 0
  {}
}
