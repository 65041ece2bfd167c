/** R-tree nodes as values: bounding boxes, the shape every tree keeps, and what a tree stores. */
module Rtree {
  import opened Objects

  /** The most children a node keeps, and the fewest on either side of a split. */
  const MAX_ENTRIES := 13
  const MIN_ENTRIES := 6

  // ----- boxes

  /** A bounding box; NoBox is the box of no rectangle at all (+Inf to -Inf). */
  datatype Box = NoBox | Box(min: Vec, max: Vec)

  function Least(a: real, b: real): real { if b < a then b else a }

  function Most(a: real, b: real): real { if b > a then b else a }

  /** The smallest box around both. */
  function Extend(a: Box, b: Box): Box {
    if a.NoBox? then b
    else if b.NoBox? then a
    else Box(Vec(Least(a.min.x, b.min.x), Least(a.min.y, b.min.y)),
             Vec(Most(a.max.x, b.max.x), Most(a.max.y, b.max.y)))
  }

  predicate Contains(a: Box, b: Box) {
    b.NoBox? || (a.Box? && a.min.x <= b.min.x && a.min.y <= b.min.y && b.max.x <= a.max.x && b.max.y <= a.max.y)
  }

  /** Closed boxes with a point in common. */
  predicate Intersects(a: Box, b: Box) {
    a.Box? && b.Box?
    && a.min.x <= b.max.x && b.min.x <= a.max.x && a.min.y <= b.max.y && b.min.y <= a.max.y
  }

  predicate Proper(b: Box) {
    b.Box? && b.min.x <= b.max.x && b.min.y <= b.max.y
  }

  // ----- what they say of points

  predicate Has(b: Box, v: Vec) {
    b.Box? && b.min.x <= v.x <= b.max.x && b.min.y <= v.y <= b.max.y
  }

  lemma ContainsIff(a: Box, b: Box)
    requires Proper(b)
    ensures Contains(a, b) <==> forall v :: Has(b, v) ==> Has(a, v)
  {
    if forall v :: Has(b, v) ==> Has(a, v) {
      assert Has(b, b.min) && Has(b, b.max);
    }
  }

  lemma IntersectsIff(a: Box, b: Box)
    requires Proper(a) && Proper(b)
    ensures Intersects(a, b) <==> exists v :: Has(a, v) && Has(b, v)
  {
    if Intersects(a, b) {
      var v := Vec(Most(a.min.x, b.min.x), Most(a.min.y, b.min.y));
      assert Has(a, v) && Has(b, v);
    }
  }

  /** The union of two boxes is the least box around them. */
  lemma ExtendIsLeast(a: Box, b: Box, c: Box)
    ensures Contains(c, Extend(a, b)) <==> Contains(c, a) && Contains(c, b)
  {}

  // ----- laws

  lemma ExtendLaws(a: Box, b: Box, c: Box)
    ensures Extend(a, b) == Extend(b, a)
    ensures Extend(Extend(a, b), c) == Extend(a, Extend(b, c))
    ensures Extend(a, a) == a
  {}

  lemma ExtendContains(a: Box, b: Box)
    ensures Contains(Extend(a, b), a) && Contains(Extend(a, b), b)
  {}

  lemma ContainsTrans(a: Box, b: Box, c: Box)
    requires Contains(a, b) && Contains(b, c)
    ensures Contains(a, c)
  {}

  // ----- trees

  /** An item, or a node above items (a leaf) or above other nodes. */
  datatype Tree<T> =
    | Item(box: Box, item: T)
    | Node(box: Box, height: nat, leaf: bool, kids: seq<Tree<T>>)

  /** A node with other children and another box. */
  function Rebuilt<T>(n: Tree<T>, kids: seq<Tree<T>>, box: Box): Tree<T>
    requires n.Node?
  {
    Node(box, n.height, n.leaf, kids)
  }

  /** A stored item together with its rectangle. */
  datatype Entry<T> = Entry(box: Box, item: T)

  /** The union of the children's boxes, accumulated left to right. */
  function Union<T>(kids: seq<Tree<T>>): Box
    decreases |kids|
  {
    if kids == [] then NoBox else Extend(Union(kids[..|kids| - 1]), kids[|kids| - 1].box)
  }

  /** A child that fits under a parent of the given height. */
  ghost predicate KidOk<T>(k: Tree<T>, height: nat, leaf: bool)
    decreases k, 2
  {
    if leaf then k.Item? && Proper(k.box)
    else Ok(k) && k.height + 1 == height && k.kids != []
  }

  ghost predicate KidsOk<T>(n: Tree<T>)
    requires n.Node?
    decreases n, 0
  {
    forall k :: k in n.kids ==> KidOk(k, n.height, n.leaf)
  }

  /** The shape of every node: a leaf exactly at height one, children one level below and not empty,
      at most MAX_ENTRIES of them, and a box that is exactly the union of theirs. */
  ghost predicate Ok<T>(n: Tree<T>)
    decreases n, 1
  {
    && n.Node?
    && n.height >= 1 && (n.leaf <==> n.height == 1)
    && |n.kids| <= MAX_ENTRIES
    && n.box == Union(n.kids)
    && KidsOk(n)
  }

  /** A whole tree: only the root may be empty, and then it is a leaf. */
  ghost predicate RootOk<T>(n: Tree<T>) {
    Ok(n) && (n.kids == [] ==> n.leaf)
  }

  lemma OkIsNode<T>(n: Tree<T>)
    requires Ok(n)
    ensures n.Node?
  {}

  /** What the shape says of one child. */
  lemma KidIsOk<T>(n: Tree<T>, i: nat)
    requires n.Node? && Ok(n) && i < |n.kids|
    ensures n.leaf ==> n.kids[i].Item? && Proper(n.kids[i].box)
    ensures !n.leaf ==> n.kids[i].Node? && Ok(n.kids[i]) && n.kids[i].height + 1 == n.height && n.kids[i].kids != []
  {
    hide Union;
    var k := n.kids[i];
    assert k in n.kids;
    assert KidOk(k, n.height, n.leaf);
    if !n.leaf { assert Ok(k); }
  }

  function EmptyLeaf<T>(): Tree<T> {
    Node(NoBox, 1, true, [])
  }

  /** The multiset of stored items. */
  ghost function Bag<T>(t: Tree<T>): multiset<Entry<T>>
    decreases t, 0
  {
    match t
    case Item(box, item) => multiset{Entry(box, item)}
    case Node(_, _, _, kids) => BagOf(kids)
  }

  ghost function BagOf<T>(kids: seq<Tree<T>>): multiset<Entry<T>>
    decreases kids, 0
  {
    if kids == [] then multiset{} else BagOf(kids[..|kids| - 1]) + Bag(kids[|kids| - 1])
  }

  // ----- unions and bags do not depend on order

  function Without<T>(s: seq<T>, j: nat): seq<T>
    requires j < |s|
  {
    s[..j] + s[j + 1..]
  }

  lemma {:induction false} UnionWithout<T>(s: seq<Tree<T>>, j: nat)
    requires j < |s|
    ensures Union(s) == Extend(Union(Without(s, j)), s[j].box)
    decreases |s|
  {
    var n := |s| - 1;
    if j == n {
      assert Without(s, j) == s[..n];
    } else {
      var w := Without(s, j);
      assert w[..|w| - 1] == Without(s[..n], j) && w[|w| - 1] == s[n];
      UnionWithout(s[..n], j);
      var u := Union(Without(s[..n], j));
      ExtendLaws(u, s[j].box, s[n].box);
      ExtendLaws(u, s[n].box, s[j].box);
      ExtendLaws(s[j].box, s[n].box, NoBox);
    }
  }

  lemma BagSnoc<T>(s: seq<Tree<T>>, t: Tree<T>)
    ensures BagOf(s + [t]) == BagOf(s) + Bag(t)
  {
    hide Bag;
    assert (s + [t])[..|s|] == s;
  }

  lemma {:induction false} BagWithout<T>(s: seq<Tree<T>>, j: nat)
    requires j < |s|
    ensures BagOf(s) == BagOf(Without(s, j)) + Bag(s[j])
    decreases |s|
  {
    hide Bag, BagOf;
    var n := |s| - 1;
    var init := s[..n];
    assert s == init + [s[n]];
    BagSnoc(init, s[n]);
    if j == n {
      assert Without(s, j) == init;
    } else {
      BagWithout(init, j);
      BagSnoc(Without(init, j), s[n]);
      assert Without(s, j) == Without(init, j) + [s[n]];
    }
  }

  lemma MultisetWithout<T>(s: seq<T>, j: nat)
    requires j < |s|
    ensures multiset(Without(s, j)) == multiset(s) - multiset{s[j]}
  {
    assert s == s[..j] + [s[j]] + s[j + 1..];
  }

  lemma {:induction false} SamePermutation<T>(s: seq<Tree<T>>, t: seq<Tree<T>>)
    requires multiset(s) == multiset(t)
    ensures Union(s) == Union(t) && BagOf(s) == BagOf(t)
    decreases |s|
  {
    hide Union, BagOf, Bag, Without;
    if s == [] {
      assert |t| == |multiset(t)|;
      assert t == [];
    } else {
      assert s[0] in multiset(t);
      var j :| 0 <= j < |t| && t[j] == s[0];
      MultisetWithout(s, 0);
      MultisetWithout(t, j);
      WithoutLength(s, 0);
      SamePermutation(Without(s, 0), Without(t, j));
      UnionWithout(s, 0);
      BagWithout(s, 0);
      UnionWithout(t, j);
      BagWithout(t, j);
    }
  }

  lemma WithoutLength<T>(s: seq<T>, j: nat)
    requires j < |s|
    ensures |Without(s, j)| == |s| - 1
  {}

  lemma {:induction false} UnionAppend<T>(a: seq<Tree<T>>, b: seq<Tree<T>>)
    ensures Union(a + b) == Extend(Union(a), Union(b))
    ensures BagOf(a + b) == BagOf(a) + BagOf(b)
    decreases |b|
  {
    if b == [] {
      assert a + b == a;
    } else {
      var m := |b| - 1;
      assert (a + b)[..|a + b| - 1] == a + b[..m] && (a + b)[|a + b| - 1] == b[m];
      UnionAppend(a, b[..m]);
      ExtendLaws(Union(a), Union(b[..m]), b[m].box);
    }
  }

  /** Replacing one child: the union and the bag change as that child does. */
  lemma ReplaceKid<T>(s: seq<Tree<T>>, i: nat, k: Tree<T>)
    requires i < |s|
    ensures Union(s[i := k]) == Extend(Union(Without(s, i)), k.box)
    ensures BagOf(s[i := k]) == BagOf(Without(s, i)) + Bag(k)
  {
    assert Without(s[i := k], i) == Without(s, i);
    UnionWithout(s[i := k], i);
    BagWithout(s[i := k], i);
  }

  lemma KidInUnion<T>(s: seq<Tree<T>>, k: Tree<T>)
    requires k in s
    ensures Contains(Union(s), k.box)
  {
    var j :| 0 <= j < |s| && s[j] == k;
    UnionWithout(s, j);
    ExtendContains(Union(Without(s, j)), k.box);
  }

  lemma {:induction false} InBagOf<T>(s: seq<Tree<T>>, e: Entry<T>)
    ensures e in BagOf(s) <==> exists k :: k in s && e in Bag(k)
    decreases |s|
  {
    hide Bag;
    if s != [] {
      var n := |s| - 1;
      InBagOf(s[..n], e);
      assert forall k :: k in s <==> k in s[..n] || k == s[n];
      assert BagOf(s) == BagOf(s[..n]) + Bag(s[n]);
      if e in BagOf(s) {
        var k :| k in s && e in Bag(k);
      }
      if k :| k in s && e in Bag(k) {
        assert k in s[..n] || k == s[n];
      }
    }
  }

  /** Everything stored below a node lies inside its box, and stored rectangles are proper. */
  lemma {:induction false} StoredInsideBox<T>(n: Tree<T>, e: Entry<T>)
    requires Ok(n) && e in Bag(n)
    ensures Contains(n.box, e.box) && Proper(e.box)
    decreases n
  {
    InBagOf(n.kids, e);
    var k :| k in n.kids && e in Bag(k);
    KidInUnion(n.kids, k);
    assert KidOk(k, n.height, n.leaf);
    if !n.leaf {
      StoredInsideBox(k, e);
      ContainsTrans(n.box, k.box, e.box);
    }
  }
}
