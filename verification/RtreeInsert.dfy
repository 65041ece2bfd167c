/** Insertion: choose a subtree, add the item, split overflowing nodes up the path, widen the boxes above. */
module RtreeInsert {
  import opened Bytes
  import opened Objects
  import opened Rtree
  import opened RtreeMeasures
  import RtreeSort
  import opened RtreeTies

  ghost predicate Boxed<T>(kids: seq<Tree<T>>) {
    forall k :: k in kids ==> k.box.Box?
  }

  lemma BoxedUnion<T>(kids: seq<Tree<T>>)
    requires kids != [] && Boxed(kids)
    ensures Union(kids).Box?
    decreases |kids|
  {
    var n := |kids| - 1;
    assert kids[n] in kids;
    assert Union(kids) == Extend(Union(kids[..n]), kids[n].box);
  }

  lemma {:induction false} OkIsBoxed<T>(n: Tree<T>)
    requires n.Node? && KidsOk(n)
    ensures Boxed(n.kids)
    decreases n
  {
    forall k | k in n.kids ensures k.box.Box? {
      assert KidOk(k, n.height, n.leaf);
      if !n.leaf {
        assert Ok(k);
        OkIsBoxed(k);
        BoxedUnion(k.kids);
      }
    }
  }

  // ----- choosing where to go down

  /** What each child must grow by, and its area. */
  ghost function Enlargements<T>(kids: seq<Tree<T>>, b: Box): (r: seq<real>)
    requires b.Box? && Boxed(kids)
    ensures |r| == |kids|
  {
    seq(|kids|, i requires 0 <= i < |kids| && BoxAt(kids, i) => Enlargement(b, kids[i].box))
  }

  ghost function Areas<T>(kids: seq<Tree<T>>): (r: seq<real>)
    requires Boxed(kids)
    ensures |r| == |kids|
  {
    seq(|kids|, i requires 0 <= i < |kids| && BoxAt(kids, i) => Area(kids[i].box))
  }

  ghost predicate BoxAt<T>(kids: seq<Tree<T>>, i: int)
    requires 0 <= i < |kids| && Boxed(kids)
    ensures kids[i].box.Box?
  {
    assert kids[i] in kids;
    true
  }

  /** The loop of chooseSubtree: a child that grows least, and which of several. */
  method ChooseChild<T>(kids: seq<Tree<T>>, b: Box) returns (target: nat)
    requires kids != [] && b.Box? && Boxed(kids)
    ensures target < |kids|
    ensures forall j :: 0 <= j < |kids| ==>
              kids[target].box.Box? && kids[j].box.Box?
              && Enlargement(b, kids[target].box) <= Enlargement(b, kids[j].box)
    ensures Chosen(Enlargements(kids, b), Areas(kids), |kids|, target)
  {
    hide Enlargement, Area, Choosing, Chosen;
    assert forall j :: 0 <= j < |kids| ==> kids[j] in kids;
    ghost var cost, areas := Enlargements(kids, b), Areas(kids);
    assert forall j :: 0 <= j < |kids| ==> cost[j] == Enlargement(b, kids[j].box) && areas[j] == Area(kids[j].box);
    hide Enlargements, Areas;
    target := 0;
    var minEnlargement, minArea := None, None;  // None is +Inf
    ChooseFirst(cost, areas);
    for i := 0 to |kids|
      invariant i == 0 ==> minEnlargement.None? && minArea.None?
      invariant i > 0 ==> target < i && minEnlargement == Some(cost[target]) && minArea.Some?
      invariant i > 0 ==> Choosing(cost, areas, i, target, minArea.value)
    {
      var area := Area(kids[i].box);
      var enlargement := Enlargement(b, kids[i].box);
      if i > 0 { ChooseNext(cost, areas, i, target, minArea.value); }
      if minEnlargement.None? || enlargement < minEnlargement.value {
        minEnlargement := Some(enlargement);
        if minArea.None? || area < minArea.value { minArea := Some(area); }
        target := i;
      } else if enlargement == minEnlargement.value && (minArea.None? || area < minArea.value) {
        minArea := Some(area);
        target := i;
      }
    }
    ChoosingEnds(cost, areas, target, minArea.value);
    assert forall j :: 0 <= j < |kids| ==> cost[target] <= cost[j];
  }

  /** Two children grow alike, and the larger one is taken: a third, which grows more, is smaller than both. */
  lemma TieGoesToLarger<T>(kids: seq<Tree<T>>, b: Box)
    requires |kids| == 3 && b == Box(Vec(0.0, 0.0), Vec(0.0, 0.0))
    requires kids[0].box == Box(Vec(2.0, 0.0), Vec(3.0, 1.0))
    requires kids[1].box == Box(Vec(1.0, 0.0), Vec(4.0, 1.0))
    requires kids[2].box == Box(Vec(1.0, 0.0), Vec(3.0, 1.0))
    ensures Boxed(kids) && Chosen(Enlargements(kids, b), Areas(kids), 3, 1)
    ensures Enlargement(b, kids[1].box) == Enlargement(b, kids[2].box) && Area(kids[1].box) > Area(kids[2].box)
  {
    var cost, areas := Enlargements(kids, b), Areas(kids);
    assert cost == [2.0, 1.0, 1.0] && areas == [1.0, 3.0, 2.0];
    assert Low(cost, 0) && areas[2] >= areas[0];
    assert cost[2] >= cost[1];
    assert Taken(cost, areas, 1);
  }

  // ----- splitting

  datatype Axis = X | Y

  function AxisMin<T>(t: Tree<T>, axis: Axis): real {
    if t.box.NoBox? then 0.0 else if axis.X? then t.box.min.x else t.box.min.y
  }

  ghost predicate SortedAlong<T>(kids: seq<Tree<T>>, axis: Axis) {
    RtreeSort.SortedBy(kids, t => AxisMin(t, axis))
  }

  method SortNodes<T>(kids: seq<Tree<T>>, axis: Axis) returns (r: seq<Tree<T>>)
    ensures |r| == |kids| && multiset(r) == multiset(kids)
    ensures SortedAlong(r, axis)
  {
    if kids == [] { return kids; }
    var a := new Tree<T>[|kids|](i requires 0 <= i < |kids| => kids[i]);
    assert a[..] == kids;
    RtreeSort.Sort(a, 0, a.Length, t => AxisMin(t, axis));
    r := a[..];
    assert a[0..a.Length] == a[..] && kids[0..|kids|] == kids;
  }

  lemma PrefixBoxed<T>(kids: seq<Tree<T>>, i: nat)
    requires Boxed(kids) && 0 < i <= |kids|
    ensures Union(kids[..i]).Box?
  {
    SliceBoxed(kids, 0, i);
    assert kids[0..i] == kids[..i];
    BoxedUnion(kids[..i]);
  }

  /** The margins of the left boxes of more than `lo` and at most `hi` children. */
  function LeftMargins<T>(kids: seq<Tree<T>>, lo: nat, hi: nat): real
    requires lo <= hi <= |kids| && Boxed(kids)
    decreases hi
  {
    if hi == lo then 0.0
    else
      PrefixBoxed(kids, hi);
      LeftMargins(kids, lo, hi - 1) + Margin(Union(kids[..hi]))
  }

  /** What the margin sum comes to: the left boxes of all candidate distributions, but for the right side the
      box of the smallest one each time, because the code never widens it. */
  function DistMargin<T>(kids: seq<Tree<T>>): real
    requires |kids| > 2 * MIN_ENTRIES && Boxed(kids)
  {
    var m, M := MIN_ENTRIES, |kids|;
    PrefixBoxed(kids, m);
    SidesBoxed(kids, M - m);
    LeftMargins(kids, m - 1, M - m) + (M - 2 * m + 1) as real * Margin(Union(kids[M - m..]))
  }

  /** The margin sum over the candidate distributions along one axis, after sorting along it.
      The second loop widens the left box and adds the margin of the right one, as the code does. */
  method AllDistMargin<T>(kids: seq<Tree<T>>, axis: Axis) returns (r: seq<Tree<T>>, margin: real)
    requires |kids| > 2 * MIN_ENTRIES && Boxed(kids)
    ensures |r| == |kids| && multiset(r) == multiset(kids) && SortedAlong(r, axis) && Boxed(r)
    ensures margin == DistMargin(r)
  {
    hide Margin, SortedAlong, Boxed, Union;
    r := SortNodes(kids, axis);
    var m, M := MIN_ENTRIES, |kids|;
    PermutedBoxed(kids, r);
    PrefixBoxed(r, m);
    SidesBoxed(r, M - m);
    var left, right := Union(r[..m]), Union(r[M - m..]);
    margin := Margin(left) + Margin(right);
    assert LeftMargins(r, m - 1, m - 1) == 0.0;
    for i := m to M - m
      invariant left == Union(r[..i]) && left.Box?
      invariant margin == LeftMargins(r, m - 1, i) + Margin(right)
    {
      UnionPrefix(r, i);
      PrefixBoxed(r, i + 1);
      left := Extend(left, r[i].box);
      margin := margin + Margin(left);
    }
    ghost var lefts := LeftMargins(r, m - 1, M - m);
    for i := M - m downto m
      invariant left.Box?
      invariant margin == lefts + (M - m - i + 1) as real * Margin(right)
    {
      left := Extend(left, r[i].box);
      OneMoreTime(M - m - i, Margin(right));
      margin := margin + Margin(right);
    }
  }

  // ----- the margin sum it is meant to be

  lemma SuffixBoxed<T>(kids: seq<Tree<T>>, i: nat)
    requires Boxed(kids) && i < |kids|
    ensures Union(kids[i..]).Box?
  {
    SliceBoxed(kids, i, |kids|);
    assert kids[i..|kids|] == kids[i..];
    BoxedUnion(kids[i..]);
  }

  ghost function RightMargin<T>(kids: seq<Tree<T>>, i: nat): real
    requires Boxed(kids) && i < |kids|
  {
    SuffixBoxed(kids, i);
    Margin(Union(kids[i..]))
  }

  /** The margins of the right boxes that begin with child `lo` to child `hi - 1`. */
  ghost function RightMargins<T>(kids: seq<Tree<T>>, lo: nat, hi: nat): real
    requires lo <= hi <= |kids| && Boxed(kids)
    decreases hi
  {
    if hi == lo then 0.0 else RightMargins(kids, lo, hi - 1) + RightMargin(kids, hi - 1)
  }

  /** The sum falls short of the margins of both sides of all distributions, and is that sum exactly if all right
      boxes have the margin of the smallest one. */
  lemma MarginSumIff<T>(kids: seq<Tree<T>>)
    requires |kids| > 2 * MIN_ENTRIES && Boxed(kids)
    ensures var m, M := MIN_ENTRIES, |kids|;
            var meant := LeftMargins(kids, m - 1, M - m) + RightMargins(kids, m, M - m + 1);
            && DistMargin(kids) <= meant
            && (DistMargin(kids) == meant <==>
                forall i :: m <= i <= M - m ==> RightMargin(kids, i) == RightMargin(kids, M - m))
  {
    hide Margin, Union, Boxed, LeftMargins;
    var m, M := MIN_ENTRIES, |kids|;
    forall i | m <= i <= M - m ensures RightMargin(kids, i) >= RightMargin(kids, M - m) { WiderMargin(kids, i, M - m); }
    var n, r := M - m + 1, RightMargin(kids, M - m);
    RightMarginsAtLeast(kids, m, n, r);
    assert (M - 2 * m + 1) as real == (n - m) as real;
    assert DistMargin(kids) == LeftMargins(kids, m - 1, M - m) + (n - m) as real * r;
    hide DistMargin, RightMargin, RightMargins;
    assert (forall i :: m <= i < n ==> RightMargin(kids, i) == r) <==>
           forall i :: m <= i <= M - m ==> RightMargin(kids, i) == r;
  }

  lemma {:induction false} RightMarginsAtLeast<T>(kids: seq<Tree<T>>, lo: nat, hi: nat, r: real)
    requires lo <= hi <= |kids| && Boxed(kids) && forall i :: lo <= i < hi ==> RightMargin(kids, i) >= r
    ensures RightMargins(kids, lo, hi) >= (hi - lo) as real * r
    ensures RightMargins(kids, lo, hi) == (hi - lo) as real * r <==>
            forall i :: lo <= i < hi ==> RightMargin(kids, i) == r
    decreases hi
  {
    hide RightMargin, Boxed;
    if lo < hi {
      RightMarginsAtLeast(kids, lo, hi - 1, r);
      OneMoreTime(hi - 1 - lo, r);
    }
  }

  lemma WiderMargin<T>(kids: seq<Tree<T>>, i: nat, j: nat)
    requires Boxed(kids) && i <= j < |kids|
    ensures RightMargin(kids, i) >= RightMargin(kids, j)
  {
    SuffixBoxed(kids, i);
    SuffixBoxed(kids, j);
    SuffixInside(kids, i, j);
  }

  lemma {:induction false} SuffixInside<T>(kids: seq<Tree<T>>, i: nat, j: nat)
    requires i <= j <= |kids|
    ensures Contains(Union(kids[i..]), Union(kids[j..]))
    decreases |kids|
  {
    hide Contains, Extend;
    if j == |kids| {
      NoBoxInside(Union(kids[i..]));
    } else {
      var n := |kids| - 1;
      var init := kids[..n];
      SuffixInside(init, i, j);
      assert kids[i..][..n - i] == init[i..] && kids[j..][..n - j] == init[j..];
      ExtendBoth(Union(init[i..]), Union(init[j..]), kids[n].box);
    }
  }

  lemma NoBoxInside(a: Box)
    ensures Contains(a, NoBox)
  {}

  lemma ExtendBoth(a: Box, b: Box, c: Box)
    requires Contains(a, b)
    ensures Contains(Extend(a, c), Extend(b, c))
  {}

  lemma OneMoreTime(n: int, x: real)
    ensures n as real * x + x == (n + 1) as real * x
  {}

  lemma UnionPrefix<T>(kids: seq<Tree<T>>, i: nat)
    requires i < |kids|
    ensures Union(kids[..i + 1]) == Extend(Union(kids[..i]), kids[i].box)
  {
    assert kids[..i + 1][..i] == kids[..i] && kids[..i + 1][i] == kids[i];
  }

  lemma PermutedBoxed<T>(s: seq<Tree<T>>, t: seq<Tree<T>>)
    requires multiset(s) == multiset(t) && Boxed(s)
    ensures Boxed(t)
  {
    forall k | k in t ensures k.box.Box? { assert k in multiset(t); }
  }

  lemma SliceBoxed<T>(s: seq<Tree<T>>, lo: nat, hi: nat)
    requires Boxed(s) && lo <= hi <= |s|
    ensures Boxed(s[lo..hi])
  {
    assert s[lo..hi] == s[lo..][..hi - lo];
  }

  /** The children sorted along the axis of the smaller margin sum, X if they are equal; `byX` and `byY` are the
      orders the sums were taken in. */
  method ChooseSplitAxis<T>(kids: seq<Tree<T>>)
    returns (r: seq<Tree<T>>, ghost byX: seq<Tree<T>>, ghost byY: seq<Tree<T>>)
    requires |kids| > 2 * MIN_ENTRIES && Boxed(kids)
    ensures |r| == |kids| && multiset(r) == multiset(kids) && (SortedAlong(r, X) || SortedAlong(r, Y))
    ensures |byX| == |byY| == |kids| && multiset(byX) == multiset(byY) == multiset(kids)
    ensures SortedAlong(byX, X) && SortedAlong(byY, Y) && Boxed(byX) && Boxed(byY)
    ensures SortedAlong(r, if DistMargin(byY) < DistMargin(byX) then Y else X)
  {
    hide DistMargin, SortedAlong, Boxed;
    var r0, minMargin := AllDistMargin(kids, X);
    var r1, margin := AllDistMargin(r0, Y);
    var minAxis := if margin < minMargin then Y else X;
    r := SortNodes(r1, minAxis);
    byX, byY := r0, r1;
  }

  /** The overlap of the two sides when the first `i` children go left. */
  function Overlap<T>(kids: seq<Tree<T>>, i: nat): real
    requires 0 < i < |kids| && Union(kids[..i]).Box? && Union(kids[i..]).Box?
  {
    IntersectionArea(Union(kids[..i]), Union(kids[i..]))
  }

  lemma SidesBoxed<T>(kids: seq<Tree<T>>, i: nat)
    requires Boxed(kids) && 0 < i < |kids|
    ensures Union(kids[..i]).Box? && Union(kids[i..]).Box?
  {
    SliceBoxed(kids, 0, i);
    SliceBoxed(kids, i, |kids|);
    assert kids[0..i] == kids[..i] && kids[i..|kids|] == kids[i..];
    BoxedUnion(kids[..i]);
    BoxedUnion(kids[i..]);
  }

  /** The overlap of each allowed distribution, and the sum of the areas of its sides. */
  ghost function Overlaps<T>(kids: seq<Tree<T>>): (r: seq<real>)
    requires |kids| > 2 * MIN_ENTRIES && Boxed(kids)
    ensures |r| == |kids| - 2 * MIN_ENTRIES + 1
  {
    seq(|kids| - 2 * MIN_ENTRIES + 1, j requires 0 <= j <= |kids| - 2 * MIN_ENTRIES && CutAt(kids, j) =>
      Overlap(kids, MIN_ENTRIES + j))
  }

  ghost function CutAreas<T>(kids: seq<Tree<T>>): (r: seq<real>)
    requires |kids| > 2 * MIN_ENTRIES && Boxed(kids)
    ensures |r| == |kids| - 2 * MIN_ENTRIES + 1
  {
    seq(|kids| - 2 * MIN_ENTRIES + 1, j requires 0 <= j <= |kids| - 2 * MIN_ENTRIES && CutAt(kids, j) =>
      Area(Union(kids[..MIN_ENTRIES + j])) + Area(Union(kids[MIN_ENTRIES + j..])))
  }

  ghost predicate CutAt<T>(kids: seq<Tree<T>>, j: int)
    requires |kids| > 2 * MIN_ENTRIES && Boxed(kids) && 0 <= j <= |kids| - 2 * MIN_ENTRIES
    ensures Union(kids[..MIN_ENTRIES + j]).Box? && Union(kids[MIN_ENTRIES + j..]).Box?
  {
    SidesBoxed(kids, MIN_ENTRIES + j);
    true
  }

  /** The two measures of one distribution. */
  method Measure<T>(kids: seq<Tree<T>>, i: nat) returns (overlap: real, area: real)
    requires |kids| > 2 * MIN_ENTRIES && Boxed(kids) && MIN_ENTRIES <= i <= |kids| - MIN_ENTRIES
    ensures overlap == Overlaps(kids)[i - MIN_ENTRIES] && area == CutAreas(kids)[i - MIN_ENTRIES]
  {
    hide Union, Overlap, Area;
    SidesBoxed(kids, i);
    overlap := Overlap(kids, i);
    area := Area(Union(kids[..i])) + Area(Union(kids[i..]));
  }

  lemma LeastOverlap<T>(kids: seq<Tree<T>>, i: nat, j: nat)
    requires |kids| > 2 * MIN_ENTRIES && Boxed(kids)
    requires MIN_ENTRIES <= i <= |kids| - MIN_ENTRIES && MIN_ENTRIES <= j <= |kids| - MIN_ENTRIES
    requires Overlaps(kids)[i - MIN_ENTRIES] <= Overlaps(kids)[j - MIN_ENTRIES]
    ensures Union(kids[..i]).Box? && Union(kids[i..]).Box? && Union(kids[..j]).Box? && Union(kids[j..]).Box?
    ensures Overlap(kids, i) <= Overlap(kids, j)
  {
    hide Union, Overlap;
    SidesBoxed(kids, i);
    SidesBoxed(kids, j);
  }

  /** The distribution of least overlap, never leaving fewer than MIN_ENTRIES on a side, and which of several. */
  method ChooseSplitIndex<T>(kids: seq<Tree<T>>) returns (index: nat)
    requires |kids| > 2 * MIN_ENTRIES && Boxed(kids)
    ensures MIN_ENTRIES <= index <= |kids| - MIN_ENTRIES
    ensures Union(kids[..index]).Box? && Union(kids[index..]).Box?
    ensures forall j :: MIN_ENTRIES <= j <= |kids| - MIN_ENTRIES ==>
              Union(kids[..j]).Box? && Union(kids[j..]).Box? && Overlap(kids, index) <= Overlap(kids, j)
    ensures Chosen(Overlaps(kids), CutAreas(kids), |kids| - 2 * MIN_ENTRIES + 1, index - MIN_ENTRIES)
  {
    hide Overlap, Overlaps, CutAreas, Union, Choosing, Chosen, Boxed;
    var m, M := MIN_ENTRIES, |kids|;
    var minOverlap, minArea := None, None;  // None is +Inf
    index := 0;
    ghost var cost, areas := Overlaps(kids), CutAreas(kids);
    ChooseFirst(cost, areas);
    for i := m to M - m + 1
      invariant i == m ==> minOverlap.None? && minArea.None?
      invariant i > m ==> m <= index < i && minOverlap == Some(cost[index - m]) && minArea.Some?
      invariant i > m ==> Choosing(cost, areas, i - m, index - m, minArea.value)
    {
      var overlap, area := Measure(kids, i);
      if i > m { ChooseNext(cost, areas, i - m, index - m, minArea.value); }
      if minOverlap.None? || overlap < minOverlap.value {
        minOverlap := Some(overlap);
        index := i;
        if minArea.None? || area < minArea.value { minArea := Some(area); }
      } else if overlap == minOverlap.value && (minArea.None? || area < minArea.value) {
        minArea := Some(area);
        index := i;
      }
    }
    ChoosingEnds(cost, areas, index - m, minArea.value);
    LeastOverlap(kids, index, index);
    forall j | m <= j <= M - m
      ensures Union(kids[..j]).Box? && Union(kids[j..]).Box? && Overlap(kids, index) <= Overlap(kids, j)
    {
      LeastOverlap(kids, index, j);
    }
  }

  /** A node that may have one child too many and whose box may not yet include the new rectangle. */
  ghost predicate Loose<T>(n: Tree<T>) {
    && n.Node? && n.height >= 1 && (n.leaf <==> n.height == 1)
    && n.kids != [] && |n.kids| <= MAX_ENTRIES + 1 && KidsOk(n)
  }

  /** Two well-formed nodes of six to eight children that share out the children of `n`: none is lost, none
      duplicated, and together they cover and store what `n` does. */
  ghost predicate Halves<T>(n: Tree<T>, l: Tree<T>, r: Tree<T>)
    requires n.Node?
  {
    && Ok(l) && Ok(r) && l.Node? && r.Node?
    && l.height == r.height == n.height && l.leaf == r.leaf == n.leaf
    && MIN_ENTRIES <= |l.kids| <= 8 && MIN_ENTRIES <= |r.kids| <= 8
    && multiset(l.kids + r.kids) == multiset(n.kids)
    && Extend(l.box, r.box) == Union(n.kids) && Bag(l) + Bag(r) == Bag(n)
  }

  /** Of the children sorted along the axis of the smaller margin sum, the first `i` are cut off, at the cut that
      ChooseSplitIndex takes. */
  ghost predicate BestCut<T>(kids: seq<Tree<T>>, byX: seq<Tree<T>>, byY: seq<Tree<T>>, i: nat) {
    && |kids| == |byX| == |byY| > 2 * MIN_ENTRIES && multiset(kids) == multiset(byX) == multiset(byY)
    && Boxed(kids) && Boxed(byX) && Boxed(byY) && SortedAlong(byX, X) && SortedAlong(byY, Y)
    && SortedAlong(kids, if DistMargin(byY) < DistMargin(byX) then Y else X)
    && i >= MIN_ENTRIES && Chosen(Overlaps(kids), CutAreas(kids), |kids| - 2 * MIN_ENTRIES + 1, i - MIN_ENTRIES)
  }

  /** An overflowing node is split in two. */
  method Split<T>(n: Tree<T>) returns (l: Tree<T>, r: Tree<T>, ghost byX: seq<Tree<T>>, ghost byY: seq<Tree<T>>)
    requires Loose(n) && |n.kids| == MAX_ENTRIES + 1
    ensures Halves(n, l, r) && BestCut(l.kids + r.kids, byX, byY, |l.kids|)
  {
    hide Ok, KidOk, Union, Bag, BagOf, SortedAlong, DistMargin, Chosen, Overlaps, CutAreas;
    OkIsBoxed(n);
    var kids;
    kids, byX, byY := ChooseSplitAxis(n.kids);
    PermutedBoxed(n.kids, kids);
    var index := ChooseSplitIndex(kids);
    l := Node(Union(kids[..index]), n.height, n.leaf, kids[..index]);
    r := Node(Union(kids[index..]), n.height, n.leaf, kids[index..]);
    assert l.kids + r.kids == kids;
    SplitFacts(n, l, r);
  }

  lemma SplitFacts<T>(n: Tree<T>, l: Tree<T>, r: Tree<T>)
    requires Loose(n) && l.Node? && r.Node?
    requires l == Node(Union(l.kids), n.height, n.leaf, l.kids) && r == Node(Union(r.kids), n.height, n.leaf, r.kids)
    requires |l.kids| <= MAX_ENTRIES && |r.kids| <= MAX_ENTRIES
    requires multiset(l.kids + r.kids) == multiset(n.kids)
    ensures Ok(l) && Ok(r)
    ensures Extend(l.box, r.box) == Union(n.kids) && Bag(l) + Bag(r) == Bag(n)
  {
    hide KidOk, Union, BagOf;
    forall k | k in l.kids || k in r.kids ensures k in n.kids {
      assert k in l.kids + r.kids;
      assert k in multiset(l.kids + r.kids);
    }
    SamePermutation(l.kids + r.kids, n.kids);
    UnionAppend(l.kids, r.kids);
  }

  // ----- the way back up

  /** `cur` replaces `was` on the path: the entry has been added below, and widening the box by
      the entry's makes it exact. */
  ghost predicate Grown<T>(cur: Tree<T>, was: Tree<T>, e: Entry<T>) {
    && Loose(cur) && was.Node? && cur.height == was.height && cur.leaf == was.leaf
    && Union(cur.kids) == Extend(was.box, e.box) == Extend(cur.box, e.box)
    && Bag(cur) == Bag(was) + multiset{e}
  }

  lemma AddToLeaf<T>(leaf: Tree<T>, e: Entry<T>)
    requires Ok(leaf) && leaf.leaf && Proper(e.box)
    ensures Grown(Rebuilt(leaf, leaf.kids + [Item(e.box, e.item)], Extend(leaf.box, e.box)), leaf, e)
  {
    hide Union, BagOf;
    var k: Tree<T> := Item(e.box, e.item);
    var kids := leaf.kids + [k];
    assert kids[..|kids| - 1] == leaf.kids;
    UnionStep(kids);
    assert Bag(k) == multiset{e};
    var n := Rebuilt(leaf, kids, Extend(leaf.box, e.box));
    forall x | x in n.kids ensures KidOk(x, n.height, n.leaf) {
      assert x in leaf.kids || x == k;
    }
    ExtendLaws(leaf.box, e.box, e.box);
    ExtendLaws(e.box, e.box, NoBox);
  }

  /** A split child puts its other half at the end of the parent's children. */
  lemma SplitUp<T>(parent: Tree<T>, i: nat, cur: Tree<T>, l: Tree<T>, r: Tree<T>, e: Entry<T>)
    requires Ok(parent) && !parent.leaf && i < |parent.kids| && Grown(cur, parent.kids[i], e)
    requires Halves(cur, l, r)
    ensures Grown(Rebuilt(parent, parent.kids[i := l] + [r], parent.box), parent, e)
  {
    hide Union, BagOf, Bag;
    assert KidOk(parent.kids[i], parent.height, parent.leaf);
    assert KidOk(l, parent.height, false) && KidOk(r, parent.height, false);
    hide KidOk;
    KidsAfterSplit(parent, i, l, r);
    SplitUpSums(parent.kids, i, l, r, e);
    BagNode(parent);
    BagNode(Rebuilt(parent, parent.kids[i := l] + [r], parent.box));
  }

  lemma SplitUpSums<T>(kids: seq<Tree<T>>, i: nat, l: Tree<T>, r: Tree<T>, e: Entry<T>)
    requires i < |kids|
    requires Extend(l.box, r.box) == Extend(kids[i].box, e.box)
    requires Bag(l) + Bag(r) == Bag(kids[i]) + multiset{e}
    ensures Union(kids[i := l] + [r]) == Extend(Union(kids), e.box)
    ensures BagOf(kids[i := l] + [r]) == BagOf(kids) + multiset{e}
  {
    hide Union, BagOf, Bag, Without, Extend;
    var all := kids[i := l] + [r];
    assert all[..|all| - 1] == kids[i := l];
    UnionStep(all);
    ReplaceKid(kids, i, l);
    UnionWithout(kids, i);
    BagWithout(kids, i);
    var u := Union(Without(kids, i));
    ExtendLaws(u, l.box, r.box);
    ExtendLaws(u, kids[i].box, e.box);
    SumsAgree(BagOf(Without(kids, i)), Bag(l), Bag(r), Bag(kids[i]), multiset{e});
  }

  lemma SumsAgree<E>(w: multiset<E>, a: multiset<E>, b: multiset<E>, c: multiset<E>, d: multiset<E>)
    requires a + b == c + d
    ensures w + a + b == w + c + d
  {
    assert w + a + b == w + (a + b) && w + c + d == w + (c + d);
  }

  lemma KidsAfterSplit<T>(parent: Tree<T>, i: nat, l: Tree<T>, r: Tree<T>)
    requires Ok(parent) && !parent.leaf && i < |parent.kids|
    requires KidOk(l, parent.height, false) && KidOk(r, parent.height, false)
    ensures Loose(Rebuilt(parent, parent.kids[i := l] + [r], parent.box))
  {
    hide KidOk, Union;
    var n := Rebuilt(parent, parent.kids[i := l] + [r], parent.box);
    forall k | k in n.kids ensures KidOk(k, n.height, n.leaf) {
      assert k in parent.kids || k == l || k == r;
    }
  }

  lemma UnionStep<T>(kids: seq<Tree<T>>)
    requires kids != []
    ensures Union(kids) == Extend(Union(kids[..|kids| - 1]), kids[|kids| - 1].box)
    ensures BagOf(kids) == BagOf(kids[..|kids| - 1]) + Bag(kids[|kids| - 1])
  {}

  lemma BagNode<T>(n: Tree<T>)
    requires n.Node?
    ensures Bag(n) == BagOf(n.kids)
  {}

  /** A node with its box widened. */
  function Widened<T>(n: Tree<T>, b: Box): Tree<T>
    requires n.Node?
  {
    Node(Extend(n.box, b), n.height, n.leaf, n.kids)
  }

  /** Widening the box of a node that did not overflow makes it whole. */
  lemma Settle<T>(cur: Tree<T>, was: Tree<T>, e: Entry<T>)
    requires Grown(cur, was, e) && |cur.kids| <= MAX_ENTRIES
    ensures var n := Widened(cur, e.box);
            Ok(n) && n.box == Extend(was.box, e.box) && Bag(n) == Bag(was) + multiset{e}
  {
    hide KidOk, Union, BagOf;
  }

  /** The parent of a whole replacement, widened in its turn, is whole. */
  lemma WidenUp<T>(parent: Tree<T>, i: nat, n: Tree<T>, e: Entry<T>)
    requires Ok(parent) && !parent.leaf && i < |parent.kids|
    requires var was := parent.kids[i];
             Ok(n) && n.kids != [] && was.Node? && n.height == was.height
             && n.box == Extend(was.box, e.box) && Bag(n) == Bag(was) + multiset{e}
    ensures var p := Rebuilt(parent, parent.kids[i := n], Extend(parent.box, e.box));
            Ok(p) && Bag(p) == Bag(parent) + multiset{e}
  {
    hide Union, BagOf, Bag;
    var was := parent.kids[i];
    var p := Rebuilt(parent, parent.kids[i := n], Extend(parent.box, e.box));
    assert KidOk(was, parent.height, parent.leaf);
    assert KidOk(n, parent.height, parent.leaf);
    KidsAfterReplace(parent, i, n);
    ReplaceKid(parent.kids, i, n);
    UnionWithout(parent.kids, i);
    BagWithout(parent.kids, i);
    ExtendLaws(Union(Without(parent.kids, i)), was.box, e.box);
    BagNode(parent);
    BagNode(p);
  }

  lemma KidsAfterReplace<T>(parent: Tree<T>, i: nat, n: Tree<T>)
    requires Ok(parent) && i < |parent.kids| && KidOk(n, parent.height, parent.leaf)
    ensures forall k :: k in parent.kids[i := n] ==> KidOk(k, parent.height, parent.leaf)
  {
    hide KidOk, Union;
    forall k | k in parent.kids[i := n] ensures KidOk(k, parent.height, parent.leaf) {
      assert k in parent.kids || k == n;
    }
  }

  // ----- insertion

  /** A way down from the root: each node is the chosen child of the one before. */
  ghost predicate PathOk<T>(root: Tree<T>, path: seq<Tree<T>>, idx: seq<nat>) {
    && |path| == |idx| + 1 && path[0] == root
    && (forall j :: 0 <= j < |path| ==> path[j].Node? && RootOk(path[j]))
    && (forall j :: 0 <= j < |idx| ==>
          !path[j].leaf && idx[j] < |path[j].kids| && path[j + 1] == path[j].kids[idx[j]])
  }

  /** At every node of the path the child that was taken is the one ChooseChild takes. */
  ghost predicate LeastGrowing<T>(path: seq<Tree<T>>, idx: seq<nat>, b: Box)
    requires b.Box? && |idx| <= |path|
  {
    forall j :: 0 <= j < |idx| ==>
      && path[j].Node? && Boxed(path[j].kids)
      && Chosen(Enlargements(path[j].kids, b), Areas(path[j].kids), |path[j].kids|, idx[j])
  }

  method ChooseSubtree<T>(root: Tree<T>, b: Box) returns (path: seq<Tree<T>>, idx: seq<nat>)
    requires RootOk(root) && b.Box?
    ensures PathOk(root, path, idx) && path[|idx|].leaf && LeastGrowing(path, idx, b)
  {
    hide Union;
    path, idx := [root], [];
    var node := root;
    while !node.leaf
      invariant PathOk(root, path, idx) && node == path[|idx|] && LeastGrowing(path, idx, b)
      decreases node.height
    {
      OkIsBoxed(node);
      var i := ChooseChild(node.kids, b);
      assert KidOk(node.kids[i], node.height, node.leaf);
      node := node.kids[i];
      LeastGrowingSnoc(path, idx, b, node, i);
      path, idx := path + [node], idx + [i];
    }
  }

  lemma LeastGrowingSnoc<T>(path: seq<Tree<T>>, idx: seq<nat>, b: Box, node: Tree<T>, i: nat)
    requires b.Box? && |path| == |idx| + 1 && LeastGrowing(path, idx, b)
    requires var kids := (if path[|idx|].Node? then path[|idx|].kids else []);
             path[|idx|].Node? && Boxed(kids) && Chosen(Enlargements(kids, b), Areas(kids), |kids|, i)
    ensures LeastGrowing(path + [node], idx + [i], b)
  {
    hide Boxed, Chosen, Enlargements, Areas;
  }

  /** Inserting adds exactly the new entry and keeps the shape; the tree grows by at most one level. */
  method Insert<T>(root: Tree<T>, e: Entry<T>) returns (t: Tree<T>)
    requires RootOk(root) && Proper(e.box)
    ensures RootOk(t) && t.kids != []
    ensures Bag(t) == Bag(root) + multiset{e}
    ensures t.height == root.height || t.height == root.height + 1
  {
    hide Ok, KidOk, Union, Bag, BagOf, Grown, Halves;
    var path, idx := ChooseSubtree(root, e.box);
    var level := |idx|;
    var leaf := path[level];
    AddToLeaf(leaf, e);
    var cur := Rebuilt(leaf, leaf.kids + [Item(e.box, e.item)], Extend(leaf.box, e.box));
    GrownIsLoose(cur, leaf, e);
    while |cur.kids| > MAX_ENTRIES
      invariant 0 <= level <= |idx| && Grown(cur, path[level], e) && Loose(cur)
      decreases level
    {
      var l, r, _, _ := Split(cur);
      if level == 0 {
        t := Node(Union([l, r]), cur.height + 1, false, [l, r]);
        GrownIsLoose(cur, root, e);
        SplitRoot(root, cur, l, r, e);
        return;
      }
      var parent, i := path[level - 1], idx[level - 1];
      GrownIsLoose(cur, path[level], e);
      SplitUp(parent, i, cur, l, r, e);
      cur := Rebuilt(parent, parent.kids[i := l] + [r], parent.box);
      level := level - 1;
      GrownIsLoose(cur, parent, e);
    }
    Settle(cur, path[level], e);
    GrownIsLoose(cur, path[level], e);
    t := Widened(cur, e.box);
    while level > 0
      invariant 0 <= level <= |idx|
      invariant Ok(t) && t.Node? && t.kids != [] && path[level].Node? && t.height == path[level].height
      invariant t.box == Extend(path[level].box, e.box) && Bag(t) == Bag(path[level]) + multiset{e}
    {
      var parent, i := path[level - 1], idx[level - 1];
      WidenUp(parent, i, t, e);
      t := Rebuilt(parent, parent.kids[i := t], Extend(parent.box, e.box));
      level := level - 1;
    }
  }

  lemma GrownIsLoose<T>(cur: Tree<T>, was: Tree<T>, e: Entry<T>)
    requires Grown(cur, was, e)
    ensures Loose(cur) && was.Node? && cur.height == was.height && cur.leaf == was.leaf
    ensures Union(cur.kids) == Extend(was.box, e.box) == Extend(cur.box, e.box)
    ensures Bag(cur) == Bag(was) + multiset{e}
  {}

  lemma SplitRoot<T>(root: Tree<T>, cur: Tree<T>, l: Tree<T>, r: Tree<T>, e: Entry<T>)
    requires Grown(cur, root, e) && Halves(cur, l, r)
    ensures var t := Node(Union([l, r]), cur.height + 1, false, [l, r]);
            RootOk(t) && Bag(t) == Bag(root) + multiset{e}
  {
    hide Union;
    var kids := [l, r];
    var t := Node(Union(kids), cur.height + 1, false, kids);
    forall k | k in kids ensures KidOk(k, t.height, t.leaf) {
      assert k == l || k == r;
    }
    assert KidsOk(t);
    assert |t.kids| == 2 && t.height >= 2;
    assert Ok(t);
    UnionAppend([l], [r]);
    assert [l] + [r] == kids;
    assert [l][..0] == [] && [r][..0] == [];
    assert BagOf([l]) == Bag(l) && BagOf([r]) == Bag(r);
  }
}
