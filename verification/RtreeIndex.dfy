/** The R-tree object: a root that Insert and Remove replace. */
module RtreeIndex {
  import opened Objects
  import opened Rtree
  import RtreeInsert
  import opened RtreeRemove
  import opened RtreeSearch
  import opened Knn

  // ----- bounds and count

  function UnionOfEntries<T>(es: seq<Entry<T>>): Box
    decreases |es|
  {
    if es == [] then NoBox else Extend(UnionOfEntries(es[..|es| - 1]), es[|es| - 1].box)
  }

  lemma {:induction false} UnionOfEntriesAppend<T>(a: seq<Entry<T>>, b: seq<Entry<T>>)
    ensures UnionOfEntries(a + b) == Extend(UnionOfEntries(a), UnionOfEntries(b))
    decreases |b|
  {
    hide Extend;
    if b == [] {
      assert a + b == a;
      ExtendNothing(UnionOfEntries(a));
    } else {
      var m := |b| - 1;
      assert (a + b)[..|a + b| - 1] == a + b[..m];
      UnionOfEntriesAppend(a, b[..m]);
      ExtendLaws(UnionOfEntries(a), UnionOfEntries(b[..m]), b[m].box);
    }
  }

  lemma ExtendNothing(b: Box)
    ensures Extend(b, NoBox) == b && Extend(NoBox, b) == b
  {}

  /** A node's box is the union of every rectangle stored below it. */
  lemma {:induction false} BoxIsUnionOfStored<T>(n: Tree<T>)
    requires n.Node? && Ok(n)
    ensures n.box == UnionOfEntries(Scan(n))
    decreases n, |n.kids| + 1
  {
    KidsUnion(n, |n.kids|);
    assert n.kids[..|n.kids|] == n.kids;
  }

  lemma {:induction false} KidsUnion<T>(n: Tree<T>, i: nat)
    requires n.Node? && Ok(n) && i <= |n.kids|
    ensures Union(n.kids[..i]) == UnionOfEntries(ScanAll(n.kids[..i]))
    decreases n, i
  {
    hide Extend;
    if i > 0 {
      KidsUnion(n, i - 1);
      var k, front := n.kids[i - 1], n.kids[..i - 1];
      assert n.kids[..i][..i - 1] == front;
      KidIsOk(n, i - 1);
      UnionOfEntriesAppend(ScanAll(front), Scan(k));
      if n.leaf {
        assert Scan(k) == [Entry(k.box, k.item)];
        assert Scan(k)[..0] == [];
        ExtendNothing(k.box);
        assert UnionOfEntries(Scan(k)) == Extend(UnionOfEntries(Scan(k)[..0]), k.box);
      } else {
        BoxIsUnionOfStored(k);
      }
    }
  }

  /** childCount, summing over the children. */
  method ChildCount<T>(n: Tree<T>) returns (count: nat)
    requires n.Node? && Ok(n)
    ensures count == |Bag(n)|
    decreases n
  {
    hide Ok;
    if n.leaf {
      count := |n.kids|;
      LeafCount(n, |n.kids|);
      assert n.kids[..|n.kids|] == n.kids;
      return;
    }
    count := 0;
    for i := 0 to |n.kids|
      invariant count == |BagOf(n.kids[..i])|
    {
      KidIsOk(n, i);
      var c := ChildCount(n.kids[i]);
      assert n.kids[..i + 1][..i] == n.kids[..i];
      count := count + c;
    }
    assert n.kids[..|n.kids|] == n.kids;
  }

  lemma {:induction false} LeafCount<T>(n: Tree<T>, i: nat)
    requires n.Node? && Ok(n) && n.leaf && i <= |n.kids|
    ensures |BagOf(n.kids[..i])| == i
    decreases i
  {
    if i > 0 {
      LeafCount(n, i - 1);
      KidIsOk(n, i - 1);
      assert n.kids[..i][..i - 1] == n.kids[..i - 1];
    }
  }

  // ----- the object

  class RTree<T(==)> {
    var data: Tree<T>

    ghost predicate Valid()
      reads this
    {
      RootOk(data)
    }

    ghost function Items(): multiset<Entry<T>>
      reads this
    {
      Bag(data)
    }

    constructor ()
      ensures Valid() && Items() == multiset{}
    {
      data := EmptyLeaf();
    }

    method Insert(box: Box, item: T)
      requires Valid() && Proper(box)
      modifies this
      ensures Valid() && Items() == old(Items()) + multiset{Entry(box, item)}
      ensures data.height <= old(data).height + 1
    {
      hide RootOk, Bag;
      ValidHasHeight(data);
      data := RtreeInsert.Insert(data, Entry(box, item));
    }

    /** One entry with the item goes, the one with the given rectangle if it is stored and items are
        distinct; an item that is nowhere leaves the tree as it was. */
    method Remove(box: Box, item: T)
      requires Valid()
      modifies this
      ensures Valid()
      ensures Items() <= old(Items()) && |old(Items())| <= |Items()| + 1
      ensures (forall e :: e in old(Items()) ==> e.item != item) ==> data == old(data)
      ensures Distinct(old(Items())) && Entry(box, item) in old(Items()) ==>
                Items() == old(Items()) - multiset{Entry(box, item)}
    {
      hide RootOk, Bag, Distinct;
      ghost var gone;
      ghost var before := Bag(data);
      data, gone := RtreeRemove.Remove(data, Entry(box, item));
      if gone.Some? { OneLess(before, Bag(data), gone.value); }
      if Distinct(before) { RemoveIsExact(before, Bag(data), Entry(box, item), gone); }
    }

    method Search(q: Box, stop: T -> bool) returns (visited: seq<Entry<T>>, keepOn: bool)
      requires Valid() && q.Box?
      ensures visited == Until(Meeting(RtreeSearch.Scan(data), q), stop)
      ensures keepOn <==> !Stops(Meeting(RtreeSearch.Scan(data), q), stop)
    {
      visited, keepOn := RtreeSearch.Search(data, q, stop);
    }

    method KNN(q: Box, stop: T -> bool) returns (hits: seq<Hit<T>>, keepOn: bool, ghost rest: multiset<Entry<T>>)
      requires Valid() && q.Box?
      ensures InOrder(q, hits) && Entries(hits) + rest == Items()
      ensures forall h, e :: h in hits && e in rest ==> Proper(e.box) && h.dist <= Dist(q, e.box)
      ensures Proper(q) ==> NearestFirst(q, hits, rest)
      ensures keepOn ==> rest == multiset{}
      ensures !keepOn ==> hits != [] && stop(hits[|hits| - 1].entry.item)
      ensures NoStop(if keepOn then hits else hits[..|hits| - 1], stop)
    {
      hits, keepOn, rest := Nearest(data, q, stop);
    }

    method Count() returns (n: nat)
      requires Valid()
      ensures n == |Items()|
    {
      ValidHasHeight(data);
      n := ChildCount(data);
    }

    /** The box around everything stored, or the zero box of an empty tree. */
    method Bounds() returns (b: Box)
      requires Valid()
      ensures b == if Items() == multiset{} then Box(Vec(0.0, 0.0), Vec(0.0, 0.0))
                   else UnionOfEntries(RtreeSearch.Scan(data))
    {
      hide RootOk, Bag;
      ValidHasHeight(data);
      BoundsFacts(data);
      if |data.kids| > 0 { b := data.box; } else { b := Box(Vec(0.0, 0.0), Vec(0.0, 0.0)); }
    }
  }

  lemma OneLess<E>(before: multiset<E>, after: multiset<E>, e: E)
    requires after + multiset{e} == before
    ensures after <= before && |before| == |after| + 1
  {}

  lemma ValidHasHeight<T>(n: Tree<T>)
    requires RootOk(n)
    ensures n.Node? && Ok(n)
  {}

  lemma BoundsFacts<T>(n: Tree<T>)
    requires RootOk(n) && n.Node?
    ensures n.box == UnionOfEntries(RtreeSearch.Scan(n))
    ensures n.kids == [] <==> Bag(n) == multiset{}
  {
    BoxIsUnionOfStored(n);
    if n.kids != [] {
      NotEmpty(n);
    }
  }

  lemma {:induction false} NotEmpty<T>(n: Tree<T>)
    requires n.Node? && Ok(n) && n.kids != []
    ensures Bag(n) != multiset{}
    decreases n
  {
    KidIsOk(n, 0);
    if !n.leaf { NotEmpty(n.kids[0]); }
    BagWithout(n.kids, 0);
    if n.leaf { ItemBag(n.kids[0]); assert Entry(n.kids[0].box, n.kids[0].item) in Bag(n); }
    else { var e :| e in Bag(n.kids[0]); assert e in Bag(n); }
  }
}
