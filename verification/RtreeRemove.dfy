/** Removal: the explicit-stack walk to the item, and condensing the path above it. */
module RtreeRemove {
  import opened Bytes
  import opened Rtree
  import opened RtreeInsert

  // ----- the walk

  /** The nodes on the stack: a way down through inner nodes, each the child of the one before
      at the recorded index. */
  ghost predicate StackOk<T>(root: Tree<T>, path: seq<Tree<T>>, idx: seq<nat>) {
    && |path| == |idx|
    && (path != [] ==> path[0] == root)
    && (forall j :: 0 <= j < |path| ==> path[j].Node? && Ok(path[j]) && !path[j].leaf && path[j].kids != [])
    && (forall j :: 0 < j < |path| ==> idx[j] < |path[j - 1].kids| && path[j] == path[j - 1].kids[idx[j]])
  }

  /** The children after child i. */
  ghost function After<T>(t: Tree<T>, i: nat): seq<Tree<T>> {
    if t.Node? && i < |t.kids| then t.kids[i + 1..] else []
  }

  /** The subtrees to the right of the stack, still to be visited on the way back up. */
  ghost function Right<T>(path: seq<Tree<T>>, idx: seq<nat>): seq<Tree<T>>
    requires |path| == |idx|
    decreases |path|, 0
  {
    var n := |path| - 1;
    if n < 0 then [] else Behind(path[..n], idx[..n], idx[n])
  }

  /** The subtrees to the right of child i of the stack's top. */
  ghost function Behind<T>(path: seq<Tree<T>>, idx: seq<nat>, i: nat): seq<Tree<T>>
    requires |path| == |idx|
    decreases |path|, 1
  {
    if path == [] then [] else After(path[|path| - 1], i) + Right(path, idx)
  }

  /** The number of visits a forest can cost. */
  ghost function Cost<T>(t: Tree<T>): nat
    decreases t, 0
  {
    match t
    case Item(_, _) => 2
    case Node(_, _, _, kids) => 2 + CostOf(kids)
  }

  ghost function CostOf<T>(f: seq<Tree<T>>): nat
    decreases f, 0
  {
    if f == [] then 0 else CostOf(f[..|f| - 1]) + Cost(f[|f| - 1])
  }

  lemma {:induction false} CostAppend<T>(a: seq<Tree<T>>, b: seq<Tree<T>>)
    ensures CostOf(a + b) == CostOf(a) + CostOf(b)
    decreases |b|
  {
    if b == [] {
      assert a + b == a;
    } else {
      var m := |b| - 1;
      assert (a + b)[..|a + b| - 1] == a + b[..m];
      CostAppend(a, b[..m]);
    }
  }

  lemma ForestHead<T>(n: Tree<T>, rest: seq<Tree<T>>)
    ensures CostOf([n] + rest) == Cost(n) + CostOf(rest)
    ensures BagOf([n] + rest) == Bag(n) + BagOf(rest)
  {
    hide Bag, Cost;
    CostAppend([n], rest);
    UnionAppend([n], rest);
    assert [n][..0] == [];
    assert CostOf([n]) == CostOf([n][..0]) + Cost(n);
    assert BagOf([n]) == BagOf([n][..0]) + Bag(n);
  }

  /** Where the item was found: the stack, the leaf's position under its top, and the item's in the leaf. */
  datatype Found<T> = Found(path: seq<Tree<T>>, idx: seq<nat>, leaf: Tree<T>, i: nat, at: nat) | Missing

  ghost predicate FoundOk<T>(root: Tree<T>, item: T, f: Found<T>) {
    f.Found? ==>
      && StackOk(root, f.path, f.idx)
      && f.leaf.Node? && Ok(f.leaf) && f.leaf.leaf && f.at < |f.leaf.kids|
      && f.leaf.kids[f.at].Item? && f.leaf.kids[f.at].item == item
      && (f.path == [] ==> f.leaf == root)
      && (f.path != [] ==> var top := f.path[|f.path| - 1]; f.i < |top.kids| && top.kids[f.i] == f.leaf)
  }

  method FindItem<T(==)>(leaf: Tree<T>, item: T) returns (at: int)
    requires Ok(leaf) && leaf.leaf
    ensures -1 <= at < |leaf.kids|
    ensures at >= 0 ==> leaf.kids[at].Item? && leaf.kids[at].item == item
    ensures at == -1 ==> forall k :: k in leaf.kids ==> k.Item? && k.item != item
  {
    assert forall k :: k in leaf.kids ==> KidOk(k, leaf.height, leaf.leaf);
    for i := 0 to |leaf.kids|
      invariant forall j :: 0 <= j < i ==> leaf.kids[j].Item? && leaf.kids[j].item != item
    {
      assert KidOk(leaf.kids[i], leaf.height, leaf.leaf);
      if leaf.kids[i].item == item { return i; }
    }
    return -1;
  }

  /** The state of the walk: the stack, the index of the current node under the stack's top, and the
      current node, none when the children of the top are exhausted. */
  datatype Walker<T> = Walker(path: seq<Tree<T>>, idx: seq<nat>, i: nat, node: Option<Tree<T>>)

  ghost predicate WalkOk<T>(root: Tree<T>, w: Walker<T>) {
    && StackOk(root, w.path, w.idx)
    && (w.node.Some? ==>
          && w.node.value.Node? && Ok(w.node.value)
          && (w.path == [] ==> w.node.value == root)
          && (w.path != [] ==>
                w.i < |w.path[|w.path| - 1].kids| && w.node.value == w.path[|w.path| - 1].kids[w.i]))
  }

  /** What is left to visit: from the current node on, or only what is to the right of the stack. */
  ghost function Todo<T>(root: Tree<T>, w: Walker<T>): seq<Tree<T>>
    requires WalkOk(root, w)
  {
    if w.node.None? then Right(w.path, w.idx) else [w.node.value] + Behind(w.path, w.idx, w.i)
  }

  ghost function Work<T>(root: Tree<T>, w: Walker<T>): nat
    requires WalkOk(root, w)
  {
    CostOf(Todo(root, w)) + |w.path|
  }

  // ----- the moves of the walk

  function Down<T>(w: Walker<T>): Walker<T>
    requires w.node.Some? && w.node.value.Node? && w.node.value.kids != []
  {
    Walker(w.path + [w.node.value], w.idx + [w.i], 0, Some(w.node.value.kids[0]))
  }

  function Next<T>(w: Walker<T>): Walker<T>
    requires w.path != [] && w.path[|w.path| - 1].Node?
  {
    var parent := w.path[|w.path| - 1];
    Walker(w.path, w.idx, w.i + 1, if w.i + 1 < |parent.kids| then Some(parent.kids[w.i + 1]) else None)
  }

  function Pop<T>(w: Walker<T>): Walker<T>
    requires w.path != [] && |w.path| == |w.idx|
  {
    var n := |w.path| - 1;
    Walker(w.path[..n], w.idx[..n], w.idx[n], Some(w.path[n]))
  }

  lemma DownOk<T>(root: Tree<T>, w: Walker<T>)
    requires WalkOk(root, w) && w.node.Some? && !w.node.value.leaf && w.node.value.kids != []
    ensures WalkOk(root, Down(w))
  {
    hide Ok;
    KidIsOk(w.node.value, 0);
  }

  /** Going down: the children take their parent's place in front. */
  lemma DownKeeps<T>(root: Tree<T>, w: Walker<T>)
    requires WalkOk(root, w) && w.node.Some? && !w.node.value.leaf && w.node.value.kids != []
    ensures WalkOk(root, Down(w))
    ensures BagOf(Todo(root, Down(w))) == BagOf(Todo(root, w)) && Work(root, Down(w)) < Work(root, w)
  {
    hide Ok, Bag, BagOf, Cost, CostOf, StackOk, Right;
    var node := w.node.value;
    DownOk(root, w);
    var rest := DownTodo(root, w);
    ForestHead(node, rest);
    KidsForest(node, rest);
  }

  lemma DownTodo<T>(root: Tree<T>, w: Walker<T>) returns (rest: seq<Tree<T>>)
    requires WalkOk(root, w) && w.node.Some? && w.node.value.kids != [] && WalkOk(root, Down(w))
    ensures Todo(root, w) == [w.node.value] + rest
    ensures Todo(root, Down(w)) == w.node.value.kids + rest
  {
    hide Ok, Right, Behind;
    rest := Behind(w.path, w.idx, w.i);
    KidsBehind(w.path, w.idx, w.node.value, w.i);
  }

  lemma KidsBehind<T>(path: seq<Tree<T>>, idx: seq<nat>, node: Tree<T>, i: nat)
    requires |path| == |idx| && node.Node? && node.kids != []
    ensures [node.kids[0]] + Behind(path + [node], idx + [i], 0) == node.kids + Behind(path, idx, i)
  {
    hide Right, Behind;
    RightPush(path, idx, node, i);
    BehindTop(path, idx + [i], node, 0);
    HeadAndTail(node.kids, Behind(path, idx, i));
  }

  lemma BehindTop<T>(path: seq<Tree<T>>, idx: seq<nat>, node: Tree<T>, i: nat)
    requires |path| + 1 == |idx|
    ensures Behind(path + [node], idx, i) == After(node, i) + Right(path + [node], idx)
  {
    hide Right, After;
    assert (path + [node])[|path|] == node;
  }

  lemma HeadAndTail<T>(s: seq<T>, t: seq<T>)
    requires s != []
    ensures [s[0]] + (s[1..] + t) == s + t
  {
    assert s == [s[0]] + s[1..];
  }

  lemma RightPush<T>(path: seq<Tree<T>>, idx: seq<nat>, node: Tree<T>, i: nat)
    requires |path| == |idx|
    ensures Right(path + [node], idx + [i]) == Behind(path, idx, i)
  {
    hide Behind;
    var n := |path|;
    assert (path + [node])[..n] == path && (idx + [i])[..n] == idx;
  }

  /** Going right: the current subtree leaves the front. */
  lemma NextKeeps<T>(root: Tree<T>, w: Walker<T>)
    requires WalkOk(root, w) && w.node.Some? && w.path != []
    ensures WalkOk(root, Next(w))
    ensures BagOf(Todo(root, w)) == Bag(w.node.value) + BagOf(Todo(root, Next(w)))
    ensures Work(root, Next(w)) < Work(root, w)
  {
    hide Ok, Bag, BagOf, Cost, CostOf, Right, StackOk;
    NextOk(root, w);
    NextTodo(root, w);
    ForestHead(w.node.value, Behind(w.path, w.idx, w.i));
    CostPositive(w.node.value);
  }

  lemma NextOk<T>(root: Tree<T>, w: Walker<T>)
    requires WalkOk(root, w) && w.node.Some? && w.path != []
    ensures |w.path| == |w.idx| && w.path[|w.path| - 1].Node? && WalkOk(root, Next(w))
  {
    hide Ok;
    var top := w.path[|w.path| - 1];
    if w.i + 1 < |top.kids| { KidIsOk(top, w.i + 1); }
  }

  lemma NextTodo<T>(root: Tree<T>, w: Walker<T>)
    requires w.path != [] && w.path[|w.path| - 1].Node? && w.i < |w.path[|w.path| - 1].kids|
    requires WalkOk(root, Next(w)) && |w.path| == |w.idx|
    ensures Todo(root, Next(w)) == Behind(w.path, w.idx, w.i)
  {
    hide Ok, Right, StackOk;
    var kids, i := w.path[|w.path| - 1].kids, w.i + 1;
    if i < |kids| { assert kids[i..] == [kids[i]] + kids[i + 1..]; }
  }

  /** Going up and right: only the stack gets shorter. */
  lemma PopNextKeeps<T>(root: Tree<T>, w: Walker<T>)
    requires WalkOk(root, w) && w.node.None? && w.path != []
    ensures WalkOk(root, Pop(w)) && w.path[|w.path| - 1].Node? && !w.path[|w.path| - 1].leaf
    ensures |w.path| > 1 ==>
              && WalkOk(root, Next(Pop(w)))
              && BagOf(Todo(root, Next(Pop(w)))) == BagOf(Todo(root, w))
              && Work(root, Next(Pop(w))) < Work(root, w)
    ensures |w.path| == 1 ==> Todo(root, w) == []
  {
    hide Ok, Bag, BagOf, Cost, CostOf, Behind, Right;
    PopOk(root, w);
    RightIsBehind(w.path, w.idx);
    if |w.path| > 1 {
      hide StackOk;
      NextOk(root, Pop(w));
      NextTodo(root, Pop(w));
    }
  }

  lemma PopOk<T>(root: Tree<T>, w: Walker<T>)
    requires WalkOk(root, w) && w.path != []
    ensures WalkOk(root, Pop(w)) && w.path[|w.path| - 1].Node? && !w.path[|w.path| - 1].leaf
  {
    hide Ok;
  }

  lemma RightIsBehind<T>(path: seq<Tree<T>>, idx: seq<nat>)
    requires |path| == |idx| && path != []
    ensures var n := |path| - 1; Right(path, idx) == Behind(path[..n], idx[..n], idx[n])
    ensures |path| == 1 ==> Right(path, idx) == []
  {}

  lemma LeafMisses<T>(leaf: Tree<T>, target: Entry<T>)
    requires leaf.Node? && forall k :: k in leaf.kids ==> k.Item? && k.item != target.item
    ensures target !in Bag(leaf)
  {
    InBagOf(leaf.kids, target);
  }

  lemma SmallBoxMisses<T>(n: Tree<T>, target: Entry<T>)
    requires Ok(n) && !Contains(n.box, target.box)
    ensures target !in Bag(n)
  {
    if target in Bag(n) { StoredInsideBox(n, target); }
  }

  /** Walks the tree with an explicit stack, going down only into boxes that contain the rectangle.
      The walk ends, and it misses no item that is stored with that rectangle. */
  method Walk<T(==)>(root: Tree<T>, target: Entry<T>) returns (f: Found<T>)
    requires RootOk(root)
    ensures FoundOk(root, target.item, f)
    ensures f.Missing? ==> target !in Bag(root)
  {
    hide Ok, Bag, BagOf, Cost, CostOf, Right;
    OkIsNode(root);
    var w := Walker([], [], 0, Some(root));
    StartTodo(root);
    while w.node.Some? || w.path != []
      invariant WalkOk(root, w)
      invariant target in Bag(root) ==> target in BagOf(Todo(root, w))
      decreases Work(root, w)
    {
      var goingUp := false;
      var v := w;
      if w.node.None? {
        PopNextKeeps(root, w);
        v := Pop(w);
        goingUp := true;
      }
      var node := v.node.value;
      if node.leaf {
        var at := FindItem(node, target.item);
        if at != -1 { return Found(v.path, v.idx, node, v.i, at); }
        LeafMisses(node, target);
      }
      if !goingUp && !node.leaf && Contains(node.box, target.box) {
        InnerHasKids(root, v);
        DownKeeps(root, v);
        w := Down(v);
      } else {
        if !goingUp && !node.leaf { SmallBoxMisses(node, target); }
        if v.path != [] {
          if !goingUp { NextKeeps(root, v); }
          w := Next(v);
        } else {
          Ends(root, w, v);
          w := Walker([], [], 0, None);
        }
      }
    }
    Stopped(root, w);
    return Missing;
  }

  lemma StartTodo<T>(root: Tree<T>)
    requires RootOk(root) && root.Node?
    ensures WalkOk(root, Walker([], [], 0, Some(root)))
    ensures BagOf(Todo(root, Walker([], [], 0, Some(root)))) == Bag(root)
  {
    hide Ok, Bag;
    assert [root][..0] == [];
    assert BagOf([root]) == BagOf([root][..0]) + Bag(root);
  }

  /** With nothing on the stack there is nowhere left to go. */
  lemma Ends<T>(root: Tree<T>, w: Walker<T>, v: Walker<T>)
    requires WalkOk(root, w) && WalkOk(root, v) && v.path == [] && v.node.Some?
    requires if w.node.None? then |w.path| == 1 && v == Pop(w) else v == w
    ensures var e: Walker<T> := Walker([], [], 0, None);
            && WalkOk(root, e) && Todo(root, e) == [] && BagOf(Todo(root, e)) == multiset{}
            && Work(root, e) < Work(root, w)
            && (w.node.None? ==> Todo(root, w) == [])
            && (w.node.Some? ==> BagOf(Todo(root, w)) == Bag(v.node.value))
  {
    hide Ok, Bag, Cost;
    if w.node.None? {
      RightIsBehind(w.path, w.idx);
    } else {
      ForestHead(v.node.value, []);
      assert [v.node.value] + [] == [v.node.value];
      CostPositive(v.node.value);
    }
  }

  lemma Stopped<T>(root: Tree<T>, w: Walker<T>)
    requires WalkOk(root, w) && w.node.None? && w.path == []
    ensures BagOf(Todo(root, w)) == multiset{}
  {
    hide Ok;
  }

  lemma InnerHasKids<T>(root: Tree<T>, w: Walker<T>)
    requires RootOk(root) && WalkOk(root, w) && w.node.Some? && !w.node.value.leaf
    ensures w.node.value.kids != []
  {
    hide Ok;
    if w.path != [] { KidIsOk(w.path[|w.path| - 1], w.i); }
  }

  lemma KidsForest<T>(n: Tree<T>, rest: seq<Tree<T>>)
    requires n.Node?
    ensures CostOf(n.kids + rest) + 2 == Cost(n) + CostOf(rest)
    ensures BagOf(n.kids + rest) == Bag(n) + BagOf(rest)
  {
    CostAppend(n.kids, rest);
    UnionAppend(n.kids, rest);
  }

  lemma CostPositive<T>(n: Tree<T>)
    ensures Cost(n) >= 2
  {}

  // ----- condensing

  /** `cur` replaces `was`, with the entry gone from below it; its box may be stale and it may be empty. */
  ghost predicate Shrunk<T>(cur: Tree<T>, was: Tree<T>, e: Entry<T>) {
    && cur.Node? && was.Node? && cur.height == was.height && cur.leaf == was.leaf
    && cur.height >= 1 && (cur.leaf <==> cur.height == 1)
    && |cur.kids| <= MAX_ENTRIES && KidsOk(cur)
    && Bag(cur) + multiset{e} == Bag(was)
  }

  lemma DropItem<T>(leaf: Tree<T>, at: nat)
    requires leaf.Node? && Ok(leaf) && leaf.leaf && at < |leaf.kids| && leaf.kids[at].Item?
    ensures Shrunk(Rebuilt(leaf, Without(leaf.kids, at), leaf.box), leaf, Entry(leaf.kids[at].box, leaf.kids[at].item))
  {
    hide KidOk, Union, BagOf;
    var n := Rebuilt(leaf, Without(leaf.kids, at), leaf.box);
    forall k | k in n.kids ensures KidOk(k, n.height, n.leaf) { assert k in leaf.kids; }
    BagWithout(leaf.kids, at);
  }

  /** A node that kept a child gets its exact box and stays in its parent. */
  lemma KeepUp<T>(parent: Tree<T>, i: nat, cur: Tree<T>, e: Entry<T>)
    requires parent.Node? && Ok(parent) && !parent.leaf && i < |parent.kids|
    requires Shrunk(cur, parent.kids[i], e) && cur.kids != []
    ensures var n := Node(Union(cur.kids), cur.height, cur.leaf, cur.kids);
            Shrunk(Rebuilt(parent, parent.kids[i := n], parent.box), parent, e)
  {
    hide KidOk, Union, BagOf, Bag;
    var n := Node(Union(cur.kids), cur.height, cur.leaf, cur.kids);
    KidIsOk(parent, i);
    Refit(cur, parent.kids[i], e);
    assert KidOk(n, parent.height, parent.leaf) by { IsKid(n, parent.height); }
    KidsAfterReplace(parent, i, n);
    ReplaceKid(parent.kids, i, n);
    BagWithout(parent.kids, i);
    BagNode(parent);
    BagNode(Rebuilt(parent, parent.kids[i := n], parent.box));
  }

  lemma IsKid<T>(n: Tree<T>, height: nat)
    requires n.Node? && Ok(n) && n.height + 1 == height && n.kids != []
    ensures KidOk(n, height, false)
  {}

  /** Recomputing the box of a shrunken node makes it whole. */
  lemma Refit<T>(cur: Tree<T>, was: Tree<T>, e: Entry<T>)
    requires Shrunk(cur, was, e)
    ensures var n := Node(Union(cur.kids), cur.height, cur.leaf, cur.kids);
            Ok(n) && Bag(n) + multiset{e} == Bag(was)
  {
    hide KidOk, Union, BagOf;
  }

  /** A node that lost its last child leaves its parent. */
  lemma DropUp<T>(parent: Tree<T>, i: nat, cur: Tree<T>, e: Entry<T>)
    requires parent.Node? && Ok(parent) && !parent.leaf && i < |parent.kids|
    requires Shrunk(cur, parent.kids[i], e) && cur.kids == []
    ensures Shrunk(Rebuilt(parent, Without(parent.kids, i), parent.box), parent, e)
  {
    hide KidOk, Union;
    var n := Rebuilt(parent, Without(parent.kids, i), parent.box);
    forall k | k in n.kids ensures KidOk(k, n.height, n.leaf) { assert k in parent.kids; }
    BagWithout(parent.kids, i);
    assert Bag(cur) == multiset{};
  }

  /** Rebuilds the path above a leaf that lost an item: empty nodes are dropped, boxes recomputed,
      and a tree that lost its last item becomes an empty leaf. */
  method Condense<T>(root: Tree<T>, f: Found<T>, ghost e: Entry<T>) returns (t: Tree<T>)
    requires RootOk(root) && f.Found? && FoundOk(root, e.item, f)
    requires e.box == f.leaf.kids[f.at].box
    ensures RootOk(t) && Bag(t) + multiset{e} == Bag(root)
  {
    hide Ok, KidOk, Union, Bag, BagOf, Shrunk;
    DropItem(f.leaf, f.at);
    var cur := Rebuilt(f.leaf, Without(f.leaf.kids, f.at), f.leaf.box);
    var level := |f.path|;
    while level > 0
      invariant 0 <= level <= |f.path|
      invariant cur.Node? && Shrunk(cur, if level == |f.path| then f.leaf else f.path[level], e)
    {
      var parent := f.path[level - 1];
      var i := if level == |f.path| then f.i else f.idx[level];
      if cur.kids == [] {
        DropUp(parent, i, cur, e);
        cur := Rebuilt(parent, Without(parent.kids, i), parent.box);
      } else {
        KeepUp(parent, i, cur, e);
        cur := Rebuilt(parent, parent.kids[i := Node(Union(cur.kids), cur.height, cur.leaf, cur.kids)], parent.box);
      }
      level := level - 1;
    }
    if cur.kids == [] {
      t := EmptyLeaf();
      Cleared(cur, root, e);
    } else {
      t := Node(Union(cur.kids), cur.height, cur.leaf, cur.kids);
      Refit(cur, root, e);
    }
  }

  lemma Cleared<T>(cur: Tree<T>, was: Tree<T>, e: Entry<T>)
    requires Shrunk(cur, was, e) && cur.kids == []
    ensures RootOk(EmptyLeaf<T>()) && Bag(EmptyLeaf<T>()) + multiset{e} == Bag(was)
  {}

  /** Removing takes out one entry with the given item, or nothing: an item stored with the given
      rectangle is found, and a tree without the item is returned as it was. */
  method Remove<T(==)>(root: Tree<T>, target: Entry<T>) returns (t: Tree<T>, ghost gone: Option<Entry<T>>)
    requires RootOk(root)
    ensures RootOk(t)
    ensures gone.None? ==> t == root && target !in Bag(root)
    ensures gone.Some? ==> gone.value.item == target.item && Bag(t) + multiset{gone.value} == Bag(root)
    ensures (forall e :: e in Bag(root) ==> e.item != target.item) ==> t == root
  {
    hide Ok, KidOk, Union, Bag, BagOf;
    var f := Walk(root, target);
    match f
    case Missing =>
      t, gone := root, None;
    case Found(_, _, leaf, _, at) =>
      gone := Some(Entry(leaf.kids[at].box, leaf.kids[at].item));
      t := Condense(root, f, gone.value);
      assert gone.value in Bag(t) + multiset{gone.value};
  }

  // ----- distinct items

  /** No item is stored twice. */
  ghost predicate Distinct<T>(b: multiset<Entry<T>>) {
    forall e, f :: e in b && f in b && e.item == f.item ==> e == f && b[e] == 1
  }

  /** With distinct items, removing a stored entry removes exactly it, and an absent item changes nothing. */
  lemma RemoveIsExact<T>(before: multiset<Entry<T>>, after: multiset<Entry<T>>, target: Entry<T>,
                         gone: Option<Entry<T>>)
    requires Distinct(before)
    requires gone.None? ==> after == before && target !in before
    requires gone.Some? ==> gone.value.item == target.item && after + multiset{gone.value} == before
    ensures target in before ==> after == before - multiset{target}
    ensures (forall e :: e in before ==> e.item != target.item) ==> after == before
    ensures Distinct(after)
  {
    if gone.Some? {
      assert gone.value in before;
      assert after == before - multiset{gone.value};
    }
  }
}
