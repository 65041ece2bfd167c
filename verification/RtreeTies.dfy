/** Choosing the cheapest candidate and breaking ties by area, the way chooseSubtree and chooseSplitIndex do: the
    least area so far is not forgotten when a cheaper candidate turns up. */
module RtreeTies {

  ghost predicate Cheapest(cost: seq<real>, i: int) {
    0 <= i < |cost| && forall k :: 0 <= k < |cost| ==> cost[i] <= cost[k]
  }

  /** No candidate before i is cheaper. */
  ghost predicate Low(cost: seq<real>, i: int) {
    0 <= i < |cost| && forall k :: 0 <= k < i ==> cost[i] <= cost[k]
  }

  /** The code moves on to candidate i: it is cheaper than all before it, or no dearer and smaller than every
      candidate whose area it has noted. */
  ghost predicate Taken(cost: seq<real>, area: seq<real>, i: int)
    requires |area| == |cost|
  {
    && Low(cost, i)
    && ((forall k :: 0 <= k < i ==> cost[i] < cost[k])
        || (forall k :: 0 <= k < i && Low(cost, k) ==> area[i] < area[k]))
  }

  /** Of the first n candidates, t is the one the code has moved on to last. */
  ghost predicate Chosen(cost: seq<real>, area: seq<real>, n: nat, t: nat)
    requires |area| == |cost|
  {
    t < n <= |cost| && Taken(cost, area, t) && forall j :: t < j < n ==> !Taken(cost, area, j)
  }

  /** Where the loop stands, with the least area it has noted. */
  ghost predicate Choosing(cost: seq<real>, area: seq<real>, n: nat, t: nat, minArea: real)
    requires |area| == |cost|
  {
    && Chosen(cost, area, n, t)
    && (forall j :: 0 <= j < n ==> cost[t] <= cost[j])
    && (forall k :: 0 <= k < n && Low(cost, k) ==> minArea <= area[k])
    && (exists k :: 0 <= k < n && Low(cost, k) && area[k] == minArea)
  }

  lemma ChooseFirst(cost: seq<real>, area: seq<real>)
    requires |area| == |cost| > 0
    ensures Choosing(cost, area, 1, 0, area[0])
  {
    assert Low(cost, 0);
  }

  lemma ChooseNext(cost: seq<real>, area: seq<real>, n: nat, t: nat, minArea: real)
    requires |area| == |cost| && n < |cost| && Choosing(cost, area, n, t, minArea)
    ensures cost[n] < cost[t] ==>
              Choosing(cost, area, n + 1, n, if area[n] < minArea then area[n] else minArea)
    ensures cost[n] == cost[t] && area[n] < minArea ==> Choosing(cost, area, n + 1, n, area[n])
    ensures cost[n] > cost[t] || (cost[n] == cost[t] && area[n] >= minArea) ==>
              Choosing(cost, area, n + 1, t, minArea)
  {
    assert Low(cost, n) <==> cost[n] <= cost[t];
    var m :| 0 <= m < n && Low(cost, m) && area[m] == minArea;
    assert cost[n] == cost[t] && area[n] >= minArea ==> !Taken(cost, area, n);
  }

  lemma ChoosingEnds(cost: seq<real>, area: seq<real>, t: nat, minArea: real)
    requires |area| == |cost| && Choosing(cost, area, |cost|, t, minArea)
    ensures Chosen(cost, area, |cost|, t) && t < |cost|
    ensures forall j :: 0 <= j < |cost| ==> cost[t] <= cost[j]
  {}

  /** The first of the cheapest. */
  ghost function First(cost: seq<real>): (i: nat)
    requires cost != []
    ensures Cheapest(cost, i) && forall k :: 0 <= k < i ==> cost[i] < cost[k]
  {
    var n := |cost| - 1;
    if n == 0 then 0
    else
      var i := First(cost[..n]);
      assert forall k :: 0 <= k < n ==> cost[..n][k] == cost[k];
      if cost[n] < cost[i] then n else i
  }

  /** What is chosen is always among the cheapest. It is a smallest of them exactly when the first of them is, or
      every candidate noted before that is larger than some of them. */
  lemma TieBreakIff(cost: seq<real>, area: seq<real>, t: nat)
    requires |area| == |cost| && Chosen(cost, area, |cost|, t)
    ensures Cheapest(cost, t)
    ensures (forall i :: Cheapest(cost, i) ==> area[t] <= area[i]) <==>
              || (forall i :: Cheapest(cost, i) ==> area[First(cost)] <= area[i])
              || forall k :: 0 <= k < First(cost) && Low(cost, k) ==> exists i :: Cheapest(cost, i) && area[i] < area[k]
  {
    var f := First(cost);
    ChosenIsLeast(cost, area, t);
    if forall k :: 0 <= k < f && Low(cost, k) ==> exists i :: Cheapest(cost, i) && area[i] < area[k] {
      var s := FirstSmallest(cost, area);
      SmallestIsTaken(cost, area, s);
      assert Low(cost, s);
      assert t == s;
    } else {
      StaysAtFirst(cost, area, t);
    }
  }

  lemma ChosenIsLeast(cost: seq<real>, area: seq<real>, t: nat)
    requires |area| == |cost| && Chosen(cost, area, |cost|, t)
    ensures Cheapest(cost, t) && First(cost) <= t
  {
    var f := First(cost);
    assert Taken(cost, area, f);
  }

  /** The first candidate of least area among the cheapest. */
  lemma FirstSmallest(cost: seq<real>, area: seq<real>) returns (s: nat)
    requires |area| == |cost| > 0
    ensures Cheapest(cost, s) && forall i :: Cheapest(cost, i) ==> area[s] <= area[i] && (i < s ==> area[s] < area[i])
  {
    s := First(cost);
    for n := s + 1 to |cost|
      invariant s < n && Cheapest(cost, s)
      invariant forall i :: 0 <= i < n && Cheapest(cost, i) ==> area[s] <= area[i] && (i < s ==> area[s] < area[i])
    {
      if cost[n] == cost[s] && area[n] < area[s] { s := n; }
    }
  }

  lemma SmallestIsTaken(cost: seq<real>, area: seq<real>, s: nat)
    requires |area| == |cost| && Cheapest(cost, s)
    requires forall i :: Cheapest(cost, i) ==> area[s] <= area[i] && (i < s ==> area[s] < area[i])
    requires forall k :: 0 <= k < First(cost) && Low(cost, k) ==> exists i :: Cheapest(cost, i) && area[i] < area[k]
    ensures Taken(cost, area, s)
  {
    var f := First(cost);
    if s > f {
      forall k | 0 <= k < s && Low(cost, k) ensures area[s] < area[k] {
        if k >= f { assert Cheapest(cost, k); }
      }
    }
  }

  /** If a noted candidate is no larger than any of the cheapest, the code stays with the first of them. */
  lemma StaysAtFirst(cost: seq<real>, area: seq<real>, t: nat)
    requires |area| == |cost| && Chosen(cost, area, |cost|, t)
    requires exists k :: 0 <= k < First(cost) && Low(cost, k) && forall i :: Cheapest(cost, i) ==> area[i] >= area[k]
    ensures t == First(cost)
  {
    var f := First(cost);
    ChosenIsLeast(cost, area, t);
    var k :| 0 <= k < f && Low(cost, k) && forall i :: Cheapest(cost, i) ==> area[i] >= area[k];
    assert cost[t] == cost[f];
  }
}
