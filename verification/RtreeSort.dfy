/** The in-place quicksort of pkg/index/rtree/base.go, on any key. */
module RtreeSort {

  ghost predicate SortedBy<T>(s: seq<T>, key: T -> real) {
    forall i, j :: 0 <= i < j < |s| ==> key(s[i]) <= key(s[j])
  }

  ghost predicate AllBelow<T>(s: seq<T>, key: T -> real, x: real) {
    forall i :: 0 <= i < |s| ==> key(s[i]) < x
  }

  ghost predicate AllAtLeast<T>(s: seq<T>, key: T -> real, x: real) {
    forall i :: 0 <= i < |s| ==> key(s[i]) >= x
  }

  lemma PermutationKeepsBounds<T>(s: seq<T>, t: seq<T>, key: T -> real, x: real)
    requires multiset(s) == multiset(t)
    ensures AllBelow(s, key, x) ==> AllBelow(t, key, x)
    ensures AllAtLeast(s, key, x) ==> AllAtLeast(t, key, x)
  {
    forall i | 0 <= i < |t| ensures exists j :: 0 <= j < |s| && s[j] == t[i] {
      assert t[i] in multiset(t);
      assert t[i] in multiset(s);
    }
  }

  lemma JoinSorted<T>(l: seq<T>, p: T, r: seq<T>, key: T -> real)
    requires SortedBy(l, key) && SortedBy(r, key)
    requires AllBelow(l, key, key(p)) && AllAtLeast(r, key, key(p))
    ensures SortedBy(l + [p] + r, key)
  {
    var s := l + [p] + r;
    forall i, j | 0 <= i < j < |s| ensures key(s[i]) <= key(s[j]) {
      assert s[i] == if i < |l| then l[i] else if i == |l| then p else r[i - |l| - 1];
      assert s[j] == if j < |l| then l[j] else if j == |l| then p else r[j - |l| - 1];
    }
  }

  /** From `s` to `t` only the segment [lo, hi) changed, and it was permuted. */
  ghost predicate OnlyPermutes<T>(s: seq<T>, t: seq<T>, lo: nat, hi: nat) {
    && lo <= hi <= |s| == |t|
    && s[..lo] == t[..lo] && s[hi..] == t[hi..]
    && multiset(s[lo..hi]) == multiset(t[lo..hi])
  }

  lemma PermutesSelf<T>(s: seq<T>, lo: nat, hi: nat)
    requires lo <= hi <= |s|
    ensures OnlyPermutes(s, s, lo, hi)
  {}

  lemma PermutesTrans<T>(s: seq<T>, t: seq<T>, u: seq<T>, lo: nat, hi: nat)
    requires OnlyPermutes(s, t, lo, hi) && OnlyPermutes(t, u, lo, hi)
    ensures OnlyPermutes(s, u, lo, hi)
  {}

  lemma PermutesSwap<T>(s: seq<T>, lo: nat, hi: nat, i: nat, j: nat)
    requires lo <= i < hi <= |s| && lo <= j < hi
    ensures OnlyPermutes(s, s[i := s[j]][j := s[i]], lo, hi)
  {
    var t := s[i := s[j]][j := s[i]];
    var x := s[lo..hi];
    assert t[lo..hi] == x[i - lo := x[j - lo]][j - lo := x[i - lo]];
  }

  /** Permuting an inner segment permutes the outer one. */
  lemma PermutesWider<T>(s: seq<T>, t: seq<T>, lo: nat, hi: nat, lo': nat, hi': nat)
    requires lo' <= lo <= hi <= hi' <= |s| && OnlyPermutes(s, t, lo, hi)
    ensures OnlyPermutes(s, t, lo', hi')
    ensures t[..lo] == s[..lo] && t[hi..] == s[hi..]
  {
    assert s[lo'..hi'] == s[lo'..lo] + s[lo..hi] + s[hi..hi'];
    assert t[lo'..hi'] == t[lo'..lo] + t[lo..hi] + t[hi..hi'];
    assert s[lo'..lo] == s[..lo][lo'..] && t[lo'..lo] == t[..lo][lo'..];
    assert s[hi..hi'] == s[hi..][..hi' - hi] && t[hi..hi'] == t[hi..][..hi' - hi];
    assert s[..lo'] == s[..lo][..lo'] && t[..lo'] == t[..lo][..lo'];
    assert s[hi'..] == s[hi..][hi' - hi..] && t[hi'..] == t[hi..][hi' - hi..];
  }

  /** Everything outside the segment stays. */
  lemma KeepsRest<T>(s: seq<T>, t: seq<T>, lo: nat, hi: nat, a: nat, b: nat)
    requires OnlyPermutes(s, t, lo, hi) && a <= b <= |s| && (b <= lo || hi <= a)
    ensures |t| == |s| && s[a..b] == t[a..b]
  {
    if b <= lo {
      SliceOfPrefix(s, lo, a, b);
      SliceOfPrefix(t, lo, a, b);
    } else {
      SliceOfSuffix(s, hi, a, b);
      SliceOfSuffix(t, hi, a, b);
    }
  }

  lemma PermutesSegment<T>(s: seq<T>, t: seq<T>, lo: nat, hi: nat)
    requires OnlyPermutes(s, t, lo, hi)
    ensures lo <= hi <= |s| == |t| && multiset(s[lo..hi]) == multiset(t[lo..hi])
  {}

  lemma SliceOfPrefix<T>(s: seq<T>, n: nat, lo: nat, hi: nat)
    requires lo <= hi <= n <= |s|
    ensures s[..n][lo..hi] == s[lo..hi]
  {}

  lemma SliceOfSuffix<T>(s: seq<T>, n: nat, lo: nat, hi: nat)
    requires n <= lo <= hi <= |s|
    ensures s[n..][lo - n..hi - n] == s[lo..hi]
  {}

  method Swap<T>(a: array<T>, i: nat, j: nat)
    requires i < a.Length && j < a.Length
    modifies a
    ensures a[i] == old(a[j]) && a[j] == old(a[i])
    ensures forall k :: 0 <= k < a.Length && k != i && k != j ==> a[k] == old(a[k])
    ensures a[..] == old(a[..])[i := old(a[j])][j := old(a[i])]
  {
    a[i], a[j] := a[j], a[i];
  }

  /** Swapping two elements, seen from the start of a longer change. */
  method SwapWithin<T>(a: array<T>, ghost s: seq<T>, ghost lo: nat, ghost hi: nat, i: nat, j: nat)
    requires lo <= i < hi <= a.Length && lo <= j < hi && OnlyPermutes(s, a[..], lo, hi)
    modifies a
    ensures a[i] == old(a[j]) && a[j] == old(a[i])
    ensures forall k :: 0 <= k < a.Length && k != i && k != j ==> a[k] == old(a[k])
    ensures OnlyPermutes(s, a[..], lo, hi)
  {
    hide OnlyPermutes;
    PermutesSwap(a[..], lo, hi, i, j);
    Swap(a, i, j);
    PermutesTrans(s, old(a[..]), a[..], lo, hi);
  }

  /** Moves the middle element to where it belongs: smaller keys before it, the others after it. */
  method Partition<T>(a: array<T>, lo: nat, hi: nat, key: T -> real) returns (left: nat)
    requires lo + 2 <= hi <= a.Length
    modifies a
    ensures lo <= left < hi
    ensures AllBelow(a[lo..left], key, key(a[left])) && AllAtLeast(a[left + 1..hi], key, key(a[left]))
    ensures OnlyPermutes(old(a[..]), a[..], lo, hi)
  {
    hide OnlyPermutes, AllBelow, AllAtLeast;
    var right := hi - 1;
    ghost var s := a[..];
    left := lo;
    PermutesSelf(s, lo, hi);
    SwapWithin(a, s, lo, hi, lo + (hi - lo) / 2, right);
    for i := lo to hi
      invariant lo <= left <= right && left <= i
      invariant forall k :: lo <= k < left ==> key(a[k]) < key(a[right])
      invariant forall k :: left <= k < i ==> key(a[k]) >= key(a[right])
      invariant OnlyPermutes(s, a[..], lo, hi)
    {
      if key(a[i]) < key(a[right]) {
        SwapWithin(a, s, lo, hi, i, left);
        left := left + 1;
      }
    }
    SwapWithin(a, s, lo, hi, left, right);
    Around(a[..], lo, left, hi, key);
    assert a[lo..left] == a[..][lo..left] && a[left + 1..hi] == a[..][left + 1..hi];
  }

  lemma Around<T>(s: seq<T>, lo: nat, mid: nat, hi: nat, key: T -> real)
    requires lo <= mid < hi <= |s|
    requires forall k :: lo <= k < mid ==> key(s[k]) < key(s[mid])
    requires forall k :: mid < k < hi ==> key(s[k]) >= key(s[mid])
    ensures AllBelow(s[lo..mid], key, key(s[mid])) && AllAtLeast(s[mid + 1..hi], key, key(s[mid]))
  {}

  /** sortByAxis on the segment [lo, hi) of an array. */
  method Sort<T>(a: array<T>, lo: nat, hi: nat, key: T -> real)
    requires lo <= hi <= a.Length
    modifies a
    ensures SortedBy(a[lo..hi], key)
    ensures OnlyPermutes(old(a[..]), a[..], lo, hi)
    decreases hi - lo
  {
    hide OnlyPermutes;
    if hi - lo < 2 {
      PermutesSelf(a[..], lo, hi);
      return;
    }
    var p := Partition(a, lo, hi, key);
    ghost var s0 := a[..];
    Sort(a, lo, p, key);
    ghost var s1 := a[..];
    Sort(a, p + 1, hi, key);
    SortedAround(s0, s1, a[..], lo, p, hi, key);
    PermutesTrans(old(a[..]), s0, a[..], lo, hi);
    assert a[lo..hi] == a[..][lo..hi];
  }

  lemma SortedAround<T>(s0: seq<T>, s1: seq<T>, s2: seq<T>, lo: nat, p: nat, hi: nat, key: T -> real)
    requires lo <= p < hi <= |s0|
    requires AllBelow(s0[lo..p], key, key(s0[p])) && AllAtLeast(s0[p + 1..hi], key, key(s0[p]))
    requires OnlyPermutes(s0, s1, lo, p) && OnlyPermutes(s1, s2, p + 1, hi)
    requires SortedBy(s1[lo..p], key) && SortedBy(s2[p + 1..hi], key)
    ensures SortedBy(s2[lo..hi], key) && OnlyPermutes(s0, s2, lo, hi)
  {
    PermutesWider(s0, s1, lo, p, lo, hi);
    PermutesWider(s1, s2, p + 1, hi, lo, hi);
    PermutesTrans(s0, s1, s2, lo, hi);
    var x := s0[p];
    hide OnlyPermutes;
    KeepsRest(s0, s1, lo, p, p, p + 1);
    KeepsRest(s1, s2, p + 1, hi, p, p + 1);
    assert s2[p..p + 1] == [s2[p]] && s0[p..p + 1] == [x];
    KeepsRest(s1, s2, p + 1, hi, lo, p);
    KeepsRest(s0, s1, lo, p, p + 1, hi);
    PermutesSegment(s0, s1, lo, p);
    PermutesSegment(s1, s2, p + 1, hi);
    PermutationKeepsBounds(s0[lo..p], s2[lo..p], key, key(x));
    PermutationKeepsBounds(s0[p + 1..hi], s2[p + 1..hi], key, key(x));
    assert s2[lo..hi] == s2[lo..p] + [x] + s2[p + 1..hi];
    JoinSorted(s2[lo..p], x, s2[p + 1..hi], key);
  }
}
