/** Byte strings, their lexicographic order, and ascending enumeration of a set of them.
    Keys, ids and patterns are byte strings; the ordered trees of the server iterate in this order. */
module Bytes {

  type byte = x: int | 0 <= x < 256

  type Str = seq<byte>

  const BACKSLASH: byte := 92  // '\'

  datatype Option<+T> = None | Some(value: T)

  /** Byte-wise lexicographic order, a proper prefix being smaller. */
  predicate Less(a: Str, b: Str)
    decreases |a|
  {
    if a == [] then b != []
    else if b == [] then false
    else if a[0] != b[0] then a[0] < b[0]
    else Less(a[1..], b[1..])
  }

  lemma {:induction false} LessIrreflexive(a: Str)
    ensures !Less(a, a)
    decreases |a|
  {
    if a != [] {
      LessIrreflexive(a[1..]);
    }
  }

  lemma {:induction false} LessTrans(a: Str, b: Str, c: Str)
    requires Less(a, b) && Less(b, c)
    ensures Less(a, c)
    decreases |a|
  {
    if a != [] && a[0] == b[0] && b[0] == c[0] {
      LessTrans(a[1..], b[1..], c[1..]);
    }
  }

  lemma {:induction false} LessTotal(a: Str, b: Str)
    ensures a == b || Less(a, b) || Less(b, a)
    decreases |a|
  {
    if a != [] && b != [] && a[0] == b[0] {
      LessTotal(a[1..], b[1..]);
      assert a == [a[0]] + a[1..] && b == [b[0]] + b[1..];
    }
  }

  lemma LessAsymmetric(a: Str, b: Str)
    requires Less(a, b)
    ensures !Less(b, a) && a != b
  {
    LessIrreflexive(a);
    if Less(b, a) { LessTrans(a, b, a); }
  }

  /** The order facts in the form quantified proofs use. */
  lemma LessIsStrictTotalOrder()
    ensures forall a: Str :: !Less(a, a)
    ensures forall a: Str, b: Str :: a == b || Less(a, b) || Less(b, a)
    ensures forall a: Str, b: Str, c: Str :: Less(a, b) && Less(b, c) ==> Less(a, c)
  {
    forall a: Str ensures !Less(a, a) { LessIrreflexive(a); }
    forall a: Str, b: Str ensures a == b || Less(a, b) || Less(b, a) { LessTotal(a, b); }
    forall a: Str, b: Str, c: Str | Less(a, b) && Less(b, c) ensures Less(a, c) { LessTrans(a, b, c); }
  }

  ghost predicate Ascending(s: seq<Str>) {
    forall i, j :: 0 <= i < j < |s| ==> Less(s[i], s[j])
  }

  /** The first `n` elements of an ascending list are those below its element `n`. */
  lemma AscendingCut(s: seq<Str>, n: nat, x: Str)
    requires Ascending(s) && n < |s| && x in s
    ensures x in s[..n] <==> Less(x, s[n])
  {
    var j :| 0 <= j < |s| && s[j] == x;
    LessIrreflexive(x);
    if j < n {
      assert s[..n][j] == x;
    } else {
      forall m | 0 <= m < n ensures s[m] != x { assert Less(s[m], s[j]); }
      if n < j { LessAsymmetric(s[n], s[j]); }
    }
  }

  ghost predicate IsLeast(m: Str, s: set<Str>) {
    m in s && forall x :: x in s ==> x == m || Less(m, x)
  }

  lemma LeastOfTwo(x: Str, m: Str, s: set<Str>)
    requires x in s && IsLeast(m, s - {x})
    ensures IsLeast(if Less(x, m) then x else m, s)
  {
    hide Less;
    LessTotal(x, m);
    forall y | y in s ensures y == x || y == m || Less(m, y) {
      assert y == x || y in s - {x};
    }
    if Less(x, m) {
      forall y | y in s && Less(m, y) ensures Less(x, y) { LessTrans(x, m, y); }
    }
  }

  lemma {:induction false} LeastExists(s: set<Str>)
    requires s != {}
    ensures exists m :: IsLeast(m, s)
    decreases s
  {
    var x :| x in s;
    if s == {x} {
      assert IsLeast(x, s);
    } else {
      LeastExists(s - {x});
      var m :| IsLeast(m, s - {x});
      LeastOfTwo(x, m, s);
    }
  }

  /** The first element an ordered tree yields. */
  function Least(s: set<Str>): (m: Str)
    requires s != {}
    ensures m in s && forall x :: x in s ==> x == m || Less(m, x)
  {
    LeastExists(s);
    LessIsStrictTotalOrder();
    var m :| m in s && forall x :: x in s ==> x == m || Less(m, x);
    m
  }

  /** All elements in ascending order: the visiting order of an ordered tree holding `s`. */
  function Sorted(s: set<Str>): (r: seq<Str>)
    ensures Ascending(r)
    ensures forall x :: x in r <==> x in s
    ensures |r| == |s|
    decreases |s|
  {
    if s == {} then []
    else
      var m := Least(s);
      var rest := Sorted(s - {m});
      assert forall j :: 0 <= j < |rest| ==> rest[j] in s - {m};
      [m] + rest
  }

  /** The elements at or after `start`: what an ascend-from-pivot call visits. */
  function From(s: set<Str>, start: Str): (r: seq<Str>)
    ensures Ascending(r)
    ensures forall x :: x in r <==> x in s && !Less(x, start)
  {
    Sorted(set x | x in s && !Less(x, start))
  }
}
