/** The measures by which the R-tree chooses, and what they measure. */
module RtreeMeasures {
  import opened Objects
  import opened Rtree

  // ----- measures

  function Area(b: Box): real
    requires b.Box?
  {
    (b.max.x - b.min.x) * (b.max.y - b.min.y)
  }

  function Margin(b: Box): real
    requires b.Box?
  {
    (b.max.x - b.min.x) + (b.max.y - b.min.y)
  }

  function OverlapAxis(amin: real, amax: real, bmin: real, bmax: real): real {
    var max := if amax < bmax then amax else bmax;
    var min := if amin > bmin then amin else bmin;
    if max > min then max - min else 0.0
  }

  function IntersectionArea(a: Box, b: Box): real
    requires a.Box? && b.Box?
  {
    OverlapAxis(a.min.x, a.max.x, b.min.x, b.max.x) * OverlapAxis(a.min.y, a.max.y, b.min.y, b.max.y)
  }

  /** How much a child's box must grow to take in `b`. */
  function Enlargement(b: Box, child: Box): real
    requires b.Box? && child.Box?
  {
    Area(Extend(b, child)) - Area(child)
  }

  // ----- what the measures measure

  /** Area is what cutting a box either way shares out, with the unit square as unit. */
  lemma AreaCut(b: Box, x: real, y: real)
    requires b.Box?
    ensures Area(b) == Area(Box(b.min, Vec(x, b.max.y))) + Area(Box(Vec(x, b.min.y), b.max))
    ensures Area(b) == Area(Box(b.min, Vec(b.max.x, y))) + Area(Box(Vec(b.min.x, y), b.max))
    ensures Area(Box(Vec(x, y), Vec(x + 1.0, y + 1.0))) == 1.0
  {
    ProductSplit(x - b.min.x, b.max.x - x, b.max.y - b.min.y);
    ProductSplit(y - b.min.y, b.max.y - y, b.max.x - b.min.x);
  }

  lemma ProductSplit(u: real, v: real, w: real)
    ensures (u + v) * w == u * w + v * w
  {}

  lemma ProductMonotone(u: real, v: real, s: real, t: real)
    requires 0.0 <= u <= s && 0.0 <= v <= t
    ensures 0.0 <= u * v <= s * t
  {
    assert u * v <= s * v;
    assert s * v <= s * t;
  }

  lemma AreaMonotone(a: Box, b: Box)
    requires Contains(a, b) && Proper(b)
    ensures Area(b) <= Area(a)
  {
    ProductMonotone(b.max.x - b.min.x, b.max.y - b.min.y, a.max.x - a.min.x, a.max.y - a.min.y);
  }

  /** The enlargement is the least area by which a box around both exceeds the child. */
  lemma EnlargementIsLeast(b: Box, child: Box, c: Box)
    requires Proper(b) && Proper(child) && Contains(c, b) && Contains(c, child)
    ensures Enlargement(b, child) <= Area(c) - Area(child)
    ensures exists d: Box ::
              d.Box? && Contains(d, b) && Contains(d, child) && Enlargement(b, child) == Area(d) - Area(child)
  {
    hide Area;
    var d := Extend(b, child);
    ExtendContains(b, child);
    ExtendIsLeast(b, child, c);
    AreaMonotone(c, d);
  }

  /** A box that holds exactly the common points of two. */
  ghost predicate IsShared(a: Box, b: Box, c: Box) {
    Proper(c) && forall v :: Has(c, v) <==> Has(a, v) && Has(b, v)
  }

  /** The overlap is the area of what two boxes share, and nothing if that is nothing. */
  lemma IntersectionAreaIs(a: Box, b: Box)
    requires Proper(a) && Proper(b)
    ensures forall c :: IsShared(a, b, c) ==> IntersectionArea(a, b) == Area(c)
    ensures if exists v :: Has(a, v) && Has(b, v) then exists c :: IsShared(a, b, c) else IntersectionArea(a, b) == 0.0
  {
    IntersectsIff(a, b);
    if Intersects(a, b) {
      var s := Shared(a, b);
      hide Has, Area, IntersectionArea;
      forall c | IsShared(a, b, c) ensures c == s { OneShared(a, b, c, s); }
    } else {
      NothingShared(a, b);
      hide Has, Area, IntersectionArea;
      forall c | IsShared(a, b, c) ensures false { SomePoint(c); }
    }
  }

  lemma Shared(a: Box, b: Box) returns (s: Box)
    requires Intersects(a, b) && Proper(a) && Proper(b)
    ensures IsShared(a, b, s) && IntersectionArea(a, b) == Area(s)
  {
    s := Box(Vec(Most(a.min.x, b.min.x), Most(a.min.y, b.min.y)),
             Vec(Least(a.max.x, b.max.x), Least(a.max.y, b.max.y)));
  }

  lemma NothingShared(a: Box, b: Box)
    requires Proper(a) && Proper(b) && !Intersects(a, b)
    ensures IntersectionArea(a, b) == 0.0
  {}

  lemma SomePoint(c: Box)
    requires Proper(c)
    ensures Has(c, c.min)
  {}

  lemma OneShared(a: Box, b: Box, c: Box, d: Box)
    requires IsShared(a, b, c) && IsShared(a, b, d)
    ensures c == d
  {
    hide Has;
    ContainsIff(c, d);
    ContainsIff(d, c);
  }

  function Abs(x: real): real { if x < 0.0 then -x else x }

  /** How far two points are apart along the axes. */
  function Apart(v: Vec, w: Vec): real { Abs(v.x - w.x) + Abs(v.y - w.y) }

  /** The margin is the farthest two points of the box are apart along the axes. */
  lemma MarginIsFarthest(b: Box)
    requires Proper(b)
    ensures forall v, w :: Has(b, v) && Has(b, w) ==> Apart(v, w) <= Margin(b)
    ensures exists v, w :: Has(b, v) && Has(b, w) && Apart(v, w) == Margin(b)
  {
    assert Has(b, b.min) && Has(b, b.max) && Apart(b.min, b.max) == Margin(b);
  }
}
