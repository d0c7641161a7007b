/** The result container of the clipper, `PolyDefault`
    (gpc/geometry/PolyDefault.js): a hole flag and an ordered list of inner
    polygons.

    The inner polygons are kept by value.  `addPoly` in the JavaScript stores
    a reference, so a later change to a polygon already added would show in
    the container; the model does not capture that sharing.  An inner polygon is either a
    `PolySimple` (a list of points and a `contributing` flag) or a nested
    `PolyDefault`, which is how `getResult` builds a result with several
    contours.  gpc/geometry/PolySimple.js is not part of this model; what the
    model relies on is that a fresh `PolySimple` has no points and is
    contributing, that its `addPoint` appends, that its `setContributing(0, c)`
    sets the flag, and that its `isHole()` answers false.

    `alert(...)` in the JavaScript shows a message and then carries on, so
    every method below that can alert returns `alerted` and still performs the
    update the code performs after the alert. */
module Polygons {
  import opened Common

  datatype Poly =
    | Simple(points: seq<Point>, contributing: bool)
    | Complex(hole: bool, inners: seq<Poly>)

  /** `isHole()` of an inner polygon. */
  predicate PolyIsHole(p: Poly) {
    p.Complex? && p.hole
  }

  /** The inner polygon `addPoint(pt)` leaves at the place of `p`. */
  function WithPoint(p: Poly, pt: Point): (r: Poly)
    ensures r.Simple? == p.Simple? && PolyIsHole(r) == PolyIsHole(p)
    decreases p, 1
  {
    match p
    case Simple(pts, c) => Simple(pts + [pt], c)
    case Complex(h, inners) => Complex(h, AddPointTo(inners, pt))
  }

  /** The inner-polygon list `addPoint(pt)` leaves: on an empty list a fresh
      simple polygon is created first; the point always goes to inner
      polygon 0. */
  function AddPointTo(list: seq<Poly>, pt: Point): (r: seq<Poly>)
    ensures |list| == 0 ==> r == [Simple([pt], true)]
    ensures |list| > 0 ==> |r| == |list| && r[1..] == list[1..] && r[0] == WithPoint(list[0], pt)
    decreases list, 0
  {
    if |list| == 0 then [Simple([pt], true)] else list[0 := WithPoint(list[0], pt)]
  }

  /** The list left by adding the points `pts` one after the other, in order. */
  function AddPoints(list: seq<Poly>, pts: seq<Point>): seq<Poly>
  {
    if |pts| == 0 then list else AddPointTo(AddPoints(list, pts[..|pts| - 1]), pts[|pts| - 1])
  }

  /** Adding the points of a non-empty contour to an empty polygon leaves
      exactly one simple, contributing inner polygon holding them in order. */
  lemma {:induction false} PointsIntoEmpty(pts: seq<Point>)
    requires |pts| > 0
    ensures AddPoints([], pts) == [Simple(pts, true)]
  {
    var init := pts[..|pts| - 1];
    if |init| > 0 {
      PointsIntoEmpty(init);
      assert init + [pts[|pts| - 1]] == pts;
    } else {
      assert pts == [pts[0]];
    }
  }

  /** Whether `setContributing(0, c)` may be applied to an inner polygon
      without dereferencing a missing element. */
  predicate CanSetContributing(p: Poly) {
    match p
    case Simple(_, _) => true
    case Complex(_, inners) => |inners| > 0 && CanSetContributing(inners[0])
  }

  /** The simple polygon reached from `p` by following inner polygon 0:
      the one whose flag `setContributing(0, c)` sets. */
  function Leaf(p: Poly): (r: Poly)
    requires CanSetContributing(p)
    ensures r.Simple?
  {
    match p
    case Simple(_, _) => p
    case Complex(_, inners) => Leaf(inners[0])
  }

  /** Every nested polygon on the way from `p` to its leaf has exactly one
      inner polygon, so that none of them alerts. */
  predicate SingleChain(p: Poly)
    requires CanSetContributing(p)
  {
    match p
    case Simple(_, _) => true
    case Complex(_, inners) => |inners| == 1 && SingleChain(inners[0])
  }

  /** `setContributing(0, c)` applied to an inner polygon: the new polygon, and
      whether a nested `PolyDefault` on the way alerted.  The leaf takes the
      flag `c` and keeps its points; an alert is raised exactly when some
      nested polygon on the way does not have exactly one inner polygon. */
  function SetContributingOf(p: Poly, c: bool): (r: (Poly, bool))
    requires CanSetContributing(p)
    ensures r.0.Simple? == p.Simple? && PolyIsHole(r.0) == PolyIsHole(p)
    ensures p.Complex? ==> |r.0.inners| == |p.inners| && r.0.inners[1..] == p.inners[1..]
    ensures CanSetContributing(r.0) && Leaf(r.0) == Simple(Leaf(p).points, c)
    ensures r.1 <==> !SingleChain(p)
  {
    match p
    case Simple(pts, _) => (Simple(pts, c), false)
    case Complex(h, inners) =>
      var inner := SetContributingOf(inners[0], c);
      (Complex(h, inners[0 := inner.0]), inner.1 || |inners| != 1)
  }

  class PolyDefault {
    /** `m_IsHole` */
    var hole: bool
    /** `m_List` */
    var list: seq<Poly>

    /** This polygon as an inner-polygon value, for storing it in another. */
    function Value(): Poly
      reads this
    {
      Complex(hole, list)
    }

    constructor (isHole: bool := false)
      ensures hole == isHole && list == []
    {
      hole := isHole;
      list := [];
    }

    method Clear()
      modifies this
      ensures list == [] && hole == old(hole)
    {
      list := [];
    }

    method AddPoint(p: Point)
      modifies this
      ensures hole == old(hole)
      ensures list == AddPointTo(old(list), p)
    {
      if |list| == 0 {
        list := list + [Simple([], true)];
        assert [] + [p] == [p];
      }
      list := list[0 := WithPoint(list[0], p)];
    }

    /** Appends `p`; alerts when this polygon is a hole that already has
        inner polygons, and appends all the same. */
    method AddPoly(p: Poly) returns (alerted: bool)
      modifies this
      ensures alerted <==> |old(list)| > 0 && old(hole)
      ensures hole == old(hole) && list == old(list) + [p]
    {
      alerted := |list| > 0 && hole;
      list := list + [p];
    }

    method IsEmpty() returns (b: bool)
      ensures b <==> |list| == 0
    {
      b := list == [];
    }

    method GetNumInnerPoly() returns (n: nat)
      ensures n == |list|
    {
      n := |list|;
    }

    method GetInnerPoly(i: nat) returns (p: Poly)
      requires i < |list|
      ensures p == list[i]
    {
      p := list[i];
    }

    /** Alerts on a polygon made of more than one inner polygon, and answers
        the flag all the same. */
    method IsHole() returns (h: bool, alerted: bool)
      ensures h == hole
      ensures alerted <==> |list| > 1
    {
      alerted := |list| > 1;
      h := hole;
    }

    method SetIsHole(b: bool) returns (alerted: bool)
      modifies this
      ensures alerted <==> |old(list)| > 1
      ensures hole == b && list == old(list)
    {
      alerted := |list| > 1;
      hole := b;
    }

    /** Alerts unless there is exactly one inner polygon (or when a nested
        polygon alerts), and updates inner polygon `i` all the same. */
    method SetContributing(i: nat, c: bool) returns (alerted: bool)
      requires i < |list| && CanSetContributing(list[i])
      modifies this
      ensures alerted <==> |old(list)| != 1 || !SingleChain(old(list)[i])
      ensures hole == old(hole)
      ensures list == old(list)[i := SetContributingOf(old(list)[i], c).0]
      ensures CanSetContributing(list[i]) && Leaf(list[i]) == Simple(Leaf(old(list)[i]).points, c)
    {
      alerted := |list| != 1;
      var r := SetContributingOf(list[i], c);
      list := list[i := r.0];
      alerted := alerted || r.1;
    }

    /** `equals`: `that` is a `PolyDefault` (not null) with the same hole flag
        and the same inner polygons. */
    method Equals(that: PolyDefault?) returns (b: bool)
      ensures b <==> that != null && hole == that.hole && list == that.list
      ensures that == this ==> b
    {
      if that == null {
        return false;
      }
      if hole != that.hole {
        return false;
      }
      if list != that.list {
        return false;
      }
      return true;
    }
  }

  /** `setIsHole(b)` followed by `isHole()` answers `b`, and neither call
      alerts on a polygon with at most one inner polygon. */
  method HoleFlagRoundTrip(p: PolyDefault, b: bool) returns (h: bool, alerted: bool)
    modifies p
    ensures h == b
    ensures alerted <==> |old(p.list)| > 1
    ensures p.list == old(p.list)
  {
    var a1 := p.SetIsHole(b);
    var a2;
    h, a2 := p.IsHole();
    alerted := a1 || a2;
  }

  /** After `clear()` the polygon is empty. */
  method ClearThenIsEmpty(p: PolyDefault) returns (b: bool)
    modifies p
    ensures b
  {
    p.Clear();
    b := p.IsEmpty();
  }
}
