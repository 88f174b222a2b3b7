/**
  Axis-aligned bounds as the growth node computes them: a box that starts
  cleared and is expanded by one point at a time, and its largest side.
 */
module Bounds {

  import opened Skeleton

  function Min(a: real, b: real): real
  {
    if a <= b then a else b
  }

  function Max(a: real, b: real): real
  {
    if a <= b then b else a
  }

  /** `p` lies in the box, faces included. */
  predicate Inside(b: Box, p: Vec3)
  {
    b.Box? && b.lo.x <= p.x <= b.hi.x && b.lo.y <= p.y <= b.hi.y && b.lo.z <= p.z <= b.hi.z
  }

  /** Each side of `inner` lies on or inside the same side of `outer`; a cleared box is within any box. */
  predicate Within(inner: Box, outer: Box)
  {
    inner.Box? ==>
      && outer.Box?
      && outer.lo.x <= inner.lo.x && outer.lo.y <= inner.lo.y && outer.lo.z <= inner.lo.z
      && inner.hi.x <= outer.hi.x && inner.hi.y <= outer.hi.y && inner.hi.z <= outer.hi.z
  }

  /** `expand(p)`: a cleared box becomes the point itself; otherwise each side moves out just enough to reach `p`. */
  function Expand(b: Box, p: Vec3): (r: Box)
    ensures Inside(r, p) && Within(b, r)
    ensures forall outer :: Within(b, outer) && Inside(outer, p) ==> Within(r, outer)
  {
    match b
    case Cleared => Box(p, p)
    case Box(lo, hi) =>
      Box(Vec3(Min(lo.x, p.x), Min(lo.y, p.y), Min(lo.z, p.z)), Vec3(Max(hi.x, p.x), Max(hi.y, p.y), Max(hi.z, p.z)))
  }

  /** The box left by clearing and then expanding by every point of `ps` in order. */
  function BoundsOf(ps: seq<Vec3>): Box
    decreases |ps|
  {
    if ps == [] then Cleared else Expand(BoundsOf(ps[..|ps| - 1]), ps[|ps| - 1])
  }

  /** The bounds hold every point, are cleared exactly for no points, and lie within any box that holds every point. */
  lemma {:induction false} BoundsFacts(ps: seq<Vec3>)
    ensures BoundsOf(ps) == Cleared <==> ps == []
    ensures forall k :: 0 <= k < |ps| ==> Inside(BoundsOf(ps), ps[k])
    ensures forall outer :: (forall k :: 0 <= k < |ps| ==> Inside(outer, ps[k])) ==> Within(BoundsOf(ps), outer)
    decreases |ps|
  {
    if ps != [] {
      var n := |ps| - 1;
      var init := ps[..n];
      BoundsFacts(init);
      forall k | 0 <= k < |ps|
        ensures Inside(BoundsOf(ps), ps[k])
      {
        if k < n {
          assert init[k] == ps[k];
        }
      }
      forall outer | forall k :: 0 <= k < |ps| ==> Inside(outer, ps[k])
        ensures Within(BoundsOf(ps), outer)
      {
        forall k | 0 <= k < |init|
          ensures Inside(outer, init[k])
        {
          assert init[k] == ps[k];
        }
        assert Inside(outer, ps[n]);
      }
    }
  }

  /** `max(width, max(height, depth))`; a cleared box is taken to have no extent. */
  function MaxExtent(b: Box): real
  {
    match b
    case Cleared => 0.0
    case Box(lo, hi) => Max(hi.x - lo.x, Max(hi.y - lo.y, hi.z - lo.z))
  }

  /** No two points of `ps` are further apart along an axis than the largest side of their bounds. */
  lemma ExtentCovers(ps: seq<Vec3>, p: Vec3, q: Vec3)
    requires p in ps && q in ps
    ensures p.x - q.x <= MaxExtent(BoundsOf(ps)) && p.y - q.y <= MaxExtent(BoundsOf(ps)) && p.z - q.z <= MaxExtent(BoundsOf(ps))
  {
    BoundsFacts(ps);
    var i :| 0 <= i < |ps| && ps[i] == p;
    var j :| 0 <= j < |ps| && ps[j] == q;
    assert Inside(BoundsOf(ps), ps[i]) && Inside(BoundsOf(ps), ps[j]);
  }

  /** Lines 114-118 and 173-176 of src/GrowerNode.cpp: clear, then expand by each point in turn. */
  method Enclose(ps: seq<Vec3>) returns (b: Box)
    ensures b == BoundsOf(ps)
  {
    b := Cleared;
    var i := 0;
    while i < |ps|
      invariant 0 <= i <= |ps|
      invariant b == BoundsOf(ps[..i])
    {
      assert ps[..i + 1][..i] == ps[..i];
      b := Expand(b, ps[i]);
      i := i + 1;
    }
    assert ps[..i] == ps;
  }

  /** The node positions, in node order. */
  function Positions(nodes: seq<GrowerNode>): (r: seq<Vec3>)
    ensures |r| == |nodes| && forall i :: 0 <= i < |nodes| ==> r[i] == nodes[i].pos
  {
    if nodes == [] then [] else Positions(nodes[..|nodes| - 1]) + [nodes[|nodes| - 1].pos]
  }

  /** Lines 173-176 of src/GrowerNode.cpp: the bounds of the node positions. */
  method NodeBounds(nodes: seq<GrowerNode>) returns (b: Box)
    ensures b == BoundsOf(Positions(nodes))
  {
    b := Cleared;
    var i := 0;
    while i < |nodes|
      invariant 0 <= i <= |nodes|
      invariant b == BoundsOf(Positions(nodes[..i]))
    {
      assert nodes[..i + 1][..i] == nodes[..i];
      b := Expand(b, nodes[i].pos);
      i := i + 1;
    }
    assert nodes[..i] == nodes;
  }
}
