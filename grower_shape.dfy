/**
  The shape node's output computation (GrowerShape::compute and
  GrowerShape::CalculateThickness in src/GrowerShape.cpp): branch thickness
  with a base of one, branch ends forced thin, the values brought into the
  unit range by their minimum and maximum, handed to the thickness curve as
  one minus the scaled value, and the tube mesh built over the skeleton.
 */
module GrowerShape {

  import opened Skeleton
  import opened Thickness
  import opened MeshLayout

  /** Line 357: the thickness of a leaf or trimmed node. */
  const BASE_THICKNESS: real := 1.0

  /** The largest finite single-precision value, the starting minimum of lines 455-456. */
  const FLT_MAX: real := 340282346638528859811704183484516925440.0

  /** The `1e-8f` of lines 463 and 466. */
  const EPSILON: real := 0.00000001

  /** `std::max`: the first argument unless it is smaller than the second. */
  function Max(a: real, b: real): real
  {
    if a < b then b else a
  }

  /** `std::min`: the first argument unless the second is smaller. */
  function Min(a: real, b: real): real
  {
    if b < a then b else a
  }

  /* ---------- the range of the values (lines 455-463) ---------- */

  /** The running maximum of lines 455-461, started at zero. */
  function RunningMax(s: seq<real>): (r: real)
    ensures 0.0 <= r
    ensures forall i :: 0 <= i < |s| ==> s[i] <= r
    ensures r == 0.0 || exists i :: 0 <= i < |s| && s[i] == r
  {
    if s == [] then 0.0
    else
      var m := RunningMax(s[..|s| - 1]);
      assert forall i :: 0 <= i < |s| - 1 ==> s[..|s| - 1][i] == s[i];
      Max(m, s[|s| - 1])
  }

  /** The running minimum of lines 456-461, started at `FLT_MAX`. */
  function RunningMin(s: seq<real>): (r: real)
    ensures r <= FLT_MAX
    ensures forall i :: 0 <= i < |s| ==> r <= s[i]
    ensures r == FLT_MAX || exists i :: 0 <= i < |s| && s[i] == r
  {
    if s == [] then FLT_MAX
    else
      var m := RunningMin(s[..|s| - 1]);
      assert forall i :: 0 <= i < |s| - 1 ==> s[..|s| - 1][i] == s[i];
      Min(m, s[|s| - 1])
  }

  /** Line 462: the lower end of the range, never above the maximum. */
  function Low(s: seq<real>): real
  {
    Min(RunningMin(s), RunningMax(s))
  }

  /** Line 463: the upper end of the range, at least `EPSILON` above the lower end. */
  function High(s: seq<real>): real
  {
    Max(RunningMax(s), Low(s) + EPSILON)
  }

  /** Every value lies in the range, and the range is never empty. */
  lemma RangeHolds(s: seq<real>)
    ensures Low(s) + EPSILON <= High(s)
    ensures forall i :: 0 <= i < |s| ==> Low(s) <= s[i] <= High(s)
  {
  }

  /** One value lies in the range. */
  lemma InRange(s: seq<real>, i: nat)
    requires i < |s|
    ensures Low(s) <= s[i] <= High(s) && Low(s) < High(s)
  {
    RangeHolds(s);
  }

  /**
    For non-negative values, as the walk leaves them, the low end of the range
    and the running maximum are both values of the array: neither start value
    survives.
   */
  lemma RangeOfNonNegative(s: seq<real>)
    requires s != [] && forall i :: 0 <= i < |s| ==> 0.0 <= s[i] < FLT_MAX
    ensures exists i :: 0 <= i < |s| && s[i] == Low(s)
    ensures exists i :: 0 <= i < |s| && s[i] == RunningMax(s)
  {
    var lo := RunningMin(s);
    assert lo < FLT_MAX by {
      assert lo <= s[0];
    }
    if RunningMax(s) == 0.0 {
      assert s[0] <= 0.0;
    }
  }

  /* ---------- the argument of the thickness curve (lines 465-471) ---------- */

  /** `max(0, min(1, x))`: the value kept in the unit interval. */
  function Clamp01(x: real): (r: real)
    ensures 0.0 <= r <= 1.0
    ensures 0.0 <= x <= 1.0 ==> r == x
    ensures x < 0.0 ==> r == 0.0
    ensures 1.0 < x ==> r == 1.0
  {
    Max(0.0, Min(1.0, x))
  }

  /** Line 466: the value's place between the ends of the range. */
  function Normalised(x: real, lo: real, hi: real): real
    requires lo < hi
  {
    (x - lo) / (EPSILON + hi - lo)
  }

  /** Lines 467-471: the position looked up on the thickness curve. */
  function CurveInput(x: real, lo: real, hi: real, scale: real): real
    requires lo < hi
  {
    Clamp01(1.0 - Normalised(x, lo, hi) * scale)
  }

  /** A quotient of a value by a larger positive value is below one. */
  lemma QuotientBelowOne(a: real, d: real)
    requires 0.0 <= a < d
    ensures 0.0 <= a / d < 1.0
  {
    var q := a / d;
    assert q * d == a;
    assert (1.0 - q) * d == d - a;
  }

  /** Dividing by a positive value keeps the order. */
  lemma QuotientMono(a: real, b: real, d: real)
    requires a <= b && 0.0 < d
    ensures a / d <= b / d
  {
    var p, q := a / d, b / d;
    assert p * d == a && q * d == b;
    assert (q - p) * d == b - a;
  }

  /** A value in the range is normalised into `[0, 1)`. */
  lemma NormalisedBounds(x: real, lo: real, hi: real)
    requires lo <= x <= hi && lo < hi
    ensures 0.0 <= Normalised(x, lo, hi) < 1.0
  {
    QuotientBelowOne(x - lo, EPSILON + hi - lo);
  }

  /** Normalisation keeps the order of the values. */
  lemma NormalisedMono(x: real, y: real, lo: real, hi: real)
    requires x <= y && lo < hi
    ensures Normalised(x, lo, hi) <= Normalised(y, lo, hi)
  {
    QuotientMono(x - lo, y - lo, EPSILON + hi - lo);
  }

  /** Every value of the array is normalised into `[0, 1)`. */
  lemma NormalisedInUnit(s: seq<real>, i: nat)
    requires i < |s|
    ensures Low(s) < High(s)
    ensures 0.0 <= Normalised(s[i], Low(s), High(s)) < 1.0
  {
    RangeHolds(s);
    NormalisedBounds(s[i], Low(s), High(s));
  }

  /** A scale in `[0, 1]` keeps a normalised value in `[0, 1)`. */
  lemma ScaledBounds(n: real, scale: real)
    requires 0.0 <= n < 1.0 && 0.0 <= scale <= 1.0
    ensures 0.0 <= n * scale < 1.0
  {
    assert n * scale <= n * 1.0;
  }

  /** With a scale in `[0, 1]` the clamp never bites: the curve is read at one minus the scaled value, in `(0, 1]`. */
  lemma UnclampedForSmallScale(s: seq<real>, i: nat, scale: real)
    requires i < |s| && 0.0 <= scale <= 1.0
    ensures Low(s) < High(s)
    ensures CurveInput(s[i], Low(s), High(s), scale) == 1.0 - Normalised(s[i], Low(s), High(s)) * scale
    ensures 0.0 < CurveInput(s[i], Low(s), High(s), scale) <= 1.0
  {
    InRange(s, i);
    CurveUnclamped(s[i], Low(s), High(s), scale);
  }

  /** A value in the range, under a scale in `[0, 1]`, reads the curve at one minus its scaled place. */
  lemma CurveUnclamped(x: real, lo: real, hi: real, scale: real)
    requires lo <= x <= hi && lo < hi && 0.0 <= scale <= 1.0
    ensures CurveInput(x, lo, hi, scale) == 1.0 - Normalised(x, lo, hi) * scale
    ensures 0.0 < CurveInput(x, lo, hi, scale) <= 1.0
  {
    var n := Normalised(x, lo, hi);
    NormalisedBounds(x, lo, hi);
    ScaledBounds(n, scale);
    assert 0.0 < 1.0 - n * scale <= 1.0;
    assert CurveInput(x, lo, hi, scale) == Clamp01(1.0 - n * scale);
  }

  /** The thinnest value reads the curve at one, whatever the scale. */
  lemma ThinnestReadsOne(s: seq<real>, i: nat, scale: real)
    requires i < |s| && s[i] == Low(s)
    ensures Low(s) < High(s)
    ensures CurveInput(s[i], Low(s), High(s), scale) == 1.0
  {
    RangeHolds(s);
  }

  /** A non-negative scale keeps the order of normalised values. */
  lemma ScaledMono(m: real, n: real, scale: real)
    requires m <= n && 0.0 <= scale
    ensures m * scale <= n * scale
  {
    assert (n - m) * scale >= 0.0;
  }

  /** With a non-negative scale, a thicker value reads the curve no further along than a thinner one. */
  lemma ThickerReadsLower(s: seq<real>, i: nat, k: nat, scale: real)
    requires i < |s| && k < |s| && s[i] <= s[k] && 0.0 <= scale
    ensures Low(s) < High(s)
    ensures CurveInput(s[k], Low(s), High(s), scale) <= CurveInput(s[i], Low(s), High(s), scale)
  {
    RangeHolds(s);
    CurveAntitone(s[i], s[k], Low(s), High(s), scale);
  }

  /** Under a non-negative scale, the larger of two values reads the curve no further along. */
  lemma CurveAntitone(x: real, y: real, lo: real, hi: real, scale: real)
    requires x <= y && lo < hi && 0.0 <= scale
    ensures CurveInput(y, lo, hi, scale) <= CurveInput(x, lo, hi, scale)
  {
    NormalisedMono(x, y, lo, hi);
    var m, n := Normalised(x, lo, hi), Normalised(y, lo, hi);
    ScaledMono(m, n, scale);
    var u, v := 1.0 - n * scale, 1.0 - m * scale;
    ClampMono(u, v);
    assert CurveInput(y, lo, hi, scale) == Clamp01(u);
    assert CurveInput(x, lo, hi, scale) == Clamp01(v);
  }

  /** The clamp keeps the order. */
  lemma ClampMono(u: real, v: real)
    requires u <= v
    ensures Clamp01(u) <= Clamp01(v)
  {
  }

  /* ---------- the passes over the array ---------- */

  /** Lines 455-463: the range of the array's values. */
  method ValueRange(t: array<real>) returns (lo: real, hi: real)
    ensures lo == Low(t[..]) && hi == High(t[..])
  {
    var maxThickness := 0.0;
    var minThickness := FLT_MAX;
    var i := 0;
    while i < t.Length
      invariant 0 <= i <= t.Length
      invariant maxThickness == RunningMax(t[..i]) && minThickness == RunningMin(t[..i])
    {
      assert t[..i + 1][..i] == t[..i];
      maxThickness := Max(maxThickness, t[i]);
      minThickness := Min(minThickness, t[i]);
      i := i + 1;
    }
    assert t[..i] == t[..];
    minThickness := Min(minThickness, maxThickness);
    maxThickness := Max(maxThickness, minThickness + EPSILON);
    lo, hi := minThickness, maxThickness;
  }

  /** Lines 465-472: every value replaced by the curve's value at its clamped position. */
  method Remap(t: array<real>, lo: real, hi: real, scale: real, remap: real -> real)
    modifies t
    requires lo < hi
    ensures forall i :: 0 <= i < t.Length ==> t[i] == remap(CurveInput(old(t[i]), lo, hi, scale))
  {
    var i := 0;
    while i < t.Length
      invariant 0 <= i <= t.Length
      invariant forall k :: 0 <= k < i ==> t[k] == remap(CurveInput(old(t[k]), lo, hi, scale))
      invariant forall k :: i <= k < t.Length ==> t[k] == old(t[k])
    {
      t[i] := remap(CurveInput(t[i], lo, hi, scale));
      i := i + 1;
    }
  }

  /** Lines 455-472: the values normalised by their own range and remapped through the thickness curve. */
  method Normalise(t: array<real>, scale: real, remap: real -> real)
    modifies t
    ensures Low(old(t[..])) < High(old(t[..]))
    ensures forall i :: 0 <= i < t.Length ==>
      t[i] == remap(CurveInput(old(t[i]), Low(old(t[..])), High(old(t[..])), scale))
  {
    RangeHolds(t[..]);
    var lo, hi := ValueRange(t);
    Remap(t, lo, hi, scale, remap);
  }

  /**
    Lines 421-453 rewrite some values along single-child paths. That pass is
    not part of this model: `smooth` stands for it, and a result of the wrong
    length is taken to leave the values alone.
   */
  function Smoothed(smooth: seq<real> -> seq<real>, s: seq<real>): (r: seq<real>)
    ensures |r| == |s|
  {
    if |smooth(s)| == |s| then smooth(s) else s
  }

  /** The stand-in for lines 421-453: the array takes the smoothed values. */
  method Smooth(t: array<real>, smooth: seq<real> -> seq<real>)
    modifies t
    ensures t[..] == Smoothed(smooth, old(t[..]))
  {
    var s := Smoothed(smooth, t[..]);
    var i := 0;
    while i < t.Length
      invariant 0 <= i <= t.Length
      invariant forall k :: 0 <= k < i ==> t[k] == s[k]
    {
      t[i] := s[i];
      i := i + 1;
    }
  }

  /**
    Lines 350-475 over a zeroed array: the count of nodes the mesh is built
    from, and every node's position on the thickness curve after the walk, the
    forcing, the smoothing and the normalisation.
   */
  method CalculateThickness(nodes: seq<GrowerNode>, thicknessScale: real, root: real -> real, remap: real -> real,
                            smooth: seq<real> -> seq<real>, t: array<real>) returns (activeNodes: nat)
    modifies t
    requires WellFormed(nodes) && IsSqrt(root)
    requires t.Length == |nodes| && forall i :: 0 <= i < t.Length ==> t[i] == 0.0
    ensures activeNodes == |ActiveBelow(nodes, |nodes|)|
    ensures var s := Smoothed(smooth, ForcedValues(nodes, BASE_THICKNESS, root));
      && Low(s) < High(s)
      && forall i :: 0 <= i < |nodes| ==> t[i] == remap(CurveInput(s[i], Low(s), High(s), thicknessScale))
  {
    activeNodes := WalkAndForce(nodes, BASE_THICKNESS, root, t);
    assert t[..] == ForcedValues(nodes, BASE_THICKNESS, root);
    Smooth(t, smooth);
    Normalise(t, thicknessScale, remap);
  }

  datatype Option<T> = None | Some(value: T)

  /** The mesh handed to Maya: vertex count, quad corner indices and the corner count of each face. */
  datatype Mesh = Mesh(vertexCount: nat, indices: seq<int>, polygonCounts: seq<int>)

  /**
    The tube mesh over a skeleton: empty without mesh nodes or sections;
    otherwise one block of vertices per ring, the quads that join every mesh
    node to its parent wound as `w` says, every index inside the vertex
    buffer, and one four-corner face per quad.
   */
  ghost predicate TubeMesh(nodes: seq<GrowerNode>, ts: nat, w: Winding, m: Mesh)
    requires WellFormed(nodes)
  {
    var activeNodes := |ActiveBelow(nodes, |nodes|)|;
    && (activeNodes == 0 || ts == 0 ==> m == Mesh(0, [], []))
    && (activeNodes != 0 && ts != 0 ==>
        && m.vertexCount == ts * RingsBelow(nodes, |nodes|)
        && m.indices == MeshQuads(nodes, Offsets(nodes, ts), ts, w)
        && |m.indices| == 4 * ts * (activeNodes - 1)
        && (forall k :: 0 <= k < |m.indices| ==> 0 <= m.indices[k] < m.vertexCount)
        && |m.polygonCounts| == ts * (activeNodes - 1)
        && (forall k :: 0 <= k < |m.polygonCounts| ==> m.polygonCounts[k] == 4))
  }

  /** CreateMesh given the count of mesh nodes, its three outputs gathered. */
  method BuildMesh(nodes: seq<GrowerNode>, activeNodes: nat, ts: nat, w: Winding) returns (m: Mesh)
    requires WellFormed(nodes) && activeNodes == |ActiveBelow(nodes, |nodes|)|
    ensures TubeMesh(nodes, ts, w, m)
  {
    var vertexCount, indices, polygonCounts := CreateMesh(nodes, activeNodes, ts, w);
    m := Mesh(vertexCount, indices, polygonCounts);
  }

  /**
    Lines 180-199: no mesh for an empty skeleton; otherwise the thickness of
    every node over a zeroed array, then the tube mesh, wound as in
    src/GrowerShape.cpp.
   */
  method Compute(nodes: seq<GrowerNode>, tubeSections: nat, thicknessScale: real, root: real -> real,
                 remap: real -> real, smooth: seq<real> -> seq<real>)
    returns (mesh: Option<Mesh>, ghost thickness: seq<real>)
    requires (nodes == [] || WellFormed(nodes)) && IsSqrt(root)
    ensures nodes == [] <==> mesh.None?
    ensures mesh.Some? ==> WellFormed(nodes) && TubeMesh(nodes, tubeSections, Forward, mesh.value)
    ensures mesh.Some? ==>
      var s := Smoothed(smooth, ForcedValues(nodes, BASE_THICKNESS, root));
      && |thickness| == |nodes| && Low(s) < High(s)
      && forall i :: 0 <= i < |nodes| ==> thickness[i] == remap(CurveInput(s[i], Low(s), High(s), thicknessScale))
  {
    if |nodes| == 0 {
      return None, [];
    }
    var t := new real[|nodes|](_ => 0.0);
    var activeNodes := CalculateThickness(nodes, thicknessScale, root, remap, smooth, t);
    thickness := t[..];
    var m := BuildMesh(nodes, activeNodes, tubeSections, Forward);
    mesh := Some(m);
  }
}
