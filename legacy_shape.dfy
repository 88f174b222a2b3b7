/**
  The older mesher node (Shape in Grower/MesherNode.cpp): the same walk and
  the same mesh layout as the shape node, but the base thickness comes from
  a user attribute, the values are not normalised, and the quads are wound
  the other way round.
 */
module LegacyShape {

  import opened Seqs
  import opened Skeleton
  import opened Thickness
  import opened MeshLayout
  import opened GrowerShape

  /**
    Lines 406-509 as written: the walk with the user's base over a zeroed
    array, branch ends forced, then the smoothing. The readiness test
    `thickness >= base` only tells computed children from zeroed ones when
    the base is positive; with a base of zero the root is taken as done at
    once, so the count is that of the root alone.
   */
  method CalculateThicknessAsWritten(nodes: seq<GrowerNode>, base: real, root: real -> real,
                                     smooth: seq<real> -> seq<real>, t: array<real>) returns (activeNodes: nat)
    modifies t
    requires WellFormed(nodes) && IsSqrt(root)
    requires t.Length == |nodes| && forall i :: 0 <= i < t.Length ==> t[i] == 0.0
    ensures 0.0 < base ==>
      activeNodes == |ActiveBelow(nodes, |nodes|)| && t[..] == Smoothed(smooth, ForcedValues(nodes, base, root))
    ensures base <= 0.0 ==>
      activeNodes == FlatCount(nodes) && t[..] == Smoothed(smooth, ForcedFlatValues(nodes, base))
  {
    activeNodes := WalkAndForce(nodes, base, root, t);
    if 0.0 < base {
      assert t[..] == ForcedValues(nodes, base, root);
    } else {
      assert t[..] == ForcedFlatValues(nodes, base);
    }
    Smooth(t, smooth);
  }

  /** A root with one untrimmed leaf child. */
  const TwoNodes: seq<GrowerNode> := [GrowerNode(Origin, Origin, INVALID_PARENT, false, [1]), GrowerNode(Origin, Origin, 0, false, [])]

  lemma TwoNodesWellFormed()
    ensures WellFormed(TwoNodes)
  {
    assert ListedByParent(TwoNodes, 1);
    assert Distinct(TwoNodes[0].children) && Distinct(TwoNodes[1].children);
  }

  /**
    With the attribute's minimum base of zero the as-written count is one,
    while both nodes are part of the mesh: the index buffer is sized for no
    quads, and the quad loop writes `4 * tubeSections` indices into it.
   */
  lemma ZeroBaseMiscounts(ts: nat)
    requires 0 < ts
    ensures WellFormed(TwoNodes)
    ensures FlatCount(TwoNodes) == 1 && |ActiveBelow(TwoNodes, 2)| == 2
    ensures Times(4 * ts, FlatCount(TwoNodes) - 1) == 0
    ensures |MeshQuads(TwoNodes, Offsets(TwoNodes, ts), ts, Reverse)| == 4 * ts
  {
    TwoNodesWellFormed();
    assert !Excluded(TwoNodes, 0) && !Excluded(TwoNodes, 1);
    assert ActiveCount(TwoNodes, 1) == 1;
    assert ActiveCount(TwoNodes, 2) == 2;
    ActiveCountIsSize(TwoNodes, 2);
    QuadsTotal(TwoNodes, Offsets(TwoNodes, ts), ts, Reverse, 2);
    TimesIsMul(4 * ts, 1);
    TimesIsMul(4 * ts, 0);
  }

  /** The scaling step of the corrected thickness pass: every value multiplied by `base`. */
  method ScaleAll(t: array<real>, base: real)
    modifies t
    ensures forall i :: 0 <= i < t.Length ==> t[i] == base * old(t[i])
  {
    var i := 0;
    while i < t.Length
      invariant 0 <= i <= t.Length
      invariant forall k :: 0 <= k < i ==> t[k] == base * old(t[k])
      invariant forall k :: i <= k < t.Length ==> t[k] == old(t[k])
    {
      t[i] := base * t[i];
      i := i + 1;
    }
  }

  /**
    Lines 406-509 with the readiness test made independent of the user's
    base: the walk runs with a base of one, every value is then scaled by
    the base, and the branch ends are forced. For every base the attribute
    allows, the count is that of the mesh nodes and every value is the one
    the thickness rule gives for that base.
   */
  method CalculateThickness(nodes: seq<GrowerNode>, base: real, root: real -> real,
                            smooth: seq<real> -> seq<real>, t: array<real>) returns (activeNodes: nat)
    modifies t
    requires WellFormed(nodes) && IsSqrt(root) && 0.0 <= base
    requires t.Length == |nodes| && forall i :: 0 <= i < t.Length ==> t[i] == 0.0
    ensures activeNodes == |ActiveBelow(nodes, |nodes|)|
    ensures t[..] == Smoothed(smooth, ForcedValues(nodes, base, root))
  {
    var terminators;
    activeNodes, terminators := ThicknessPass(nodes, 1.0, root, t);
    TerminatorsBelow(nodes, terminators, 1.0);
    ScaleAll(t, base);
    ForceTerminators(t, terminators);
    forall i | 0 <= i < |nodes|
      ensures t[i] == Forced(nodes, base, root, i)
    {
      ForcedScale(nodes, base, root, i);
    }
    assert t[..] == ForcedValues(nodes, base, root);
    Smooth(t, smooth);
  }

  /** With a positive base the correction changes nothing. */
  lemma CorrectedAgreesForPositiveBase(nodes: seq<GrowerNode>, base: real, root: real -> real, i: nat)
    requires WellFormed(nodes) && IsSqrt(root) && 0.0 < base && i < |nodes|
    ensures Forced(nodes, base, root, i) ==
      if Visited(nodes, i) && Terminates(nodes, i) then TERMINATOR_THICKNESS
      else if Visited(nodes, i) then base * Thick(nodes, 1.0, root, i)
      else 0.0
  {
    ThickScale(nodes, base, root, i);
  }

  /** With a base of zero the corrected values are zero, apart from the forced branch ends of the mesh. */
  lemma ZeroBaseValues(nodes: seq<GrowerNode>, root: real -> real, i: nat)
    requires WellFormed(nodes) && IsSqrt(root) && i < |nodes|
    ensures Forced(nodes, 0.0, root, i) == if Visited(nodes, i) && Terminates(nodes, i) then TERMINATOR_THICKNESS else 0.0
  {
    ThickScale(nodes, 0.0, root, i);
  }

  /**
    Lines 236-256 with the corrected thickness: no mesh for an empty
    skeleton; otherwise the thickness of every node over a zeroed array, then
    the tube mesh with the quads wound as in lines 382-392.
   */
  method Compute(nodes: seq<GrowerNode>, tubeSections: nat, baseThickness: real, root: real -> real,
                 smooth: seq<real> -> seq<real>)
    returns (mesh: Option<Mesh>, ghost thickness: seq<real>)
    requires (nodes == [] || WellFormed(nodes)) && IsSqrt(root) && 0.0 <= baseThickness
    ensures nodes == [] <==> mesh.None?
    ensures mesh.Some? ==> WellFormed(nodes) && TubeMesh(nodes, tubeSections, Reverse, mesh.value)
    ensures mesh.Some? ==> thickness == Smoothed(smooth, ForcedValues(nodes, baseThickness, root))
  {
    if |nodes| == 0 {
      return None, [];
    }
    var t := new real[|nodes|](_ => 0.0);
    var activeNodes := CalculateThickness(nodes, baseThickness, root, smooth, t);
    thickness := t[..];
    var m := BuildMesh(nodes, activeNodes, tubeSections, Reverse);
    mesh := Some(m);
  }
}
