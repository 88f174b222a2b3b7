/**
  The skeleton produced by the growth engine: a flat sequence of nodes in
  creation order, node 0 the root, every other node pointing to an earlier
  parent, and the container object (GrowerData) that also carries the growth
  cache between evaluations.
 */
module Skeleton {

  import opened Seqs

  /** A 3D point or vector. Geometry is never computed on it in this model. */
  datatype Vec3 = Vec3(x: real, y: real, z: real)

  const Origin := Vec3(0.0, 0.0, 0.0)

  /** Axis-aligned bounds; Cleared is the state of a box after clear(). */
  datatype Box = Cleared | Box(lo: Vec3, hi: Vec3)

  /** `1 << 30`, the value stored in `parent` for the root. */
  const INVALID_PARENT: nat := 0x4000_0000

  /** `parent` is a 31-bit bitfield: storing a value keeps its low 31 bits. */
  const PARENT_FIELD_RANGE: nat := 0x8000_0000

  function Parent31(v: nat): (r: nat)
    ensures r < PARENT_FIELD_RANGE
    ensures v < PARENT_FIELD_RANGE ==> r == v
  {
    v % PARENT_FIELD_RANGE
  }

  /** Node indices below the sentinel survive the 31-bit field and never read back as "no parent". */
  lemma ParentIndexDistinguishable(i: nat)
    requires i < INVALID_PARENT
    ensures Parent31(i) == i && Parent31(i) != Parent31(INVALID_PARENT)
  {
  }

  /** An index of 2^31 or more wraps around and aliases a smaller node index. */
  lemma ParentFieldWraps(i: nat)
    requires i < PARENT_FIELD_RANGE
    ensures Parent31(PARENT_FIELD_RANGE + i) == i
  {
  }

  datatype GrowerNode = GrowerNode(
    pos: Vec3,
    surfaceNormal: Vec3,
    parent: nat,
    trimmed: bool,
    children: seq<nat>)

  /** A default-constructed node: no parent, not trimmed, no children. */
  function NewNode(): (n: GrowerNode)
    ensures n.parent == INVALID_PARENT && !n.trimmed && n.children == []
  {
    GrowerNode(Origin, Origin, INVALID_PARENT, false, [])
  }

  /** Every non-root node points to a strictly earlier parent. */
  predicate ParentLinks(nodes: seq<GrowerNode>)
  {
    forall i {:trigger nodes[i].parent} :: 0 < i < |nodes| ==> nodes[i].parent < i
  }

  /** Node i (other than the root) appears in its parent's children list. */
  predicate ListedByParent(nodes: seq<GrowerNode>, i: nat)
  {
    0 < i < |nodes| && nodes[i].parent < |nodes| ==> i in nodes[nodes[i].parent].children
  }

  ghost predicate ParentsListChildren(nodes: seq<GrowerNode>)
  {
    forall i {:trigger ListedByParent(nodes, i)} :: ListedByParent(nodes, i)
  }

  /** The k-th child of p exists and points back to p. */
  predicate ChildPointsBack(nodes: seq<GrowerNode>, p: nat, k: nat)
  {
    p < |nodes| && k < |nodes[p].children| ==>
      nodes[p].children[k] < |nodes| && nodes[nodes[p].children[k]].parent == p
  }

  /**
    Every listed child exists and points back to the node listing it. The
    fact is instantiated on demand, through ChildPointsBack.
   */
  ghost predicate ChildLinks(nodes: seq<GrowerNode>)
  {
    forall p, k {:trigger ChildPointsBack(nodes, p, k)} :: ChildPointsBack(nodes, p, k)
  }

  /** Every listed child is an index of the sequence. */
  predicate ChildrenBelow(nodes: seq<GrowerNode>)
  {
    forall p, k {:trigger nodes[p].children[k]} :: 0 <= p < |nodes| && 0 <= k < |nodes[p].children| ==>
      nodes[p].children[k] < |nodes|
  }

  /** No children list repeats an index; instantiated on demand, through Distinct. */
  ghost predicate ChildrenDistinct(nodes: seq<GrowerNode>)
  {
    forall p {:trigger Distinct(nodes[p].children)} :: 0 <= p < |nodes| ==> Distinct(nodes[p].children)
  }

  /** The structural invariant every pass of the pipeline relies on. */
  ghost predicate WellFormed(nodes: seq<GrowerNode>)
  {
    && 0 < |nodes| <= INVALID_PARENT
    && nodes[0].parent == INVALID_PARENT
    && ParentLinks(nodes)
    && ParentsListChildren(nodes)
    && ChildrenBelow(nodes)
    && ChildLinks(nodes)
    && ChildrenDistinct(nodes)
  }

  /** The k-th child of p points back to p, has a larger index than p, and is never the root. */
  lemma ChildAfterParent(nodes: seq<GrowerNode>, p: nat, k: nat)
    requires WellFormed(nodes) && p < |nodes| && k < |nodes[p].children|
    ensures 0 < nodes[p].children[k] < |nodes|
    ensures nodes[nodes[p].children[k]].parent == p
    ensures p < nodes[p].children[k]
  {
    assert ChildPointsBack(nodes, p, k);
  }

  /** Every non-root node is one of its parent's children. */
  lemma ParentListsChild(nodes: seq<GrowerNode>, i: nat)
    requires WellFormed(nodes) && 0 < i < |nodes|
    ensures nodes[i].parent < i && i in nodes[nodes[i].parent].children
  {
    assert ListedByParent(nodes, i);
  }

  /** A seed on its own is a well-formed one-node skeleton. */
  lemma SeedWellFormed(p: Vec3)
    ensures WellFormed([NewNode().(pos := p)])
  {
  }

  /** Number of parent links from node i up to the root. */
  function Depth(nodes: seq<GrowerNode>, i: nat): nat
    requires WellFormed(nodes) && i < |nodes|
    decreases i
  {
    if i == 0 then 0 else Depth(nodes, nodes[i].parent) + 1
  }

  /**
    A node is left out of the mesh when it is trimmed itself or its parent is
    left out (so a trimmed node hides its whole subtree).
   */
  predicate Excluded(nodes: seq<GrowerNode>, i: nat)
    requires WellFormed(nodes) && i < |nodes|
    decreases i
  {
    if nodes[i].trimmed then true
    else if nodes[i].parent == INVALID_PARENT then false
    else Excluded(nodes, nodes[i].parent)
  }

  /** Only the root carries the sentinel parent. */
  lemma OnlyRootHasNoParent(nodes: seq<GrowerNode>, i: nat)
    requires WellFormed(nodes) && i < |nodes|
    ensures nodes[i].parent == INVALID_PARENT <==> i == 0
  {
  }

  /** When a node is included, so is every ancestor; in particular the root. */
  lemma IncludedRootIncluded(nodes: seq<GrowerNode>, i: nat)
    requires WellFormed(nodes) && i < |nodes| && !Excluded(nodes, i)
    ensures !Excluded(nodes, 0)
    decreases i
  {
    if i != 0 {
      IncludedRootIncluded(nodes, nodes[i].parent);
    }
  }

  /** The nodes below index `n` that are not left out of the mesh. */
  ghost function ActiveBelow(nodes: seq<GrowerNode>, n: nat): set<nat>
    requires WellFormed(nodes) && n <= |nodes|
  {
    set k | 0 <= k < n && !Excluded(nodes, k)
  }

  /**
    The geometry container passed between the nodes of the pipeline: the
    skeleton, its bounds, and the per-iteration growth cache together with
    the parameters it was recorded for.
   */
  class GrowerData {
    var nodes: seq<GrowerNode>
    var bounds: Box
    var cachedAffectedPoints: seq<seq<nat>>
    var cachedClosestNode: seq<seq<nat>>
    var cachedBannedAliveNodes: seq<seq<nat>>
    /** Declared by the source but only ever cleared. */
    var cachedActiveAttractors: seq<seq<bool>>
    var cachedSearchRadius: real
    var cachedKillRadius: real
    var cachedNumNeighbours: int
    var cachedNodeGrowDist: real

    constructor ()
      ensures nodes == [] && bounds == Cleared
      ensures cachedAffectedPoints == [] && cachedClosestNode == []
      ensures cachedBannedAliveNodes == [] && cachedActiveAttractors == []
      ensures cachedSearchRadius == -1.0 && cachedKillRadius == -1.0
      ensures cachedNumNeighbours == -1 && cachedNodeGrowDist == -1.0
    {
      nodes := [];
      bounds := Cleared;
      cachedAffectedPoints := [];
      cachedClosestNode := [];
      cachedBannedAliveNodes := [];
      cachedActiveAttractors := [];
      cachedSearchRadius := -1.0;
      cachedKillRadius := -1.0;
      cachedNumNeighbours := -1;
      cachedNodeGrowDist := -1.0;
    }

    function HasGeometry(): (r: bool)
      reads this
      ensures r <==> nodes != []
    {
      |nodes| > 0
    }

    /**
      Takes the skeleton and bounds of `other`; the cache and the cached
      parameters of this object are kept. Copying from itself does nothing.
     */
    method Copy(other: GrowerData)
      modifies this
      ensures other == this ==> nodes == old(nodes) && bounds == old(bounds)
      ensures other != this ==> nodes == old(other.nodes) && bounds == old(other.bounds)
      ensures cachedAffectedPoints == old(cachedAffectedPoints)
      ensures cachedClosestNode == old(cachedClosestNode)
      ensures cachedBannedAliveNodes == old(cachedBannedAliveNodes)
      ensures cachedActiveAttractors == old(cachedActiveAttractors)
      ensures cachedSearchRadius == old(cachedSearchRadius)
      ensures cachedKillRadius == old(cachedKillRadius)
      ensures cachedNumNeighbours == old(cachedNumNeighbours)
      ensures cachedNodeGrowDist == old(cachedNodeGrowDist)
      ensures other != this ==> unchanged(other)
    {
      if other != this {
        bounds := other.bounds;
        nodes := other.nodes;
      }
    }
  }
}
