/**
  The pass of `Grower::Grow` after the growth loop (lines 560-609): in index
  order, every node takes the normal of the nearest sample within the kill
  radius (else its parent's non-zero normal, else +Y), and every child that
  bends back by more than 45 degrees from its parent's direction is handed to
  its grandparent.
 */
module GrowthFinish {

  import opened Seqs
  import opened Skeleton
  import opened GrowthAttract

  /** `MVector(0, 1, 0)`, the fallback normal. */
  const UP := Vec3(0.0, 1.0, 0.0)

  /** What the pass reads besides the skeleton. */
  datatype FinishInput = FinishInput(
    points: seq<Vec3>,
    normals: seq<Vec3>,
    geo: Geometry,
    query: Knn,
    killRadius: real)

  ghost predicate InputValid(inp: FinishInput)
  {
    |inp.normals| == |inp.points| && KnnContract(inp.query, inp.points, inp.geo.dist)
  }

  /** The sample found within the kill radius of `pos`, if any (a query for one neighbour). */
  function Nearest(inp: FinishInput, pos: Vec3): (r: seq<nat>)
    requires InputValid(inp)
    ensures |r| <= 1 && AllBelow(r, |inp.normals|)
  {
    KnnBelow(inp.query, inp.points, inp.geo.dist, pos, inp.killRadius, 1);
    inp.query(pos, inp.killRadius, 1)
  }

  /** Lines 564-577: the normal node `i` receives. */
  function NormalRule(nodes: seq<GrowerNode>, inp: FinishInput, i: nat): Vec3
    requires InputValid(inp) && WellFormed(nodes) && i < |nodes|
  {
    var found := Nearest(inp, nodes[i].pos);
    if |found| == 1 then inp.normals[found[0]]
    else if nodes[i].parent != INVALID_PARENT && !inp.geo.nearZero(nodes[nodes[i].parent].surfaceNormal) then
      nodes[nodes[i].parent].surfaceNormal
    else UP
  }

  /** The bend test of lines 583-591 for child `c` of node `i`. */
  predicate Sharp(nodes: seq<GrowerNode>, geo: Geometry, i: nat, c: nat)
    requires WellFormed(nodes) && 0 < i < |nodes| && c < |nodes|
  {
    geo.sharp(nodes[nodes[i].parent].pos, nodes[i].pos, nodes[c].pos)
  }

  /** Same nodes but for their normals and trimmed flags. */
  predicate SameShape(a: seq<GrowerNode>, b: seq<GrowerNode>)
  {
    |a| == |b| && forall y :: 0 <= y < |a| ==> a[y].parent == b[y].parent && a[y].children == b[y].children
  }

  lemma SameShapeWellFormed(a: seq<GrowerNode>, b: seq<GrowerNode>)
    requires WellFormed(a) && SameShape(a, b)
    ensures WellFormed(b)
  {
    forall y: nat
      ensures ListedByParent(b, y)
    {
      assert ListedByParent(a, y);
    }
    forall p: nat, k: nat
      ensures ChildPointsBack(b, p, k)
    {
      assert ChildPointsBack(a, p, k);
    }
    forall p | 0 <= p < |b|
      ensures Distinct(b[p].children)
    {
      assert Distinct(a[p].children);
    }
  }

  /* ---------- the reparenting loop, lines 579-606 ---------- */

  /**
    Lines 588-599 when child `c = nodes[i].children[j]` bends too sharply:
    the grandparent adopts it, and it leaves the list of `i` by swap-removal.
   */
  function Adopt(nodes: seq<GrowerNode>, i: nat, j: nat): (r: seq<GrowerNode>)
    requires WellFormed(nodes) && 0 < i < |nodes| && j < |nodes[i].children|
    ensures |r| == |nodes|
  {
    var gp := nodes[i].parent;
    var c := nodes[i].children[j];
    var m := nodes[c := nodes[c].(parent := gp)];
    var m' := m[gp := m[gp].(children := m[gp].children + [c])];
    m'[i := m'[i].(children := SwapRemove(m'[i].children, j))]
  }

  /** What adopting changes, entry by entry. */
  lemma AdoptBasics(nodes: seq<GrowerNode>, i: nat, j: nat)
    requires WellFormed(nodes) && 0 < i < |nodes| && j < |nodes[i].children|
    ensures nodes[i].parent < i < nodes[i].children[j] < |nodes|
    ensures nodes[nodes[i].children[j]].parent == i
    ensures Distinct(nodes[i].children)
    ensures Adopt(nodes, i, j)[i].children == SwapRemove(nodes[i].children, j)
    ensures Adopt(nodes, i, j)[nodes[i].parent].children == nodes[nodes[i].parent].children + [nodes[i].children[j]]
    ensures Adopt(nodes, i, j)[nodes[i].children[j]].parent == nodes[i].parent
    ensures forall y :: 0 <= y < |nodes| && y != i && y != nodes[i].parent ==>
      Adopt(nodes, i, j)[y].children == nodes[y].children
    ensures forall y :: 0 <= y < |nodes| && y != nodes[i].children[j] ==> Adopt(nodes, i, j)[y].parent == nodes[y].parent
    ensures forall y :: 0 <= y < |nodes| ==>
      Adopt(nodes, i, j)[y].pos == nodes[y].pos && Adopt(nodes, i, j)[y].surfaceNormal == nodes[y].surfaceNormal &&
      Adopt(nodes, i, j)[y].trimmed == nodes[y].trimmed
  {
    ChildAfterParent(nodes, i, j);
    ParentListsChild(nodes, i);
    assert Distinct(nodes[i].children);
  }

  /** After adopting, every node but the root is listed by its parent and comes after it. */
  lemma AdoptListed(nodes: seq<GrowerNode>, i: nat, j: nat)
    requires WellFormed(nodes) && 0 < i < |nodes| && j < |nodes[i].children|
    ensures forall y: nat :: ListedByParent(Adopt(nodes, i, j), y)
  {
    var r := Adopt(nodes, i, j);
    var c := nodes[i].children[j];
    var kids := nodes[i].children;
    AdoptBasics(nodes, i, j);
    SwapRemoveFacts(kids, j);
    forall y: nat
      ensures ListedByParent(r, y)
    {
      if 0 < y < |r| && y != c {
        assert ListedByParent(nodes, y);
        if nodes[y].parent == i {
          assert y in kids && y != c;
        }
      }
    }
  }

  /** After adopting, every listed child points back to the node listing it. */
  lemma AdoptPointsBack(nodes: seq<GrowerNode>, i: nat, j: nat)
    requires WellFormed(nodes) && 0 < i < |nodes| && j < |nodes[i].children|
    ensures forall q: nat, k: nat :: ChildPointsBack(Adopt(nodes, i, j), q, k)
  {
    var r := Adopt(nodes, i, j);
    var gp := nodes[i].parent;
    var c := nodes[i].children[j];
    var kids := nodes[i].children;
    AdoptBasics(nodes, i, j);
    SwapRemoveFacts(kids, j);
    forall q: nat, k: nat
      ensures ChildPointsBack(r, q, k)
    {
      if q < |r| && k < |r[q].children| {
        if q == i {
          assert r[q].children[k] in SwapRemove(kids, j);
          var m :| 0 <= m < |kids| && kids[m] == r[q].children[k];
          assert ChildPointsBack(nodes, i, m);
        } else if q == gp && k == |nodes[gp].children| {
          assert r[q].children[k] == c;
        } else {
          assert r[q].children[k] == nodes[q].children[k];
          assert ChildPointsBack(nodes, q, k);
          assert nodes[q].children[k] != c by {
            assert nodes[nodes[q].children[k]].parent == q;
          }
        }
      }
    }
  }

  /** After adopting, no list of children holds a node twice. */
  lemma AdoptDistinct(nodes: seq<GrowerNode>, i: nat, j: nat)
    requires WellFormed(nodes) && 0 < i < |nodes| && j < |nodes[i].children|
    ensures forall q :: 0 <= q < |nodes| ==> Distinct(Adopt(nodes, i, j)[q].children)
  {
    var r := Adopt(nodes, i, j);
    var gp := nodes[i].parent;
    var c := nodes[i].children[j];
    AdoptBasics(nodes, i, j);
    SwapRemoveFacts(nodes[i].children, j);
    forall q | 0 <= q < |r|
      ensures Distinct(r[q].children)
    {
      assert Distinct(nodes[q].children);
      if q == gp {
        forall k | 0 <= k < |nodes[gp].children|
          ensures nodes[gp].children[k] != c
        {
          assert ChildPointsBack(nodes, gp, k);
        }
      }
    }
  }

  /** After adopting, every node but the root has an earlier parent. */
  lemma AdoptParentsBelow(nodes: seq<GrowerNode>, i: nat, j: nat)
    requires WellFormed(nodes) && 0 < i < |nodes| && j < |nodes[i].children|
    ensures forall y :: 0 < y < |nodes| ==> Adopt(nodes, i, j)[y].parent < y
  {
    var r := Adopt(nodes, i, j);
    AdoptBasics(nodes, i, j);
    forall y | 0 < y < |r|
      ensures r[y].parent < y
    {
      if y != nodes[i].children[j] {
        assert r[y].parent == nodes[y].parent;
      }
    }
  }

  /** Adopting keeps the skeleton well formed, changes only the parent of `c`, and shortens the list of `i` by one. */
  lemma AdoptFacts(nodes: seq<GrowerNode>, i: nat, j: nat)
    requires WellFormed(nodes) && 0 < i < |nodes| && j < |nodes[i].children|
    ensures WellFormed(Adopt(nodes, i, j))
    ensures Adopt(nodes, i, j)[i].children == SwapRemove(nodes[i].children, j)
    ensures Adopt(nodes, i, j)[i].parent == nodes[i].parent
    ensures forall y :: 0 <= y < |nodes| ==>
      Adopt(nodes, i, j)[y].pos == nodes[y].pos && Adopt(nodes, i, j)[y].surfaceNormal == nodes[y].surfaceNormal &&
      Adopt(nodes, i, j)[y].trimmed == nodes[y].trimmed
    ensures forall y :: 0 <= y < |nodes| && y != nodes[i].children[j] ==> Adopt(nodes, i, j)[y].parent == nodes[y].parent
    ensures Adopt(nodes, i, j)[nodes[i].children[j]].parent == nodes[i].parent
  {
    AdoptBasics(nodes, i, j);
    AdoptListed(nodes, i, j);
    AdoptPointsBack(nodes, i, j);
    AdoptDistinct(nodes, i, j);
    AdoptParentsBelow(nodes, i, j);
  }

  /**
    The loop over the children of node `i` from position `j` on, as the source
    runs it: a sharp child is adopted by the grandparent and the position is
    examined again, except that the last remaining child clears the list and
    ends the loop.
   */
  function ReparentFrom(nodes: seq<GrowerNode>, geo: Geometry, i: nat, j: nat): (r: seq<GrowerNode>)
    requires WellFormed(nodes) && 0 < i < |nodes|
    ensures |r| == |nodes|
    decreases |nodes[i].children| - j
  {
    if j >= |nodes[i].children| then nodes
    else
      var c := nodes[i].children[j];
      ChildAfterParent(nodes, i, j);
      if !Sharp(nodes, geo, i, c) then ReparentFrom(nodes, geo, i, j + 1)
      else
        AdoptFacts(nodes, i, j);
        var m := Adopt(nodes, i, j);
        if |nodes[i].children| > 1 then ReparentFrom(m, geo, i, j)
        else m
  }

  /** Lines 577-608 for a node that has a parent: the full loop over its children. */
  function Reparent(nodes: seq<GrowerNode>, geo: Geometry, i: nat): (r: seq<GrowerNode>)
    requires WellFormed(nodes) && 0 < i < |nodes|
    ensures |r| == |nodes|
  {
    ReparentFrom(nodes, geo, i, 0)
  }

  /** The reparenting loop of node `i` from position `j` keeps the skeleton well formed and changes only parents and children lists. */
  lemma {:induction false} ReparentFromShape(nodes: seq<GrowerNode>, geo: Geometry, i: nat, j: nat)
    requires WellFormed(nodes) && 0 < i < |nodes|
    ensures WellFormed(ReparentFrom(nodes, geo, i, j))
    ensures ReparentFrom(nodes, geo, i, j)[i].parent == nodes[i].parent
    ensures forall y :: 0 <= y < |nodes| ==>
      ReparentFrom(nodes, geo, i, j)[y].pos == nodes[y].pos &&
      ReparentFrom(nodes, geo, i, j)[y].surfaceNormal == nodes[y].surfaceNormal &&
      ReparentFrom(nodes, geo, i, j)[y].trimmed == nodes[y].trimmed
    decreases |nodes[i].children| - j
  {
    if j < |nodes[i].children| {
      var c := nodes[i].children[j];
      ChildAfterParent(nodes, i, j);
      if !Sharp(nodes, geo, i, c) {
        ReparentFromShape(nodes, geo, i, j + 1);
      } else {
        AdoptFacts(nodes, i, j);
        if |nodes[i].children| > 1 {
          ReparentFromShape(Adopt(nodes, i, j), geo, i, j);
        }
      }
    }
  }

  /** The children of `i` are node indices. */
  lemma ChildrenInRange(nodes: seq<GrowerNode>, i: nat)
    requires WellFormed(nodes) && i < |nodes|
    ensures AllBelow(nodes[i].children, |nodes|)
  {
    forall k | 0 <= k < |nodes[i].children|
      ensures nodes[i].children[k] < |nodes|
    {
      ChildAfterParent(nodes, i, k);
    }
  }

  /**
    `r` is what the reparenting loop of node `i` should leave once it has
    examined positions `j` on: each child still to be examined has the
    grandparent when its bend is sharp and `i` otherwise; every other node
    keeps its parent.
   */
  ghost predicate ParentsRule(nodes: seq<GrowerNode>, r: seq<GrowerNode>, geo: Geometry, i: nat, j: nat)
    requires WellFormed(nodes) && 0 < i < |nodes| && |r| == |nodes| && j <= |nodes[i].children|
  {
    AllBelow(nodes[i].children, |nodes|) &&
    (forall y :: 0 <= y < |nodes| && y !in nodes[i].children[j..] ==> r[y].parent == nodes[y].parent) &&
    (forall y :: y in nodes[i].children[j..] ==>
      (y < |nodes| && r[y].parent == if Sharp(nodes, geo, i, y) then nodes[i].parent else i))
  }

  /** A child that bends gently is kept: it already has parent `i`. */
  lemma ParentsSkip(nodes: seq<GrowerNode>, r: seq<GrowerNode>, geo: Geometry, i: nat, j: nat)
    requires WellFormed(nodes) && 0 < i < |nodes| && |r| == |nodes| && j < |nodes[i].children|
    requires nodes[i].children[j] < |nodes| && !Sharp(nodes, geo, i, nodes[i].children[j])
    requires ParentsRule(nodes, r, geo, i, j + 1)
    ensures ParentsRule(nodes, r, geo, i, j)
  {
    var kids := nodes[i].children;
    var c := kids[j];
    ChildAfterParent(nodes, i, j);
    assert Distinct(kids);
    SuffixStep(kids, j);
  }

  /** A sharply bending child, adopted before the loop goes on over the shortened list. */
  lemma ParentsAdopt(nodes: seq<GrowerNode>, r: seq<GrowerNode>, geo: Geometry, i: nat, j: nat)
    requires WellFormed(nodes) && 0 < i < |nodes| && |r| == |nodes| && j < |nodes[i].children|
    requires nodes[i].children[j] < |nodes| && Sharp(nodes, geo, i, nodes[i].children[j])
    requires WellFormed(Adopt(nodes, i, j)) && |Adopt(nodes, i, j)[i].children| == |nodes[i].children| - 1
    requires j <= |Adopt(nodes, i, j)[i].children| && ParentsRule(Adopt(nodes, i, j), r, geo, i, j)
    ensures ParentsRule(nodes, r, geo, i, j)
  {
    var kids := nodes[i].children;
    var c := kids[j];
    var m := Adopt(nodes, i, j);
    AdoptFacts(nodes, i, j);
    assert Distinct(kids);
    SwapRemoveSuffix(kids, j);
    ChildrenInRange(nodes, i);
    forall y | y in kids[j..]
      ensures y < |nodes| && r[y].parent == if Sharp(nodes, geo, i, y) then nodes[i].parent else i
    {
      if y != c {
        assert y in m[i].children[j..];
        assert Sharp(m, geo, i, y) == Sharp(nodes, geo, i, y);
      }
    }
  }

  /** The last remaining child bends sharply: it is adopted and the list is left empty. */
  lemma ParentsLast(nodes: seq<GrowerNode>, geo: Geometry, i: nat)
    requires WellFormed(nodes) && 0 < i < |nodes| && |nodes[i].children| == 1
    requires nodes[i].children[0] < |nodes| && Sharp(nodes, geo, i, nodes[i].children[0])
    ensures ParentsRule(nodes, Adopt(nodes, i, 0), geo, i, 0)
  {
    AdoptFacts(nodes, i, 0);
    ChildrenInRange(nodes, i);
    assert nodes[i].children[0..] == [nodes[i].children[0]];
  }

  /** The reparenting loop of node `i` from position `j` meets `ParentsRule`. */
  lemma {:induction false} ReparentFromParents(nodes: seq<GrowerNode>, geo: Geometry, i: nat, j: nat)
    requires WellFormed(nodes) && 0 < i < |nodes| && j <= |nodes[i].children|
    ensures ParentsRule(nodes, ReparentFrom(nodes, geo, i, j), geo, i, j)
    decreases |nodes[i].children| - j
  {
    var kids := nodes[i].children;
    var r := ReparentFrom(nodes, geo, i, j);
    ChildrenInRange(nodes, i);
    if j == |kids| {
      assert kids[j..] == [];
    } else {
      var c := kids[j];
      ChildAfterParent(nodes, i, j);
      if !Sharp(nodes, geo, i, c) {
        ReparentFromParents(nodes, geo, i, j + 1);
        ParentsSkip(nodes, r, geo, i, j);
      } else {
        AdoptFacts(nodes, i, j);
        if |kids| > 1 {
          ReparentFromParents(Adopt(nodes, i, j), geo, i, j);
          ParentsAdopt(nodes, r, geo, i, j);
        } else {
          ParentsLast(nodes, geo, i);
        }
      }
    }
  }

  /** The full loop for node `i` (lines 579-606): its children are the only nodes whose parent can change. */
  lemma ReparentFacts(nodes: seq<GrowerNode>, geo: Geometry, i: nat)
    requires WellFormed(nodes) && 0 < i < |nodes|
    ensures WellFormed(Reparent(nodes, geo, i))
    ensures Reparent(nodes, geo, i)[i].parent == nodes[i].parent
    ensures forall y :: 0 <= y < |nodes| ==>
      Reparent(nodes, geo, i)[y].pos == nodes[y].pos &&
      Reparent(nodes, geo, i)[y].surfaceNormal == nodes[y].surfaceNormal &&
      Reparent(nodes, geo, i)[y].trimmed == nodes[y].trimmed
    ensures forall y :: 0 <= y < |nodes| && nodes[y].parent != i ==> Reparent(nodes, geo, i)[y].parent == nodes[y].parent
    ensures forall y :: 0 < y < |nodes| && nodes[y].parent == i ==>
      Reparent(nodes, geo, i)[y].parent == if Sharp(nodes, geo, i, y) then nodes[i].parent else i
  {
    var kids := nodes[i].children;
    ReparentFromShape(nodes, geo, i, 0);
    ReparentFromParents(nodes, geo, i, 0);
    assert kids[0..] == kids;
    forall y | 0 <= y < |nodes| && nodes[y].parent != i
      ensures y !in kids
    {
      if y in kids {
        var k :| 0 <= k < |kids| && kids[k] == y;
        ChildAfterParent(nodes, i, k);
      }
    }
    forall y | 0 < y < |nodes| && nodes[y].parent == i
      ensures y in kids
    {
      ParentListsChild(nodes, y);
    }
  }

  /** Normal step then the reparenting loop, for node `i` (lines 562-608). */
  function FinishNode(nodes: seq<GrowerNode>, inp: FinishInput, i: nat): (r: seq<GrowerNode>)
    requires InputValid(inp) && WellFormed(nodes) && i < |nodes|
    ensures |r| == |nodes|
  {
    var m := nodes[i := nodes[i].(surfaceNormal := NormalRule(nodes, inp, i))];
    SameShapeWellFormed(nodes, m);
    if m[i].parent != INVALID_PARENT then Reparent(m, inp.geo, i) else m
  }

  /** Processing one node keeps the skeleton well formed. */
  lemma FinishNodeWellFormed(nodes: seq<GrowerNode>, inp: FinishInput, i: nat)
    requires InputValid(inp) && WellFormed(nodes) && i < |nodes|
    ensures WellFormed(FinishNode(nodes, inp, i))
  {
    var m := nodes[i := nodes[i].(surfaceNormal := NormalRule(nodes, inp, i))];
    SameShapeWellFormed(nodes, m);
    if m[i].parent != INVALID_PARENT {
      OnlyRootHasNoParent(m, i);
      ReparentFacts(m, inp.geo, i);
    }
  }

  /** The outer loop of lines 561-609 from node `i` on. */
  function FinishFrom(nodes: seq<GrowerNode>, inp: FinishInput, i: nat): (r: seq<GrowerNode>)
    requires InputValid(inp) && WellFormed(nodes) && i <= |nodes|
    ensures |r| == |nodes|
    decreases |nodes| - i
  {
    if i == |nodes| then nodes
    else
      FinishNodeWellFormed(nodes, inp, i);
      FinishFrom(FinishNode(nodes, inp, i), inp, i + 1)
  }

  /** Where child `c` of node `p` of the incoming skeleton ends up. */
  function FinalParent(f: seq<GrowerNode>, geo: Geometry, p: nat, c: nat): nat
    requires WellFormed(f) && p < |f| && c < |f|
  {
    if p != 0 && Sharp(f, geo, p, c) then f[p].parent else p
  }

  /**
    The skeleton `nodes`, reached from `orig` after nodes below `i` were
    processed: normals of processed nodes follow the normal rule, parents of
    children of processed nodes follow the reparenting rule, all other parents
    are as they were, and positions and trimmed flags never change.
   */
  ghost predicate Processed(orig: seq<GrowerNode>, nodes: seq<GrowerNode>, inp: FinishInput, geo: Geometry, i: nat)
  {
    && InputValid(inp) && inp.geo == geo
    && WellFormed(orig) && WellFormed(nodes) && |nodes| == |orig| && i <= |nodes|
    && (forall y :: 0 <= y < |nodes| ==> nodes[y].pos == orig[y].pos && nodes[y].trimmed == orig[y].trimmed)
    && (forall y :: 0 <= y < i ==> nodes[y].surfaceNormal == NormalRule(nodes, inp, y))
    && (forall c :: 0 < c < |nodes| && orig[c].parent < i ==> nodes[c].parent == FinalParent(nodes, geo, orig[c].parent, c))
    && (forall c :: 0 < c < |nodes| && orig[c].parent >= i ==> nodes[c].parent == orig[c].parent)
  }

  /** A parent decided by processing an earlier node is below `i` and is never changed afterwards. */
  lemma ProcessedParentsBelow(orig: seq<GrowerNode>, nodes: seq<GrowerNode>, inp: FinishInput, geo: Geometry, i: nat, c: nat)
    requires Processed(orig, nodes, inp, geo, i) && 0 < c < |nodes| && orig[c].parent < i
    ensures nodes[c].parent < i
  {
    ParentListsChild(orig, c);
    var p := orig[c].parent;
    if p != 0 {
      ParentListsChild(nodes, p);
    }
  }

  /** What processing node `i` changes: its normal, and the parents of its own children. */
  lemma FinishNodeFacts(nodes: seq<GrowerNode>, inp: FinishInput, i: nat)
    requires InputValid(inp) && WellFormed(nodes) && i < |nodes|
    ensures WellFormed(FinishNode(nodes, inp, i))
    ensures forall y :: 0 <= y < |nodes| ==>
      FinishNode(nodes, inp, i)[y].pos == nodes[y].pos && FinishNode(nodes, inp, i)[y].trimmed == nodes[y].trimmed
    ensures forall y :: 0 <= y < |nodes| && y != i ==> FinishNode(nodes, inp, i)[y].surfaceNormal == nodes[y].surfaceNormal
    ensures FinishNode(nodes, inp, i)[i].surfaceNormal == NormalRule(nodes, inp, i)
    ensures forall y :: 0 <= y < |nodes| && nodes[y].parent != i ==> FinishNode(nodes, inp, i)[y].parent == nodes[y].parent
    ensures FinishNode(nodes, inp, i)[i].parent == nodes[i].parent
    ensures forall y :: 0 < y < |nodes| && nodes[y].parent == i ==>
      FinishNode(nodes, inp, i)[y].parent == FinalParent(nodes, inp.geo, i, y)
  {
    var m := nodes[i := nodes[i].(surfaceNormal := NormalRule(nodes, inp, i))];
    SameShapeWellFormed(nodes, m);
    FinishNodeWellFormed(nodes, inp, i);
    if m[i].parent != INVALID_PARENT {
      OnlyRootHasNoParent(m, i);
      ReparentFacts(m, inp.geo, i);
      forall y | 0 < y < |nodes| && nodes[y].parent == i
        ensures Sharp(m, inp.geo, i, y) == Sharp(nodes, inp.geo, i, y)
      {
      }
    } else {
      OnlyRootHasNoParent(nodes, i);
    }
  }

  /** Processing node `i` extends `Processed` to `i + 1`. */
  lemma ProcessedStep(orig: seq<GrowerNode>, nodes: seq<GrowerNode>, inp: FinishInput, geo: Geometry, i: nat)
    requires Processed(orig, nodes, inp, geo, i) && i < |nodes|
    ensures WellFormed(FinishNode(nodes, inp, i))
    ensures Processed(orig, FinishNode(nodes, inp, i), inp, geo, i + 1)
  {
    var r := FinishNode(nodes, inp, i);
    FinishNodeFacts(nodes, inp, i);
    ProcessedNormals(orig, nodes, inp, geo, i, r);
    ProcessedParents(orig, nodes, inp, geo, i, r);
  }

  /** The normal rule of processed nodes survives the step of node `i`. */
  lemma ProcessedNormals(orig: seq<GrowerNode>, nodes: seq<GrowerNode>, inp: FinishInput, geo: Geometry, i: nat, r: seq<GrowerNode>)
    requires Processed(orig, nodes, inp, geo, i) && i < |nodes|
    requires WellFormed(r) && |r| == |nodes|
    requires forall y :: 0 <= y < |nodes| ==> r[y].pos == nodes[y].pos
    requires forall y :: 0 <= y < |nodes| && y != i ==> r[y].surfaceNormal == nodes[y].surfaceNormal
    requires r[i].surfaceNormal == NormalRule(nodes, inp, i)
    requires forall y :: 0 <= y < |nodes| && nodes[y].parent != i ==> r[y].parent == nodes[y].parent
    requires r[i].parent == nodes[i].parent
    ensures forall y :: 0 <= y <= i ==> r[y].surfaceNormal == NormalRule(r, inp, y)
  {
    forall y | 0 <= y <= i
      ensures r[y].surfaceNormal == NormalRule(r, inp, y)
    {
      if y != 0 {
        ParentListsChild(nodes, y);
        assert nodes[y].parent != i;
        assert r[y].parent == nodes[y].parent;
        assert r[nodes[y].parent].surfaceNormal == nodes[nodes[y].parent].surfaceNormal;
      } else {
        assert r[0].parent == nodes[0].parent;
      }
    }
  }

  /** The parent rule survives the step of node `i` and now covers the children of `i`. */
  lemma ProcessedParents(orig: seq<GrowerNode>, nodes: seq<GrowerNode>, inp: FinishInput, geo: Geometry, i: nat, r: seq<GrowerNode>)
    requires Processed(orig, nodes, inp, geo, i) && i < |nodes|
    requires WellFormed(r) && |r| == |nodes|
    requires forall y :: 0 <= y < |nodes| ==> r[y].pos == nodes[y].pos
    requires forall y :: 0 <= y < |nodes| && nodes[y].parent != i ==> r[y].parent == nodes[y].parent
    requires forall y :: 0 < y < |nodes| && nodes[y].parent == i ==> r[y].parent == FinalParent(nodes, geo, i, y)
    ensures forall c :: 0 < c < |r| && orig[c].parent < i + 1 ==> r[c].parent == FinalParent(r, geo, orig[c].parent, c)
    ensures forall c :: 0 < c < |r| && orig[c].parent >= i + 1 ==> r[c].parent == orig[c].parent
  {
    forall c | 0 < c < |r| && orig[c].parent < i + 1
      ensures r[c].parent == FinalParent(r, geo, orig[c].parent, c)
    {
      var p := orig[c].parent;
      ParentListsChild(orig, c);
      if p < i {
        ProcessedParentsBelow(orig, nodes, inp, geo, i, c);
        assert r[c].parent == nodes[c].parent;
        if p != 0 {
          ParentListsChild(nodes, p);
          assert r[p].parent == nodes[p].parent;
          assert Sharp(r, geo, p, c) == Sharp(nodes, geo, p, c);
        }
      } else {
        assert nodes[c].parent == i;
        if p != 0 {
          ParentListsChild(nodes, p);
          assert r[p].parent == nodes[p].parent;
          assert Sharp(r, geo, p, c) == Sharp(nodes, geo, p, c);
        }
      }
    }
    forall c | 0 < c < |r| && orig[c].parent >= i + 1
      ensures r[c].parent == orig[c].parent
    {
      assert nodes[c].parent == orig[c].parent;
    }
  }

  /** The rest of the pass, from a state processed up to `i`, completes the processing. */
  lemma {:induction false} FinishFromProcessed(orig: seq<GrowerNode>, nodes: seq<GrowerNode>, inp: FinishInput, i: nat)
    requires Processed(orig, nodes, inp, inp.geo, i)
    ensures Processed(orig, FinishFrom(nodes, inp, i), inp, inp.geo, |nodes|)
    decreases |nodes| - i
  {
    if i < |nodes| {
      ProcessedStep(orig, nodes, inp, inp.geo, i);
      FinishFromProcessed(orig, FinishNode(nodes, inp, i), inp, i + 1);
    }
  }

  /**
    What the pass promises about the skeleton it leaves: it is well formed,
    no node moved or changed its trimmed flag, every node carries the normal
    the rule gives it, and every child of a non-root node `p` of the incoming
    skeleton was handed to the grandparent exactly when its bend is sharp.
   */
  lemma FinishFacts(orig: seq<GrowerNode>, inp: FinishInput)
    requires InputValid(inp) && WellFormed(orig)
    ensures WellFormed(FinishFrom(orig, inp, 0))
    ensures forall y :: 0 <= y < |orig| ==>
      FinishFrom(orig, inp, 0)[y].pos == orig[y].pos && FinishFrom(orig, inp, 0)[y].trimmed == orig[y].trimmed
    ensures forall y :: 0 <= y < |orig| ==> FinishFrom(orig, inp, 0)[y].surfaceNormal == NormalRule(FinishFrom(orig, inp, 0), inp, y)
    ensures forall c :: 0 < c < |orig| ==>
      FinishFrom(orig, inp, 0)[c].parent == FinalParent(FinishFrom(orig, inp, 0), inp.geo, orig[c].parent, c)
  {
    FinishFromProcessed(orig, orig, inp, 0);
    forall c | 0 < c < |orig|
      ensures orig[c].parent < |orig|
    {
      ParentListsChild(orig, c);
    }
  }

  /* ---------- the methods ---------- */

  /** Lines 579-606: the reparenting loop of node `i`, on the data's skeleton. */
  method ReparentChildren(data: GrowerData, geo: Geometry, i: nat)
    modifies data`nodes
    requires WellFormed(data.nodes) && 0 < i < |data.nodes|
    ensures data.nodes == Reparent(old(data.nodes), geo, i)
  {
    ghost var target := Reparent(data.nodes, geo, i);
    ghost var gp0 := data.nodes[i].parent;
    var j := 0;
    while j < |data.nodes[i].children|
      invariant WellFormed(data.nodes) && |data.nodes| == |old(data.nodes)|
      invariant ReparentFrom(data.nodes, geo, i, j) == target
      decreases |data.nodes[i].children| - j
    {
      var nodes := data.nodes;
      var gp := nodes[i].parent;
      var c := nodes[i].children[j];
      ChildAfterParent(nodes, i, j);
      if geo.sharp(nodes[gp].pos, nodes[i].pos, nodes[c].pos) {
        AdoptFacts(nodes, i, j);
        var more := |nodes[i].children| > 1;
        data.nodes := data.nodes[c := data.nodes[c].(parent := gp)];
        data.nodes := data.nodes[gp := data.nodes[gp].(children := data.nodes[gp].children + [c])];
        if more {
          data.nodes := data.nodes[i := data.nodes[i].(children := SwapRemove(data.nodes[i].children, j))];
        } else {
          data.nodes := data.nodes[i := data.nodes[i].(children := [])];
          assert data.nodes == Adopt(nodes, i, j);
          break;
        }
        assert data.nodes == Adopt(nodes, i, j);
      } else {
        j := j + 1;
      }
    }
  }

  /** One pass of the outer loop of lines 561-609: node `i` gets its normal, then its bend is straightened. */
  method FinishStep(data: GrowerData, inp: FinishInput, i: nat)
    modifies data`nodes
    requires InputValid(inp) && WellFormed(data.nodes) && i < |data.nodes|
    ensures data.nodes == FinishNode(old(data.nodes), inp, i)
  {
    var node := data.nodes[i];
    var found := Nearest(inp, node.pos);
    var normal: Vec3;
    if |found| == 1 {
      normal := inp.normals[found[0]];
    } else if node.parent != INVALID_PARENT && !inp.geo.nearZero(data.nodes[node.parent].surfaceNormal) {
      normal := data.nodes[node.parent].surfaceNormal;
    } else {
      normal := UP;
    }
    ghost var before := data.nodes;
    FinishNodeWellFormed(before, inp, i);
    data.nodes := data.nodes[i := node.(surfaceNormal := normal)];
    SameShapeWellFormed(before, data.nodes);
    if node.parent != INVALID_PARENT {
      OnlyRootHasNoParent(data.nodes, i);
      ReparentChildren(data, inp.geo, i);
    }
  }

  /**
    Lines 560-609: in index order, set each node's normal and reparent its
    sharp children. The skeleton left behind is the pass as `FinishFrom`
    states it; FinishFacts says what that means.
   */
  method Finish(data: GrowerData, inp: FinishInput)
    modifies data`nodes
    requires InputValid(inp) && WellFormed(data.nodes)
    ensures data.nodes == FinishFrom(old(data.nodes), inp, 0)
  {
    var numNodes := |data.nodes|;
    ghost var target := FinishFrom(data.nodes, inp, 0);
    var i := 0;
    while i < numNodes
      invariant 0 <= i <= numNodes == |data.nodes| && WellFormed(data.nodes)
      invariant FinishFrom(data.nodes, inp, i) == target
    {
      FinishNodeWellFormed(data.nodes, inp, i);
      FinishStep(data, inp, i);
      i := i + 1;
    }
  }
}
