/**
  The trimmer: counts the breadth-first levels of the skeleton and flags the
  nodes of one level as trimmed, so that the mesher stops there ("growth
  reveal" without regrowing).
 */
module Trimming {

  import opened Seqs
  import opened Skeleton

  /** The children lists of the nodes of `f`, concatenated in order. */
  function Expand(nodes: seq<GrowerNode>, f: seq<nat>): (r: seq<nat>)
    requires ChildrenBelow(nodes) && AllBelow(f, |nodes|)
    ensures AllBelow(r, |nodes|)
    decreases |f|
  {
    if f == [] then [] else Expand(nodes, f[..|f| - 1]) + nodes[f[|f| - 1]].children
  }

  /** Every child of a node of `f` is collected. */
  lemma {:induction false} ExpandIncludes(nodes: seq<GrowerNode>, f: seq<nat>, k: nat, x: nat)
    requires ChildrenBelow(nodes) && AllBelow(f, |nodes|)
    requires k < |f| && x in nodes[f[k]].children
    ensures x in Expand(nodes, f)
    decreases |f|
  {
    var g := f[..|f| - 1];
    if k < |g| {
      assert g[k] == f[k];
      ExpandIncludes(nodes, g, k, x);
    }
  }

  /** Everything collected is a child of some node of `f`: the `j`-th child of `f[k]`. */
  lemma {:induction false} ExpandSource(nodes: seq<GrowerNode>, f: seq<nat>, x: nat) returns (k: nat, j: nat)
    requires ChildrenBelow(nodes) && AllBelow(f, |nodes|)
    requires x in Expand(nodes, f)
    ensures k < |f| && j < |nodes[f[k]].children| && nodes[f[k]].children[j] == x
    decreases |f|
  {
    var g := f[..|f| - 1];
    var last := nodes[f[|f| - 1]].children;
    if x in last {
      k := |f| - 1;
      j :| 0 <= j < |last| && last[j] == x;
    } else {
      k, j := ExpandSource(nodes, g, x);
      assert g[k] == f[k];
    }
  }

  /** The breadth-first frontier the trimmer holds at level `d`. */
  function Frontier(nodes: seq<GrowerNode>, d: nat): (r: seq<nat>)
    requires WellFormed(nodes)
    ensures AllBelow(r, |nodes|)
  {
    if d == 0 then [0] else Expand(nodes, Frontier(nodes, d - 1))
  }

  /** Everything on level `d` of the breadth-first walk is `d` levels deep. */
  lemma {:induction false} FrontierSound(nodes: seq<GrowerNode>, d: nat, x: nat)
    requires WellFormed(nodes) && x in Frontier(nodes, d)
    ensures x < |nodes| && Depth(nodes, x) == d
  {
    if d == 0 {
      assert x == 0;
    } else {
      var f := Frontier(nodes, d - 1);
      var k, j := ExpandSource(nodes, f, x);
      var p := f[k];
      ChildAfterParent(nodes, p, j);
      assert nodes[x].parent == p;
      FrontierSound(nodes, d - 1, p);
    }
  }

  /** Every node `d` levels deep is reached on level `d`. */
  lemma {:induction false} FrontierComplete(nodes: seq<GrowerNode>, d: nat, x: nat)
    requires WellFormed(nodes) && x < |nodes| && Depth(nodes, x) == d
    ensures x in Frontier(nodes, d)
  {
    if d == 0 {
      assert x == 0;
    } else {
      ParentListsChild(nodes, x);
      var p := nodes[x].parent;
      FrontierComplete(nodes, d - 1, p);
      var f := Frontier(nodes, d - 1);
      var k :| 0 <= k < |f| && f[k] == p;
      ExpandIncludes(nodes, f, k, x);
    }
  }

  /** Level `d` of the breadth-first walk holds exactly the nodes at depth `d`. */
  lemma FrontierIsLevel(nodes: seq<GrowerNode>, d: nat, x: nat)
    requires WellFormed(nodes) && x < |nodes|
    ensures x in Frontier(nodes, d) <==> Depth(nodes, x) == d
  {
    if x in Frontier(nodes, d) {
      FrontierSound(nodes, d, x);
    }
    if Depth(nodes, x) == d {
      FrontierComplete(nodes, d, x);
    }
  }

  lemma {:induction false} DepthBelowIndex(nodes: seq<GrowerNode>, x: nat)
    requires WellFormed(nodes) && x < |nodes|
    ensures Depth(nodes, x) <= x
    decreases x
  {
    if x > 0 {
      DepthBelowIndex(nodes, nodes[x].parent);
    }
  }

  /** A node at depth `e` has an ancestor at every depth `d <= e`. */
  lemma {:induction false} AncestorAtDepth(nodes: seq<GrowerNode>, x: nat, d: nat)
    requires WellFormed(nodes) && x < |nodes| && d <= Depth(nodes, x)
    ensures exists y :: 0 <= y < |nodes| && Depth(nodes, y) == d
    decreases x
  {
    if d < Depth(nodes, x) {
      AncestorAtDepth(nodes, nodes[x].parent, d);
    }
  }

  /** A non-empty frontier lies strictly inside the node count. */
  lemma FrontierBound(nodes: seq<GrowerNode>, d: nat)
    requires WellFormed(nodes) && Frontier(nodes, d) != []
    ensures d < |nodes|
  {
    var x := Frontier(nodes, d)[0];
    FrontierSound(nodes, d, x);
    DepthBelowIndex(nodes, x);
  }

  /** An empty frontier at level `d` means no node is `d` or more levels deep. */
  lemma FrontierEmpty(nodes: seq<GrowerNode>, d: nat, x: nat)
    requires WellFormed(nodes) && Frontier(nodes, d) == [] && x < |nodes|
    ensures Depth(nodes, x) < d
  {
    if Depth(nodes, x) >= d {
      AncestorAtDepth(nodes, x, d);
      var y :| 0 <= y < |nodes| && Depth(nodes, y) == d;
      FrontierIsLevel(nodes, d, y);
      assert false;
    }
  }

  /**
    One pass of the inner loops of `Trimmer::GetMaxDepth` and `Trimmer::Trim`:
    clears the other half of the double buffer and appends to it, in order,
    the children of every node of the active half.
   */
  method CollectChildren(nodes: seq<GrowerNode>, nodeList: array<seq<nat>>, cur: nat)
    requires nodeList.Length == 2 && cur < 2
    requires ChildrenBelow(nodes) && AllBelow(nodeList[cur], |nodes|)
    modifies nodeList
    ensures nodeList[cur] == old(nodeList[cur])
    ensures nodeList[1 - cur] == Expand(nodes, nodeList[cur])
  {
    var next := 1 - cur;
    nodeList[next] := [];
    var i := 0;
    while i < |nodeList[cur]|
      invariant 0 <= i <= |nodeList[cur]|
      invariant nodeList[cur] == old(nodeList[cur])
      invariant nodeList[next] == Expand(nodes, nodeList[cur][..i])
    {
      var node := nodes[nodeList[cur][i]];
      var j := 0;
      while j < |node.children|
        invariant 0 <= j <= |node.children|
        invariant nodeList[cur] == old(nodeList[cur])
        invariant nodeList[next] == Expand(nodes, nodeList[cur][..i]) + node.children[..j]
      {
        nodeList[next] := nodeList[next] + [node.children[j]];
        j := j + 1;
      }
      assert nodeList[cur][..i + 1][..i] == nodeList[cur][..i];
      assert node.children[..j] == node.children;
      i := i + 1;
    }
    assert nodeList[cur][..i] == nodeList[cur];
  }

  /**
    The half of the double buffer that holds level `d`, `d % 2`; written by
    recursion so that each step of the walk only looks one level back.
   */
  function Slot(d: nat): (r: nat)
    ensures r < 2
  {
    if d == 0 then 0 else 1 - Slot(d - 1)
  }

  /** `Slot` is the parity the trimmer computes with `depth % 2`. */
  lemma {:induction false} SlotIsParity(d: nat)
    ensures Slot(d) == d % 2
  {
    if d > 0 {
      SlotIsParity(d - 1);
    }
  }

  /** The body of the level loop of `Trimmer::GetMaxDepth`: the other half receives level `depth + 1`. */
  method NextLevel(nodes: seq<GrowerNode>, nodeList: array<seq<nat>>, depth: nat)
    requires WellFormed(nodes) && nodeList.Length == 2
    requires nodeList[Slot(depth)] == Frontier(nodes, depth)
    modifies nodeList
    ensures nodeList[Slot(depth + 1)] == Frontier(nodes, depth + 1)
  {
    var cur := Slot(depth);
    assert Slot(depth + 1) == 1 - cur;
    CollectChildren(nodes, nodeList, cur);
  }

  /** `depth` levels: every node is shallower than `depth`, and some node is on the last level. */
  ghost predicate IsLevelCount(nodes: seq<GrowerNode>, depth: nat)
    requires WellFormed(nodes)
  {
    && 1 <= depth <= |nodes|
    && (forall x :: 0 <= x < |nodes| ==> Depth(nodes, x) < depth)
    && (exists x :: 0 <= x < |nodes| && Depth(nodes, x) == depth - 1)
  }

  /** The first empty level is one past the deepest node. */
  lemma LevelCount(nodes: seq<GrowerNode>, depth: nat, deepest: nat)
    requires WellFormed(nodes) && Frontier(nodes, depth) == []
    requires depth > 0 ==> deepest in Frontier(nodes, depth - 1)
    ensures IsLevelCount(nodes, depth)
  {
    forall x | 0 <= x < |nodes|
      ensures Depth(nodes, x) < depth
    {
      FrontierEmpty(nodes, depth, x);
    }
    if depth > 0 {
      FrontierSound(nodes, depth - 1, deepest);
      DepthBelowIndex(nodes, deepest);
    }
  }

  /** The level count is determined by the skeleton. */
  lemma LevelCountUnique(nodes: seq<GrowerNode>, d1: nat, d2: nat)
    requires WellFormed(nodes) && IsLevelCount(nodes, d1) && IsLevelCount(nodes, d2)
    ensures d1 == d2
  {
    var x1 :| 0 <= x1 < |nodes| && Depth(nodes, x1) == d1 - 1;
    var x2 :| 0 <= x2 < |nodes| && Depth(nodes, x2) == d2 - 1;
    assert Depth(nodes, x1) < d2 && Depth(nodes, x2) < d1;
  }

  /**
    `Trimmer::GetMaxDepth`: the number of breadth-first levels reachable from
    the root through the children lists; one more than the largest depth.
   */
  method GetMaxDepth(nodes: seq<GrowerNode>) returns (depth: nat)
    requires WellFormed(nodes)
    ensures IsLevelCount(nodes, depth)
  {
    depth := 0;
    ghost var deepest: nat := 0;
    var nodeList := new seq<nat>[2];
    nodeList[0], nodeList[1] := [0], [];
    while nodeList[Slot(depth)] != []
      invariant 0 <= depth <= |nodes|
      invariant nodeList[Slot(depth)] == Frontier(nodes, depth)
      invariant depth > 0 ==> deepest in Frontier(nodes, depth - 1)
      decreases |nodes| - depth
    {
      FrontierBound(nodes, depth);
      deepest := nodeList[Slot(depth)][0];
      NextLevel(nodes, nodeList, depth);
      depth := depth + 1;
    }
    LevelCount(nodes, depth, deepest);
  }

  /** A node after `Trim(maxLength)`: levels up to `maxLength` are rewritten, deeper ones are kept. */
  function TrimmedNode(orig: seq<GrowerNode>, x: nat, maxLength: int): GrowerNode
    requires WellFormed(orig) && x < |orig|
  {
    if maxLength < 0 || Depth(orig, x) <= maxLength
    then orig[x].(trimmed := Depth(orig, x) == maxLength)
    else orig[x]
  }

  /** The state after the levels below `d` have been visited. */
  function LevelTrimmed(orig: seq<GrowerNode>, x: nat, maxLength: int, d: nat): GrowerNode
    requires WellFormed(orig) && x < |orig|
  {
    if Depth(orig, x) < d then orig[x].(trimmed := Depth(orig, x) == maxLength) else orig[x]
  }

  /** The flag-setting half of one level of `Trimmer::Trim`: every node of `level` gets `trimmed := flag`. */
  method FlagLevel(data: GrowerData, level: seq<nat>, flag: bool)
    requires AllBelow(level, |data.nodes|)
    modifies data`nodes
    ensures |data.nodes| == |old(data.nodes)|
    ensures forall x :: 0 <= x < |data.nodes| ==>
      data.nodes[x] == if x in level then old(data.nodes)[x].(trimmed := flag) else old(data.nodes)[x]
  {
    var i := 0;
    while i < |level|
      invariant 0 <= i <= |level|
      invariant |data.nodes| == |old(data.nodes)|
      invariant forall x :: 0 <= x < |data.nodes| ==>
        data.nodes[x] == if x in level[..i] then old(data.nodes)[x].(trimmed := flag) else old(data.nodes)[x]
    {
      var a := level[i];
      data.nodes := data.nodes[a := data.nodes[a].(trimmed := flag)];
      assert level[..i + 1] == level[..i] + [a];
      i := i + 1;
    }
    assert level[..i] == level;
  }

  /** The levels below `d` hold their final flags; the others are as they were. */
  predicate TrimmedThrough(orig: seq<GrowerNode>, nodes: seq<GrowerNode>, maxLength: int, d: nat)
    requires WellFormed(orig)
  {
    |nodes| == |orig| && forall x :: 0 <= x < |orig| ==> nodes[x] == LevelTrimmed(orig, x, maxLength, d)
  }

  /** Flagging level `d` and collecting its children advances the walk by one level. */
  lemma TrimStep(orig: seq<GrowerNode>, before: seq<GrowerNode>, after: seq<GrowerNode>, maxLength: int, d: nat)
    requires WellFormed(orig) && TrimmedThrough(orig, before, maxLength, d)
    requires |after| == |before|
    requires forall x :: 0 <= x < |after| ==>
      after[x] == if x in Frontier(orig, d) then before[x].(trimmed := d == maxLength) else before[x]
    ensures TrimmedThrough(orig, after, maxLength, d + 1)
    ensures ChildrenBelow(after) && Expand(after, Frontier(orig, d)) == Frontier(orig, d + 1)
  {
    forall x | 0 <= x < |orig|
      ensures after[x] == LevelTrimmed(orig, x, maxLength, d + 1)
      ensures after[x].children == orig[x].children
    {
      FrontierIsLevel(orig, d, x);
    }
    SameChildrenExpand(orig, after, Frontier(orig, d));
  }

  /** `nodes` is `orig` after `Trim(maxLength)`. */
  ghost predicate IsTrimmed(orig: seq<GrowerNode>, nodes: seq<GrowerNode>, maxLength: int)
    requires WellFormed(orig)
  {
    |nodes| == |orig| && forall x :: 0 <= x < |nodes| ==> nodes[x] == TrimmedNode(orig, x, maxLength)
  }

  /** The walk ends either past the last level or right after level `maxLength`; both give the final flags. */
  lemma TrimDone(orig: seq<GrowerNode>, nodes: seq<GrowerNode>, maxLength: int, d: nat)
    requires WellFormed(orig) && TrimmedThrough(orig, nodes, maxLength, d)
    requires maxLength >= 0 ==> d <= maxLength + 1
    requires Frontier(orig, d) == [] || (maxLength >= 0 && d == maxLength + 1)
    ensures IsTrimmed(orig, nodes, maxLength)
  {
    forall x | 0 <= x < |nodes|
      ensures nodes[x] == TrimmedNode(orig, x, maxLength)
    {
      if Frontier(orig, d) == [] {
        FrontierEmpty(orig, d, x);
      }
    }
  }

  /** The body of the level loop of `Trimmer::Trim`: flags level `depth`, then fills the other half with level `depth + 1`. */
  method TrimLevel(data: GrowerData, nodeList: array<seq<nat>>, ghost orig: seq<GrowerNode>, maxLength: int, depth: nat)
    requires WellFormed(orig) && nodeList.Length == 2
    requires nodeList[Slot(depth)] == Frontier(orig, depth)
    requires TrimmedThrough(orig, data.nodes, maxLength, depth)
    modifies data`nodes, nodeList
    ensures nodeList[Slot(depth + 1)] == Frontier(orig, depth + 1)
    ensures TrimmedThrough(orig, data.nodes, maxLength, depth + 1)
  {
    var cur := Slot(depth);
    assert Slot(depth + 1) == 1 - cur;
    ghost var before := data.nodes;
    FlagLevel(data, nodeList[cur], depth == maxLength);
    TrimStep(orig, before, data.nodes, maxLength, depth);
    CollectChildren(data.nodes, nodeList, cur);
  }

  /**
    `Trimmer::Trim`: walks the levels breadth-first, setting `trimmed` to
    "this is level maxLength", and stops after level `maxLength`. Only the
    `trimmed` flags change; the frame leaves every other field of `data` as it was.
   */
  method Trim(data: GrowerData, maxLength: int)
    requires WellFormed(data.nodes)
    modifies data`nodes
    ensures IsTrimmed(old(data.nodes), data.nodes, maxLength)
  {
    ghost var orig := data.nodes;
    var depth: nat := 0;
    var nodeList := new seq<nat>[2];
    nodeList[0], nodeList[1] := [0], [];
    while nodeList[Slot(depth)] != []
      invariant depth <= |orig|
      invariant maxLength < 0 || depth <= maxLength
      invariant nodeList[Slot(depth)] == Frontier(orig, depth)
      invariant TrimmedThrough(orig, data.nodes, maxLength, depth)
      decreases |orig| - depth
    {
      FrontierBound(orig, depth);
      TrimLevel(data, nodeList, orig, maxLength, depth);
      depth := depth + 1;
      if maxLength >= 0 && depth > maxLength {
        break;
      }
    }
    TrimDone(orig, data.nodes, maxLength, depth);
  }

  /** Expanding a frontier only looks at children lists. */
  lemma {:induction false} SameChildrenExpand(a: seq<GrowerNode>, b: seq<GrowerNode>, f: seq<nat>)
    requires ChildrenBelow(a) && |b| == |a| && AllBelow(f, |a|)
    requires forall x :: 0 <= x < |a| ==> b[x].children == a[x].children
    ensures ChildrenBelow(b)
    ensures Expand(b, f) == Expand(a, f)
    decreases |f|
  {
    assert ChildrenBelow(b) by {
      forall p, k | 0 <= p < |b| && 0 <= k < |b[p].children|
        ensures b[p].children[k] < |b|
      {
        assert b[p].children[k] == a[p].children[k];
      }
    }
    if f != [] {
      SameChildrenExpand(a, b, f[..|f| - 1]);
    }
  }

  /** `(int)ceilf(maxDepth * percentLength) + 1`, the length `Trimmer::compute` trims at. */
  function TrimLength(maxDepth: nat, percentLength: real): (length: int)
    requires 0.0 <= percentLength <= 1.0
    ensures 1 <= length <= maxDepth + 1
    ensures percentLength == 1.0 ==> length == maxDepth + 1
    ensures percentLength == 0.0 ==> length == 1
  {
    var m := maxDepth as real;
    var scaled := m * percentLength;
    assert 0.0 <= scaled <= m by {
      assert m * (1.0 - percentLength) >= 0.0;
    }
    -((-scaled).Floor) + 1
  }

  /**
    After trimming at length `L >= 0`, a node is excluded from the mesh
    exactly when it is at least `L` levels deep, whatever the flags were before.
   */
  lemma {:induction false} TrimExcludesDeepNodes(orig: seq<GrowerNode>, after: seq<GrowerNode>, maxLength: nat, x: nat)
    requires WellFormed(orig) && |after| == |orig| && x < |orig|
    requires forall y :: 0 <= y < |orig| ==> after[y] == TrimmedNode(orig, y, maxLength)
    ensures WellFormed(after)
    ensures Depth(after, x) == Depth(orig, x)
    ensures Excluded(after, x) <==> Depth(orig, x) >= maxLength
    decreases x
  {
    TrimKeepsShape(orig, after, maxLength);
    if x > 0 {
      TrimExcludesDeepNodes(orig, after, maxLength, orig[x].parent);
    }
  }

  /** Trimming leaves the tree itself (positions, parents, children) untouched. */
  lemma TrimKeepsShape(orig: seq<GrowerNode>, after: seq<GrowerNode>, maxLength: int)
    requires WellFormed(orig) && |after| == |orig|
    requires forall y :: 0 <= y < |orig| ==> after[y] == TrimmedNode(orig, y, maxLength)
    ensures WellFormed(after)
    ensures forall y :: 0 <= y < |orig| ==>
      after[y].pos == orig[y].pos && after[y].parent == orig[y].parent &&
      after[y].children == orig[y].children && after[y].surfaceNormal == orig[y].surfaceNormal
  {
    assert forall y :: 0 <= y < |orig| ==> after[y].parent == orig[y].parent && after[y].children == orig[y].children;
    forall i
      ensures ListedByParent(after, i)
    {
      assert ListedByParent(orig, i);
    }
    forall p, k
      ensures ChildPointsBack(after, p, k)
    {
      assert ChildPointsBack(orig, p, k);
    }
    forall p | 0 <= p < |after|
      ensures Distinct(after[p].children)
    {
      assert Distinct(orig[p].children);
    }
  }

  /** At percentLength 1 every node ends untrimmed. */
  lemma FullLengthTrimsNothing(orig: seq<GrowerNode>, maxDepth: nat, x: nat)
    requires WellFormed(orig) && x < |orig|
    requires forall y :: 0 <= y < |orig| ==> Depth(orig, y) < maxDepth
    ensures !TrimmedNode(orig, x, TrimLength(maxDepth, 1.0)).trimmed
  {
  }

  /**
    At percentLength 0 the root stays untrimmed, exactly its children are
    flagged, and deeper nodes keep their previous flag.
   */
  lemma ZeroLengthTrimsRootChildren(orig: seq<GrowerNode>, maxDepth: nat, x: nat)
    requires WellFormed(orig) && x < |orig|
    ensures x == 0 ==> !TrimmedNode(orig, x, TrimLength(maxDepth, 0.0)).trimmed
    ensures x != 0 && orig[x].parent == 0 ==> TrimmedNode(orig, x, TrimLength(maxDepth, 0.0)).trimmed
    ensures x != 0 && orig[x].parent != 0 ==>
      TrimmedNode(orig, x, TrimLength(maxDepth, 0.0)).trimmed == orig[x].trimmed
  {
    if x != 0 {
      var p := orig[x].parent;
      assert Depth(orig, x) == Depth(orig, p) + 1;
      if p != 0 {
        assert Depth(orig, p) == Depth(orig, orig[p].parent) + 1;
      }
    }
  }

  /**
    `Trimmer::compute`: trims the skeleton in place at
    `ceil(maxDepth * percentLength) + 1` levels; afterwards a node is meshed
    exactly when it is shallower than that.
   */
  method Compute(data: GrowerData, percentLength: real) returns (length: int)
    requires WellFormed(data.nodes) && 0.0 <= percentLength <= 1.0
    modifies data`nodes
    ensures WellFormed(data.nodes) && |data.nodes| == |old(data.nodes)|
    ensures 1 <= length
    ensures exists d :: IsLevelCount(old(data.nodes), d) && length == TrimLength(d, percentLength)
    ensures forall d :: IsLevelCount(old(data.nodes), d) ==> length == TrimLength(d, percentLength)
    ensures IsTrimmed(old(data.nodes), data.nodes, length)
    ensures forall x :: 0 <= x < |data.nodes| ==>
      (Excluded(data.nodes, x) <==> Depth(old(data.nodes), x) >= length)
    ensures percentLength == 1.0 ==> forall x :: 0 <= x < |data.nodes| ==> !data.nodes[x].trimmed
  {
    ghost var orig := data.nodes;
    var maxDepth := GetMaxDepth(data.nodes);
    length := TrimLength(maxDepth, percentLength);
    forall d | IsLevelCount(orig, d)
      ensures length == TrimLength(d, percentLength)
    {
      LevelCountUnique(orig, d, maxDepth);
    }
    Trim(data, length);
    TrimKeepsShape(orig, data.nodes, length);
    forall x | 0 <= x < |data.nodes|
      ensures Excluded(data.nodes, x) <==> Depth(orig, x) >= length
    {
      TrimExcludesDeepNodes(orig, data.nodes, length, x);
    }
    if percentLength == 1.0 {
      forall x | 0 <= x < |data.nodes|
        ensures !data.nodes[x].trimmed
      {
        FullLengthTrimsNothing(orig, maxDepth, x);
      }
    }
  }
}
