/**
  The second half of an iteration of `Grower::Grow`: the alive list is rebuilt
  from the claims, every alive node grows one child towards the points it
  claimed unless that child would duplicate an existing one (recorded) or the
  node is on the replayed banned list, and, when generating, the new nodes
  deactivate the attraction points within the kill radius.
 */
module GrowthSpawn {

  import opened Seqs
  import opened Skeleton
  import opened GrowthAttract

  /* ---------- the alive list, lines 461-466 ---------- */

  /** The claiming node of each affected point, in the order of the affected list. */
  function Targets(affected: seq<nat>, closest: seq<nat>): (r: seq<nat>)
    requires AllBelow(affected, |closest|)
    ensures |r| == |affected|
    ensures forall i :: 0 <= i < |affected| ==> r[i] == closest[affected[i]]
    decreases |affected|
  {
    if affected == [] then [] else Targets(affected[..|affected| - 1], closest) + [closest[affected[|affected| - 1]]]
  }

  /** Is `x` the claiming node of one of the affected points? */
  ghost predicate IsTarget(affected: seq<nat>, closest: seq<nat>, x: nat)
    requires AllBelow(affected, |closest|)
  {
    exists i :: 0 <= i < |affected| && closest[affected[i]] == x
  }

  /**
    What the rest of an iteration reads in range: every affected point is an
    index of the claim table and of the points, and its claim an index of the
    nodes. A fresh round always fits; a replayed round fits when the cache was
    recorded on the same input.
   */
  predicate Fits(affected: seq<nat>, closest: seq<nat>, numPoints: nat, numNodes: nat)
  {
    && AllBelow(affected, |closest|)
    && AllBelow(affected, numPoints)
    && forall i :: 0 <= i < |affected| ==> closest[affected[i]] < numNodes
  }

  /** A fresh round fits: its affected points are claimed by existing nodes. */
  lemma FreshRoundFits(c: Claims, active: seq<bool>, numNodes: nat)
    requires Sized(c, |active|) && ClaimsValid(c, active, numNodes)
    ensures Fits(c.affected, c.closest, |active|, numNodes)
  {
    forall i | 0 <= i < |c.affected|
      ensures c.closest[c.affected[i]] < numNodes
    {
      assert c.closest[c.affected[i]] != UINT_MAX;
    }
  }

  /** Lines 461-466: the claiming nodes of the affected points, each once. */
  method RebuildAlive(affected: seq<nat>, closest: seq<nat>) returns (alive: seq<nat>)
    requires AllBelow(affected, |closest|)
    ensures alive == InsertAll([], Targets(affected, closest))
  {
    alive := [];
    var i := 0;
    while i < |affected|
      invariant 0 <= i <= |affected|
      invariant alive == InsertAll([], Targets(affected[..i], closest))
    {
      assert affected[..i + 1][..i] == affected[..i];
      InsertAllSnoc([], Targets(affected[..i], closest), closest[affected[i]]);
      alive := InsertUnique(alive, closest[affected[i]]);
      i := i + 1;
    }
    assert affected[..i] == affected;
  }

  /** The rebuilt alive list is duplicate-free and holds exactly the claiming nodes of the affected points. */
  lemma AliveFacts(affected: seq<nat>, closest: seq<nat>, numPoints: nat, numNodes: nat)
    requires Fits(affected, closest, numPoints, numNodes)
    ensures Distinct(InsertAll([], Targets(affected, closest)))
    ensures AllBelow(InsertAll([], Targets(affected, closest)), numNodes)
    ensures forall x :: x in InsertAll([], Targets(affected, closest)) <==> IsTarget(affected, closest, x)
  {
    var t := Targets(affected, closest);
    var alive := InsertAll([], t);
    InsertAllFacts([], t);
    forall x ensures x in alive <==> IsTarget(affected, closest, x)
    {
      if x in t {
        var i :| 0 <= i < |t| && t[i] == x;
        assert closest[affected[i]] == x;
      }
      if IsTarget(affected, closest, x) {
        var i :| 0 <= i < |affected| && closest[affected[i]] == x;
        assert t[i] == x;
      }
    }
    forall k | 0 <= k < |alive|
      ensures alive[k] < numNodes
    {
      assert alive[k] in alive;
    }
  }

  /* ---------- the inputs of the spawn loop ---------- */

  /**
    What the spawn loop reads besides the skeleton: the points, this round's
    affected list and claims, the geometry, the growth distance, whether the
    cache is being recorded, and the banned list of a replayed round.
   */
  datatype SpawnRound = SpawnRound(
    points: seq<Vec3>,
    affected: seq<nat>,
    closest: seq<nat>,
    geo: Geometry,
    growDist: real,
    generating: bool,
    banned: seq<nat>)

  /** The positions of the affected points claimed by node `x`, in affected-list order (lines 483-493). */
  function AttractorPositions(points: seq<Vec3>, affected: seq<nat>, closest: seq<nat>, x: nat): (r: seq<Vec3>)
    requires AllBelow(affected, |closest|) && AllBelow(affected, |points|)
    ensures |r| <= |affected|
    decreases |affected|
  {
    if affected == [] then []
    else
      var last := affected[|affected| - 1];
      AttractorPositions(points, affected[..|affected| - 1], closest, x) + (if closest[last] == x then [points[last]] else [])
  }

  /** A node on the alive list claims at least one point, so the source's `nAttractors > 0` holds. */
  lemma {:induction false} TargetHasAttractors(points: seq<Vec3>, affected: seq<nat>, closest: seq<nat>, x: nat)
    requires AllBelow(affected, |closest|) && AllBelow(affected, |points|)
    requires IsTarget(affected, closest, x)
    ensures |AttractorPositions(points, affected, closest, x)| > 0
    decreases |affected|
  {
    var init := affected[..|affected| - 1];
    if closest[affected[|affected| - 1]] != x {
      var i :| 0 <= i < |affected| && closest[affected[i]] == x;
      assert init[i] == affected[i];
      TargetHasAttractors(points, init, closest, x);
    }
  }

  /** Every position a node grows towards is one of the attraction points, one it claims. */
  lemma {:induction false} AttractorsClaimed(points: seq<Vec3>, affected: seq<nat>, closest: seq<nat>, x: nat)
    requires AllBelow(affected, |closest|) && AllBelow(affected, |points|)
    ensures forall q :: q in AttractorPositions(points, affected, closest, x) ==>
      exists j :: 0 <= j < |affected| && closest[affected[j]] == x && q == points[affected[j]]
    decreases |affected|
  {
    if affected != [] {
      var n := |affected| - 1;
      var init := affected[..n];
      AttractorsClaimed(points, init, closest, x);
      forall q | q in AttractorPositions(points, affected, closest, x)
        ensures exists j :: 0 <= j < |affected| && closest[affected[j]] == x && q == points[affected[j]]
      {
        if q in AttractorPositions(points, init, closest, x) {
          var j :| 0 <= j < |init| && closest[init[j]] == x && q == points[init[j]];
          assert affected[j] == init[j];
        } else {
          assert closest[affected[n]] == x && q == points[affected[n]];
        }
      }
    }
  }

  /** Lines 482-495: the attraction points of `nodeIdx`; the source sums their normalised directions. */
  method Attractors(points: seq<Vec3>, affected: seq<nat>, closest: seq<nat>, nodeIdx: nat) returns (r: seq<Vec3>)
    requires AllBelow(affected, |closest|) && AllBelow(affected, |points|)
    ensures r == AttractorPositions(points, affected, closest, nodeIdx)
  {
    r := [];
    var j := 0;
    while j < |affected|
      invariant 0 <= j <= |affected|
      invariant r == AttractorPositions(points, affected[..j], closest, nodeIdx)
    {
      assert affected[..j + 1][..j] == affected[..j];
      if closest[affected[j]] == nodeIdx {
        r := r + [points[affected[j]]];
      }
      j := j + 1;
    }
    assert affected[..j] == affected;
  }

  /** Where node `x` would grow its child. */
  function NewPos(nodes: seq<GrowerNode>, round: SpawnRound, x: nat): Vec3
    requires x < |nodes| && AllBelow(round.affected, |round.closest|) && AllBelow(round.affected, |round.points|)
  {
    round.geo.step(nodes[x].pos, AttractorPositions(round.points, round.affected, round.closest, x), round.growDist)
  }

  /** Some listed child lies within 0.0001 of `pos` (line 502). */
  predicate HasCloseChild(nodes: seq<GrowerNode>, children: seq<nat>, pos: Vec3, dist: (Vec3, Vec3) -> real)
    requires AllBelow(children, |nodes|)
  {
    exists k :: 0 <= k < |children| && dist(nodes[children[k]].pos, pos) <= 0.0001
  }

  /** Lines 498-508: the scan of the children for one that the new node would duplicate. */
  method DuplicatesChild(nodes: seq<GrowerNode>, children: seq<nat>, pos: Vec3, dist: (Vec3, Vec3) -> real) returns (r: bool)
    requires AllBelow(children, |nodes|)
    ensures r <==> HasCloseChild(nodes, children, pos, dist)
  {
    r := false;
    var k := 0;
    while k < |children|
      invariant 0 <= k <= |children|
      invariant !HasCloseChild(nodes, children[..k], pos, dist)
    {
      if dist(nodes[children[k]].pos, pos) <= 0.0001 {
        return true;
      }
      assert children[..k + 1] == children[..k] + [children[k]];
      k := k + 1;
    }
    assert children[..k] == children;
  }

  /** Lines 510-519: the linear search of the banned list. */
  method IsBanned(banned: seq<nat>, nodeIdx: nat) returns (r: bool)
    ensures r <==> nodeIdx in banned
  {
    r := false;
    var k := 0;
    while k < |banned|
      invariant 0 <= k <= |banned|
      invariant nodeIdx !in banned[..k]
    {
      if banned[k] == nodeIdx {
        return true;
      }
      k := k + 1;
    }
    assert banned[..k] == banned;
  }

  /**
    Node `x` grows nothing this round: when generating, because its new child
    would lie on an existing child; when replaying, because the recorded
    round banned it.
   */
  predicate Dropped(nodes: seq<GrowerNode>, round: SpawnRound, x: nat)
    requires ChildrenBelow(nodes) && x < |nodes|
    requires AllBelow(round.affected, |round.closest|) && AllBelow(round.affected, |round.points|)
  {
    if round.generating then HasCloseChild(nodes, nodes[x].children, NewPos(nodes, round, x), round.geo.dist)
    else x in round.banned
  }

  /* ---------- growing the skeleton ---------- */

  /** Lines 528-534: `p` lists a new last node at `pos` whose parent is `p`. */
  function WithChild(nodes: seq<GrowerNode>, p: nat, pos: Vec3): (r: seq<GrowerNode>)
    requires p < |nodes|
    ensures |r| == |nodes| + 1
  {
    nodes[p := nodes[p].(children := nodes[p].children + [|nodes|])] + [NewNode().(pos := pos, parent := Parent31(p))]
  }

  /** Adding a child keeps the skeleton well formed while the index stays below the sentinel. */
  lemma WithChildWellFormed(nodes: seq<GrowerNode>, p: nat, pos: Vec3)
    requires WellFormed(nodes) && p < |nodes| && |nodes| < INVALID_PARENT
    ensures WellFormed(WithChild(nodes, p, pos))
    ensures WithChild(nodes, p, pos)[|nodes|].parent == p
  {
    var r := WithChild(nodes, p, pos);
    var c := |nodes|;
    assert r[c].parent == p;
    forall i | 0 < i < |r|
      ensures r[i].parent < i
    {
      if i < c {
        assert r[i].parent == nodes[i].parent;
      }
    }
    forall i: nat
      ensures ListedByParent(r, i)
    {
      if 0 < i < c {
        assert ListedByParent(nodes, i);
        var q := nodes[i].parent;
        assert r[q].children == nodes[q].children || r[q].children == nodes[q].children + [c];
      }
    }
    forall q: nat, k: nat
      ensures ChildPointsBack(r, q, k)
    {
      if q < |r| && k < |r[q].children| {
        if q == p && k == |nodes[p].children| {
          assert r[q].children[k] == c;
        } else {
          assert ChildPointsBack(nodes, q, k);
          assert r[q].children[k] == nodes[q].children[k];
        }
      }
    }
    forall q | 0 <= q < |r|
      ensures Distinct(r[q].children)
    {
      if q < c {
        assert Distinct(nodes[q].children);
        if q == p {
          forall k | 0 <= k < |nodes[p].children|
            ensures nodes[p].children[k] != c
          {
            assert ChildPointsBack(nodes, p, k);
          }
        }
      }
    }
  }

  /** The new node is one level deeper than its parent. */
  lemma WithChildDepth(nodes: seq<GrowerNode>, p: nat, pos: Vec3)
    requires WellFormed(nodes) && p < |nodes| && |nodes| < INVALID_PARENT
    ensures WellFormed(WithChild(nodes, p, pos))
    ensures Depth(WithChild(nodes, p, pos), |nodes|) == Depth(nodes, p) + 1
  {
    WithChildWellFormed(nodes, p, pos);
    DepthUnchanged(nodes, WithChild(nodes, p, pos), p);
  }

  /** Depth only reads parents, so appending nodes keeps the depth of existing ones. */
  lemma {:induction false} DepthUnchanged(nodes: seq<GrowerNode>, more: seq<GrowerNode>, i: nat)
    requires WellFormed(nodes) && WellFormed(more) && |nodes| <= |more| && i < |nodes|
    requires forall j :: 0 <= j < |nodes| ==> more[j].parent == nodes[j].parent
    ensures Depth(more, i) == Depth(nodes, i)
    decreases i
  {
    if i != 0 {
      DepthUnchanged(nodes, more, nodes[i].parent);
    }
  }

  /** The skeleton after `parents[k]` grew a child at `poss[k]`, for each k in turn. */
  function Sprouted(nodes: seq<GrowerNode>, parents: seq<nat>, poss: seq<Vec3>): (r: seq<GrowerNode>)
    requires AllBelow(parents, |nodes|) && |poss| == |parents|
    ensures |r| == |nodes| + |parents|
    decreases |parents|
  {
    if parents == [] then nodes
    else
      var n := |parents| - 1;
      WithChild(Sprouted(nodes, parents[..n], poss[..n]), parents[n], poss[n])
  }

  /** The children `Sprouted` adds to node `y`: the new index of each grown child of `y`, in order. */
  function Added(base: nat, parents: seq<nat>, y: nat): seq<nat>
    decreases |parents|
  {
    if parents == [] then []
    else
      var n := |parents| - 1;
      Added(base, parents[..n], y) + (if parents[n] == y then [base + n] else [])
  }

  /**
    What growing does to each node: the old nodes keep everything but gain the
    new children listed by `Added`; the k-th new node sits at `poss[k]`, hangs
    from `parents[k]` and has nothing else set.
   */
  lemma {:induction false} SproutedFacts(nodes: seq<GrowerNode>, parents: seq<nat>, poss: seq<Vec3>)
    requires AllBelow(parents, |nodes|) && |poss| == |parents|
    ensures forall y :: 0 <= y < |nodes| ==>
      Sprouted(nodes, parents, poss)[y] == nodes[y].(children := nodes[y].children + Added(|nodes|, parents, y))
    ensures forall k :: 0 <= k < |parents| ==>
      Sprouted(nodes, parents, poss)[|nodes| + k] == NewNode().(pos := poss[k], parent := Parent31(parents[k]))
    decreases |parents|
  {
    if parents != [] {
      var n := |parents| - 1;
      var mid := Sprouted(nodes, parents[..n], poss[..n]);
      SproutedFacts(nodes, parents[..n], poss[..n]);
      var r := Sprouted(nodes, parents, poss);
      assert r == WithChild(mid, parents[n], poss[n]);
      forall y | 0 <= y < |nodes|
        ensures r[y] == nodes[y].(children := nodes[y].children + Added(|nodes|, parents, y))
      {
        assert Added(|nodes|, parents, y) == Added(|nodes|, parents[..n], y) + (if parents[n] == y then [|nodes| + n] else []);
      }
      forall k | 0 <= k < |parents|
        ensures r[|nodes| + k] == NewNode().(pos := poss[k], parent := Parent31(parents[k]))
      {
        if k < n {
          assert parents[..n][k] == parents[k] && poss[..n][k] == poss[k];
        }
      }
    }
  }

  /** A node that grew nothing gains no children; one that grew once gains exactly its new node. */
  lemma {:induction false} AddedOnce(base: nat, parents: seq<nat>, y: nat)
    requires Distinct(parents)
    ensures y !in parents ==> Added(base, parents, y) == []
    ensures forall k :: 0 <= k < |parents| && parents[k] == y ==> Added(base, parents, y) == [base + k]
    decreases |parents|
  {
    if parents != [] {
      var n := |parents| - 1;
      assert Distinct(parents[..n]);
      AddedOnce(base, parents[..n], y);
      forall k | 0 <= k < |parents| && parents[k] == y
        ensures Added(base, parents, y) == [base + k]
      {
        if k < n {
          assert parents[..n][k] == y;
        } else {
          assert y !in parents[..n];
        }
      }
    }
  }

  /** Growing any number of children keeps the skeleton well formed. */
  lemma {:induction false} SproutedWellFormed(nodes: seq<GrowerNode>, parents: seq<nat>, poss: seq<Vec3>)
    requires WellFormed(nodes) && AllBelow(parents, |nodes|) && |poss| == |parents|
    requires |nodes| + |parents| <= INVALID_PARENT
    ensures WellFormed(Sprouted(nodes, parents, poss))
    decreases |parents|
  {
    if parents != [] {
      var n := |parents| - 1;
      SproutedWellFormed(nodes, parents[..n], poss[..n]);
      WithChildWellFormed(Sprouted(nodes, parents[..n], poss[..n]), parents[n], poss[n]);
    }
  }

  /** Line 534 with the bookkeeping of 528-533: node `p` grows a child at `pos`. */
  method AddChild(data: GrowerData, p: nat, pos: Vec3) returns (newNodeIdx: nat)
    requires p < |data.nodes|
    modifies data`nodes
    ensures newNodeIdx == |old(data.nodes)|
    ensures data.nodes == WithChild(old(data.nodes), p, pos)
  {
    newNodeIdx := |data.nodes|;
    var srcNode := data.nodes[p];
    var newNode := NewNode().(pos := pos, parent := Parent31(p));
    data.nodes := data.nodes[p := srcNode.(children := srcNode.children + [newNodeIdx])] + [newNode];
  }

  /** Growing moves no existing node. */
  lemma SproutedKeepsPos(nodes: seq<GrowerNode>, parents: seq<nat>, poss: seq<Vec3>, y: nat)
    requires AllBelow(parents, |nodes|) && |poss| == |parents| && y < |nodes|
    ensures Sprouted(nodes, parents, poss)[y].pos == nodes[y].pos
  {
    SproutedFacts(nodes, parents, poss);
  }

  /** A node that grew nothing is unchanged. */
  lemma SproutedKeepsNode(nodes: seq<GrowerNode>, parents: seq<nat>, poss: seq<Vec3>, y: nat)
    requires AllBelow(parents, |nodes|) && |poss| == |parents| && y < |nodes|
    requires Distinct(parents) && y !in parents
    ensures Sprouted(nodes, parents, poss)[y] == nodes[y]
  {
    SproutedFacts(nodes, parents, poss);
    AddedOnce(|nodes|, parents, y);
    assert nodes[y].children + [] == nodes[y].children;
  }

  /** The duplicate test only reads the positions of the listed children. */
  lemma CloseChildSamePositions(a: seq<GrowerNode>, b: seq<GrowerNode>, children: seq<nat>, pos: Vec3, dist: (Vec3, Vec3) -> real)
    requires AllBelow(children, |a|) && AllBelow(children, |b|)
    requires forall k :: 0 <= k < |children| ==> a[children[k]].pos == b[children[k]].pos
    ensures HasCloseChild(a, children, pos, dist) == HasCloseChild(b, children, pos, dist)
  {
    if HasCloseChild(a, children, pos, dist) {
      var k :| 0 <= k < |children| && dist(a[children[k]].pos, pos) <= 0.0001;
      assert dist(b[children[k]].pos, pos) <= 0.0001;
    }
    if HasCloseChild(b, children, pos, dist) {
      var k :| 0 <= k < |children| && dist(b[children[k]].pos, pos) <= 0.0001;
      assert dist(a[children[k]].pos, pos) <= 0.0001;
    }
  }

  /** Nodes that grew nothing keep their children, so duplicates are judged on the skeleton as it was. */
  lemma SproutedKeepsDropTest(nodes: seq<GrowerNode>, round: SpawnRound, parents: seq<nat>, poss: seq<Vec3>, x: nat)
    requires WellFormed(nodes) && AllBelow(parents, |nodes|) && |poss| == |parents| && |nodes| + |parents| <= INVALID_PARENT
    requires x < |nodes| && Distinct(parents) && x !in parents
    requires AllBelow(round.affected, |round.closest|) && AllBelow(round.affected, |round.points|)
    ensures WellFormed(Sprouted(nodes, parents, poss))
    ensures Sprouted(nodes, parents, poss)[x] == nodes[x]
    ensures NewPos(Sprouted(nodes, parents, poss), round, x) == NewPos(nodes, round, x)
    ensures Dropped(Sprouted(nodes, parents, poss), round, x) == Dropped(nodes, round, x)
  {
    var r := Sprouted(nodes, parents, poss);
    SproutedWellFormed(nodes, parents, poss);
    SproutedKeepsNode(nodes, parents, poss, x);
    var ch := nodes[x].children;
    assert AllBelow(ch, |nodes|) by {
      forall k | 0 <= k < |ch|
        ensures ch[k] < |nodes|
      {
        assert ChildPointsBack(nodes, x, k);
      }
    }
    forall k | 0 <= k < |ch|
      ensures r[ch[k]].pos == nodes[ch[k]].pos
    {
      SproutedKeepsPos(nodes, parents, poss, ch[k]);
    }
    CloseChildSamePositions(r, nodes, ch, NewPos(nodes, round, x), round.geo.dist);
  }

  /* ---------- the spawn loop, lines 474-538 ---------- */

  /** The cache entries with `extra` appended to the last one (the entry of the current round). */
  function AppendToLast(entries: seq<seq<nat>>, extra: seq<nat>): (r: seq<seq<nat>>)
    requires |entries| > 0
    ensures |r| == |entries| && r[..|r| - 1] == entries[..|entries| - 1]
    ensures r[|r| - 1] == entries[|entries| - 1] + extra
  {
    entries[|entries| - 1 := entries[|entries| - 1] + extra]
  }

  lemma AppendToLastSnoc(entries: seq<seq<nat>>, extra: seq<nat>, x: nat)
    requires |entries| > 0
    ensures AppendToLast(entries, extra + [x]) ==
      AppendToLast(entries, extra)[|entries| - 1 := AppendToLast(entries, extra)[|entries| - 1] + [x]]
  {
    assert entries[|entries| - 1] + (extra + [x]) == entries[|entries| - 1] + extra + [x];
  }

  /** Lines 480-495: the position node `nodeIdx` grows towards; the source asserts it has attractors. */
  method GrowthPos(nodes: seq<GrowerNode>, round: SpawnRound, nodeIdx: nat) returns (pos: Vec3)
    requires nodeIdx < |nodes| && AllBelow(round.affected, |round.closest|) && AllBelow(round.affected, |round.points|)
    requires IsTarget(round.affected, round.closest, nodeIdx)
    ensures pos == NewPos(nodes, round, nodeIdx)
  {
    var attractors := Attractors(round.points, round.affected, round.closest, nodeIdx);
    TargetHasAttractors(round.points, round.affected, round.closest, nodeIdx);
    assert |attractors| > 0;
    pos := round.geo.step(nodes[nodeIdx].pos, attractors, round.growDist);
  }

  /** The inputs of the spawn loop as the source relies on them. */
  ghost predicate SpawnPre(nodes0: seq<GrowerNode>, round: SpawnRound, alive: seq<nat>)
  {
    && WellFormed(nodes0) && |nodes0| + |alive| <= INVALID_PARENT
    && Fits(round.affected, round.closest, |round.points|, |nodes0|)
    && Distinct(alive) && AllBelow(alive, |nodes0|)
    && (forall x :: x in alive ==> IsTarget(round.affected, round.closest, x))
  }

  /**
    The spawn loop after it decided the first `i` entries of `kept`: those
    grew in order, the rest of the alive list are undecided or were dropped,
    and the banned entry records what was dropped.
   */
  ghost predicate SpawnInv(nodes0: seq<GrowerNode>, cache0: seq<seq<nat>>, round: SpawnRound, alive: seq<nat>,
                           kept: seq<nat>, i: nat, grown: seq<Vec3>, dropped: seq<nat>, newNodes: seq<nat>,
                           nodes: seq<GrowerNode>, cache: seq<seq<nat>>)
  {
    && SpawnPre(nodes0, round, alive)
    && i <= |kept| && |kept| + |dropped| == |alive|
    && Distinct(kept) && (forall x :: x in kept ==> x in alive) && AllBelow(kept, |nodes0|)
    && |grown| == i && nodes == Sprouted(nodes0, kept[..i], grown)
    && (forall k :: 0 <= k < i ==> grown[k] == NewPos(nodes0, round, kept[k]) && !Dropped(nodes0, round, kept[k]))
    && |newNodes| == i && (forall k :: 0 <= k < i ==> newNodes[k] == |nodes0| + k)
    && Distinct(dropped) && (forall x :: x in dropped <==> x in alive && x !in kept)
    && (forall x :: x in dropped ==> Dropped(nodes0, round, x))
    && (round.generating ==> |cache0| > 0 && cache == AppendToLast(cache0, dropped))
    && (!round.generating ==> cache == cache0)
  }

  /** Before the first entry is decided. */
  lemma SpawnStart(nodes0: seq<GrowerNode>, cache0: seq<seq<nat>>, round: SpawnRound, alive: seq<nat>)
    requires SpawnPre(nodes0, round, alive) && (round.generating ==> |cache0| > 0)
    ensures SpawnInv(nodes0, cache0, round, alive, alive, 0, [], [], [], nodes0, cache0)
  {
    if round.generating {
      assert cache0[|cache0| - 1] + [] == cache0[|cache0| - 1];
      assert AppendToLast(cache0, []) == cache0;
    }
  }

  /** What the loop body sees of the next entry `kept[i]`: it is an alive, claiming node whose test reads as on the initial skeleton. */
  lemma SpawnNext(nodes0: seq<GrowerNode>, cache0: seq<seq<nat>>, round: SpawnRound, alive: seq<nat>,
                  kept: seq<nat>, i: nat, grown: seq<Vec3>, dropped: seq<nat>, newNodes: seq<nat>,
                  nodes: seq<GrowerNode>, cache: seq<seq<nat>>)
    requires SpawnInv(nodes0, cache0, round, alive, kept, i, grown, dropped, newNodes, nodes, cache) && i < |kept|
    ensures WellFormed(nodes) && kept[i] < |nodes| == |nodes0| + i < INVALID_PARENT
    ensures IsTarget(round.affected, round.closest, kept[i])
    ensures Fits(round.affected, round.closest, |round.points|, |nodes|)
    ensures NewPos(nodes, round, kept[i]) == NewPos(nodes0, round, kept[i])
    ensures Dropped(nodes, round, kept[i]) == Dropped(nodes0, round, kept[i])
    ensures nodes[kept[i]] == nodes0[kept[i]]
  {
    assert kept[i] in kept;
    Pigeonhole(kept, |nodes0|);
    assert Distinct(kept[..i]) && kept[i] !in kept[..i];
    SproutedKeepsDropTest(nodes0, round, kept[..i], grown, kept[i]);
  }

  /** The next entry is dropped: swap-removed, and recorded when generating. */
  lemma SpawnDrop(nodes0: seq<GrowerNode>, cache0: seq<seq<nat>>, round: SpawnRound, alive: seq<nat>,
                  kept: seq<nat>, i: nat, grown: seq<Vec3>, dropped: seq<nat>, newNodes: seq<nat>,
                  nodes: seq<GrowerNode>, cache: seq<seq<nat>>)
    requires SpawnInv(nodes0, cache0, round, alive, kept, i, grown, dropped, newNodes, nodes, cache) && i < |kept|
    requires Dropped(nodes0, round, kept[i])
    ensures round.generating ==> |cache| > 0
    ensures SpawnInv(nodes0, cache0, round, alive, SwapRemove(kept, i), i, grown, dropped + [kept[i]], newNodes, nodes,
                     if round.generating then cache[|cache| - 1 := cache[|cache| - 1] + [kept[i]]] else cache)
  {
    var x := kept[i];
    var kept' := SwapRemove(kept, i);
    assert x in kept;
    assert x !in dropped;
    SwapRemoveFacts(kept, i);
    assert kept'[..i] == kept[..i];
    forall k | 0 <= k < i
      ensures kept'[k] == kept[k]
    {
      assert kept'[..i][k] == kept[..i][k];
    }
    if round.generating {
      AppendToLastSnoc(cache0, dropped, x);
    }
  }

  /** The next entry grows its child and becomes decided. */
  lemma SpawnKeep(nodes0: seq<GrowerNode>, cache0: seq<seq<nat>>, round: SpawnRound, alive: seq<nat>,
                  kept: seq<nat>, i: nat, grown: seq<Vec3>, dropped: seq<nat>, newNodes: seq<nat>,
                  nodes: seq<GrowerNode>, cache: seq<seq<nat>>, pos: Vec3)
    requires SpawnInv(nodes0, cache0, round, alive, kept, i, grown, dropped, newNodes, nodes, cache) && i < |kept|
    requires !Dropped(nodes0, round, kept[i]) && pos == NewPos(nodes0, round, kept[i])
    ensures kept[i] < |nodes|
    ensures SpawnInv(nodes0, cache0, round, alive, kept, i + 1, grown + [pos], dropped, newNodes + [|nodes|],
                     WithChild(nodes, kept[i], pos), cache)
  {
    assert kept[i] in kept;
    assert kept[..i + 1][..i] == kept[..i] && kept[..i + 1][i] == kept[i];
    assert (grown + [pos])[..i] == grown;
  }

  /** The loop is over: every alive node is decided. */
  lemma SpawnEnd(nodes0: seq<GrowerNode>, cache0: seq<seq<nat>>, round: SpawnRound, alive: seq<nat>,
                 kept: seq<nat>, grown: seq<Vec3>, dropped: seq<nat>, newNodes: seq<nat>,
                 nodes: seq<GrowerNode>, cache: seq<seq<nat>>)
    requires SpawnInv(nodes0, cache0, round, alive, kept, |kept|, grown, dropped, newNodes, nodes, cache)
    ensures nodes == Sprouted(nodes0, kept, grown) && WellFormed(nodes)
    ensures forall x :: x in alive ==> (x in kept <==> !Dropped(nodes0, round, x))
  {
    assert kept[..|kept|] == kept;
    Pigeonhole(kept, |nodes0|);
    SproutedWellFormed(nodes0, kept, grown);
    forall x | x in kept
      ensures !Dropped(nodes0, round, x)
    {
      var k :| 0 <= k < |kept| && kept[k] == x;
    }
  }

  /**
    What the round leaves behind, in the terms the growth loop uses: each kept
    node is alive and grew at its growth position, the next alive list (the
    kept nodes followed by the new ones) names distinct nodes, and only the
    last banned entry can have changed.
   */
  lemma SpawnResult(nodes0: seq<GrowerNode>, cache0: seq<seq<nat>>, round: SpawnRound, alive: seq<nat>,
                    kept: seq<nat>, grown: seq<Vec3>, dropped: seq<nat>, newNodes: seq<nat>,
                    nodes: seq<GrowerNode>, cache: seq<seq<nat>>)
    requires SpawnInv(nodes0, cache0, round, alive, kept, |kept|, grown, dropped, newNodes, nodes, cache)
    ensures AllBelow(kept, |nodes0|) && |grown| == |kept| == |newNodes|
    ensures forall k :: 0 <= k < |kept| ==> kept[k] in alive && grown[k] == NewPos(nodes0, round, kept[k])
    ensures nodes == Sprouted(nodes0, kept, grown)
    ensures Distinct(kept + newNodes) && AllBelow(kept + newNodes, |nodes0| + |kept|)
    ensures AllBelow(newNodes, |nodes0| + |kept|)
    ensures |cache| == |cache0| && (!round.generating ==> cache == cache0)
  {
    assert kept[..|kept|] == kept;
    forall k | 0 <= k < |kept|
      ensures kept[k] in alive
    {
      assert kept[k] in kept;
    }
    NextAliveDistinct(kept, newNodes, |nodes0|);
  }

  /** Distinct old nodes followed by the consecutive new indices from `base` on are distinct. */
  lemma NextAliveDistinct(kept: seq<nat>, newNodes: seq<nat>, base: nat)
    requires Distinct(kept) && AllBelow(kept, base) && |newNodes| == |kept|
    requires forall k :: 0 <= k < |newNodes| ==> newNodes[k] == base + k
    ensures Distinct(kept + newNodes) && AllBelow(kept + newNodes, base + |kept|) && AllBelow(newNodes, base + |kept|)
  {
    var s := kept + newNodes;
    forall a, b | 0 <= a < b < |s|
      ensures s[a] != s[b]
    {
      if b < |kept| {
      } else if a < |kept| {
        assert s[a] < base <= s[b];
      } else {
        assert s[a] == base + (a - |kept|) && s[b] == base + (b - |kept|);
      }
    }
  }

  /**
    One pass of the loop body of lines 474-535: the next undecided alive node
    either grows its child (and is decided) or is swap-removed, recorded in
    the banned entry when generating.
   */
  method SpawnStep(data: GrowerData, round: SpawnRound, ghost nodes0: seq<GrowerNode>, ghost cache0: seq<seq<nat>>,
                   ghost alive: seq<nat>, kept: seq<nat>, i: nat, ghost grown: seq<Vec3>, ghost dropped: seq<nat>,
                   newNodes: seq<nat>)
    returns (kept': seq<nat>, i': nat, ghost grown': seq<Vec3>, ghost dropped': seq<nat>, newNodes': seq<nat>)
    modifies data`nodes, data`cachedBannedAliveNodes
    requires i < |kept|
    requires SpawnInv(nodes0, cache0, round, alive, kept, i, grown, dropped, newNodes, data.nodes, data.cachedBannedAliveNodes)
    ensures SpawnInv(nodes0, cache0, round, alive, kept', i', grown', dropped', newNodes', data.nodes, data.cachedBannedAliveNodes)
    ensures |kept'| - i' < |kept| - i
  {
    var nodeIdx := kept[i];
    SpawnNext(nodes0, cache0, round, alive, kept, i, grown, dropped, newNodes, data.nodes, data.cachedBannedAliveNodes);
    var pos := GrowthPos(data.nodes, round, nodeIdx);
    var duplicated: bool;
    if round.generating {
      duplicated := DuplicatesChild(data.nodes, data.nodes[nodeIdx].children, pos, round.geo.dist);
    } else {
      duplicated := IsBanned(round.banned, nodeIdx);
    }
    if duplicated {
      SpawnDrop(nodes0, cache0, round, alive, kept, i, grown, dropped, newNodes, data.nodes, data.cachedBannedAliveNodes);
      if round.generating {
        var last := |data.cachedBannedAliveNodes| - 1;
        data.cachedBannedAliveNodes := data.cachedBannedAliveNodes[last := data.cachedBannedAliveNodes[last] + [nodeIdx]];
      }
      kept', i', grown', dropped', newNodes' := SwapRemove(kept, i), i, grown, dropped + [nodeIdx], newNodes;
    } else {
      SpawnKeep(nodes0, cache0, round, alive, kept, i, grown, dropped, newNodes, data.nodes, data.cachedBannedAliveNodes, pos);
      var newNodeIdx := AddChild(data, nodeIdx, pos);
      kept', i', grown', dropped', newNodes' := kept, i + 1, grown + [pos], dropped, newNodes + [newNodeIdx];
    }
  }

  /**
    Lines 474-535: each alive node in turn either grows one child, which gets
    the next index, or is swap-removed from the alive list without growing.
    It is removed exactly when it is `Dropped`; nodes removed while generating
    are appended to the round's banned entry of the cache. `kept` is what is
    left of the alive list, and `kept[k]` grew node `newNodes[k]` at
    `grown[k]`.
   */
  method Spawn(data: GrowerData, round: SpawnRound, alive: seq<nat>)
    returns (kept: seq<nat>, newNodes: seq<nat>, ghost grown: seq<Vec3>, ghost dropped: seq<nat>)
    modifies data`nodes, data`cachedBannedAliveNodes
    requires SpawnPre(data.nodes, round, alive)
    requires round.generating ==> |data.cachedBannedAliveNodes| > 0
    ensures SpawnInv(old(data.nodes), old(data.cachedBannedAliveNodes), round, alive, kept, |kept|, grown, dropped, newNodes,
                     data.nodes, data.cachedBannedAliveNodes)
    ensures forall x :: x in alive ==> (x in kept <==> !Dropped(old(data.nodes), round, x))
    ensures data.nodes == Sprouted(old(data.nodes), kept, grown) && WellFormed(data.nodes)
  {
    ghost var nodes0 := data.nodes;
    ghost var cache0 := data.cachedBannedAliveNodes;
    kept, newNodes, grown, dropped := alive, [], [], [];
    SpawnStart(nodes0, cache0, round, alive);
    var i: nat := 0;
    while i < |kept|
      invariant SpawnInv(nodes0, cache0, round, alive, kept, i, grown, dropped, newNodes, data.nodes, data.cachedBannedAliveNodes)
      decreases |kept| - i
    {
      kept, i, grown, dropped, newNodes := SpawnStep(data, round, nodes0, cache0, alive, kept, i, grown, dropped, newNodes);
    }
    SpawnEnd(nodes0, cache0, round, alive, kept, grown, dropped, newNodes, data.nodes, data.cachedBannedAliveNodes);
  }

  /* ---------- the kill step, lines 542-551 ---------- */

  /** Is point `n` within the kill radius of one of the new nodes (as the search reports it)? */
  ghost predicate Reached(nodes: seq<GrowerNode>, query: Knn, killRadius: real, k: nat, newNodes: seq<nat>, n: nat)
    requires AllBelow(newNodes, |nodes|)
  {
    exists i :: 0 <= i < |newNodes| && n in query(nodes[newNodes[i]].pos, killRadius, k)
  }

  /** The inner loop of the kill step: every listed point is deactivated. */
  method Deactivate(active: seq<bool>, found: seq<nat>) returns (r: seq<bool>)
    requires AllBelow(found, |active|)
    ensures |r| == |active| && forall n :: 0 <= n < |active| ==> (r[n] <==> active[n] && n !in found)
  {
    r := active;
    var j := 0;
    while j < |found|
      invariant 0 <= j <= |found| && |r| == |active|
      invariant forall n :: 0 <= n < |active| ==> (r[n] <==> active[n] && n !in found[..j])
    {
      assert found[..j + 1] == found[..j] + [found[j]];
      r := r[found[j] := false];
      j := j + 1;
    }
    assert found[..j] == found;
  }

  /**
    Lines 542-551: each new node deactivates the points the search finds
    within the kill radius. A point stays active exactly when it was active and
    no new node reached it.
   */
  method Kill(active: seq<bool>, nodes: seq<GrowerNode>, points: seq<Vec3>, dist: (Vec3, Vec3) -> real, query: Knn,
              killRadius: real, maxNeighbors: nat, newNodes: seq<nat>) returns (r: seq<bool>)
    requires |active| == |points| && AllBelow(newNodes, |nodes|) && KnnContract(query, points, dist)
    ensures |r| == |active|
    ensures forall n :: 0 <= n < |active| ==> (r[n] <==> active[n] && !Reached(nodes, query, killRadius, maxNeighbors, newNodes, n))
  {
    r := active;
    var i := 0;
    while i < |newNodes|
      invariant 0 <= i <= |newNodes| && |r| == |active|
      invariant forall n :: 0 <= n < |active| ==>
        (r[n] <==> active[n] && !Reached(nodes, query, killRadius, maxNeighbors, newNodes[..i], n))
    {
      var pos := nodes[newNodes[i]].pos;
      var found := query(pos, killRadius, maxNeighbors);
      KnnBelow(query, points, dist, pos, killRadius, maxNeighbors);
      ghost var before := r;
      r := Deactivate(r, found);
      forall n | 0 <= n < |active|
        ensures Reached(nodes, query, killRadius, maxNeighbors, newNodes[..i + 1], n) <==>
          Reached(nodes, query, killRadius, maxNeighbors, newNodes[..i], n) || n in found
      {
        var next := newNodes[..i + 1];
        if Reached(nodes, query, killRadius, maxNeighbors, next, n) {
          var m :| 0 <= m < |next| && n in query(nodes[next[m]].pos, killRadius, maxNeighbors);
          if m < i {
            assert newNodes[..i][m] == next[m];
          }
        }
        if Reached(nodes, query, killRadius, maxNeighbors, newNodes[..i], n) {
          var m :| 0 <= m < i && n in query(nodes[newNodes[..i][m]].pos, killRadius, maxNeighbors);
          assert next[m] == newNodes[..i][m];
        }
        if n in found {
          assert next[i] == newNodes[i];
        }
      }
      i := i + 1;
    }
    assert newNodes[..i] == newNodes;
  }
}
