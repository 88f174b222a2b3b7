/**
  The growth loop of GrowerNode.cpp (Grow, lines 329-609): from a seed, rounds
  of attraction, spawning and killing run until no node is alive; the first
  run records each round in the cache of the output data, and a later run
  with the same settings replays the recorded rounds instead of searching.
  The skeleton is then given normals and its sharp bends are straightened.
 */
module Growth {

  import opened Seqs
  import opened Skeleton
  import opened GrowthAttract
  import opened GrowthSpawn
  import opened GrowthFinish

  /** How a run of the growth loop ends. */
  datatype Outcome =
    | Done           // no node is alive any more (for a round: the round ran to its end)
    | OutOfFuel      // the model's bound on the number of rounds was reached
    | TooManyNodes   // the next round could create a node index the 31-bit parent field cannot hold
    | CacheMismatch  // the replayed cache does not fit this input: the source reads out of range

  /** The arguments of Grow; the distances are already scaled to the scene. */
  datatype GrowInput = GrowInput(
    points: seq<Vec3>,
    normals: seq<Vec3>,
    seed: Vec3,
    geo: Geometry,
    query: Knn,
    searchRadius: real,
    killRadius: real,
    maxNeighbors: nat,
    growDist: real,
    useCached: bool)

  /** One normal per point, and a search that obeys its bounds. */
  ghost predicate InputOk(inp: GrowInput)
  {
    |inp.normals| == |inp.points| && KnnContract(inp.query, inp.points, inp.geo.dist)
  }

  /** What the normal and bend pass reads of the input. */
  function FinishInputOf(inp: GrowInput): FinishInput
  {
    FinishInput(inp.points, inp.normals, inp.geo, inp.query, inp.killRadius)
  }

  /* ---------- what growth produces ---------- */

  /** `to` lies one growth step from `from` towards some non-empty list of attraction points. */
  ghost predicate StepFrom(inp: GrowInput, from: Vec3, to: Vec3)
  {
    exists a: seq<Vec3> :: |a| > 0 && (forall q :: q in a ==> q in inp.points) && to == inp.geo.step(from, a, inp.growDist)
  }

  /** Node `i` (other than the root) lies one growth step from its parent. */
  ghost predicate GrownAt(inp: GrowInput, nodes: seq<GrowerNode>, i: nat)
  {
    0 < i < |nodes| && nodes[i].parent < |nodes| ==> StepFrom(inp, nodes[nodes[i].parent].pos, nodes[i].pos)
  }

  /** A grown skeleton: the root at the seed, nothing trimmed, every other node one step from its parent. */
  ghost predicate Grown(inp: GrowInput, nodes: seq<GrowerNode>)
  {
    && |nodes| > 0 && nodes[0].pos == inp.seed
    && (forall i :: 0 <= i < |nodes| ==> !nodes[i].trimmed)
    && (forall i {:trigger GrownAt(inp, nodes, i)} :: GrownAt(inp, nodes, i))
  }

  /** The seed alone is grown. */
  lemma SeedGrown(inp: GrowInput)
    ensures Grown(inp, [NewNode().(pos := inp.seed)])
  {
  }

  /** A node that existed before the round keeps its parent, its step and its flag. */
  lemma OldNodeGrown(inp: GrowInput, nodes0: seq<GrowerNode>, parents: seq<nat>, poss: seq<Vec3>, y: nat)
    requires WellFormed(nodes0) && Grown(inp, nodes0) && AllBelow(parents, |nodes0|) && |poss| == |parents|
    requires y < |nodes0|
    ensures GrownAt(inp, Sprouted(nodes0, parents, poss), y)
    ensures !Sprouted(nodes0, parents, poss)[y].trimmed && Sprouted(nodes0, parents, poss)[y].pos == nodes0[y].pos
  {
    var r := Sprouted(nodes0, parents, poss);
    SproutedFacts(nodes0, parents, poss);
    assert GrownAt(inp, nodes0, y);
    if 0 < y {
      var p := nodes0[y].parent;
      assert p < y;
      assert r[y].parent == p && r[y].pos == nodes0[y].pos && r[p].pos == nodes0[p].pos;
    }
  }

  /** A node grown from `x` this round lies one step from `x` towards the points `x` claims. */
  lemma NewPosIsStep(inp: GrowInput, nodes0: seq<GrowerNode>, round: SpawnRound, alive: seq<nat>, x: nat)
    requires SpawnPre(nodes0, round, alive) && x in alive
    requires round.points == inp.points && round.geo == inp.geo && round.growDist == inp.growDist
    ensures x < |nodes0| && StepFrom(inp, nodes0[x].pos, NewPos(nodes0, round, x))
  {
    var a := AttractorPositions(round.points, round.affected, round.closest, x);
    TargetHasAttractors(round.points, round.affected, round.closest, x);
    AttractorsClaimed(round.points, round.affected, round.closest, x);
    forall q | q in a
      ensures q in inp.points
    {
      var j :| 0 <= j < |round.affected| && round.closest[round.affected[j]] == x && q == round.points[round.affected[j]];
    }
    assert NewPos(nodes0, round, x) == inp.geo.step(nodes0[x].pos, a, inp.growDist);
  }

  /** Every position grown this round lies one step from the node that grew it. */
  lemma KeptStepsFrom(inp: GrowInput, nodes0: seq<GrowerNode>, round: SpawnRound, alive: seq<nat>,
                      kept: seq<nat>, grown: seq<Vec3>)
    requires SpawnPre(nodes0, round, alive)
    requires round.points == inp.points && round.geo == inp.geo && round.growDist == inp.growDist
    requires AllBelow(kept, |nodes0|) && |grown| == |kept|
    requires forall k :: 0 <= k < |kept| ==> kept[k] in alive && grown[k] == NewPos(nodes0, round, kept[k])
    ensures forall k :: 0 <= k < |kept| ==> StepFrom(inp, nodes0[kept[k]].pos, grown[k])
  {
    forall k | 0 <= k < |kept|
      ensures StepFrom(inp, nodes0[kept[k]].pos, grown[k])
    {
      NewPosIsStep(inp, nodes0, round, alive, kept[k]);
    }
  }

  /** A spawn round keeps the skeleton grown. */
  lemma SpawnGrown(inp: GrowInput, nodes0: seq<GrowerNode>, round: SpawnRound, alive: seq<nat>,
                   kept: seq<nat>, grown: seq<Vec3>)
    requires WellFormed(nodes0) && SpawnPre(nodes0, round, alive) && Grown(inp, nodes0)
    requires round.points == inp.points && round.geo == inp.geo && round.growDist == inp.growDist
    requires AllBelow(kept, |nodes0|) && |grown| == |kept|
    requires forall k :: 0 <= k < |kept| ==> kept[k] in alive && grown[k] == NewPos(nodes0, round, kept[k])
    ensures Grown(inp, Sprouted(nodes0, kept, grown))
  {
    var r := Sprouted(nodes0, kept, grown);
    OldNodesGrown(inp, nodes0, kept, grown);
    KeptStepsFrom(inp, nodes0, round, alive, kept, grown);
    NewNodesGrown(inp, nodes0, kept, grown);
    forall y: nat
      ensures GrownAt(inp, r, y) && (y < |r| ==> !r[y].trimmed)
    {
      if y < |nodes0| {
      } else if y < |r| {
      }
    }
  }

  /** Every node kept from before a spawn round is still grown, untrimmed and in place. */
  lemma OldNodesGrown(inp: GrowInput, nodes0: seq<GrowerNode>, parents: seq<nat>, poss: seq<Vec3>)
    requires WellFormed(nodes0) && Grown(inp, nodes0) && AllBelow(parents, |nodes0|) && |poss| == |parents|
    ensures forall y :: 0 <= y < |nodes0| ==>
      GrownAt(inp, Sprouted(nodes0, parents, poss), y) && !Sprouted(nodes0, parents, poss)[y].trimmed &&
      Sprouted(nodes0, parents, poss)[y].pos == nodes0[y].pos
  {
    forall y | 0 <= y < |nodes0|
      ensures GrownAt(inp, Sprouted(nodes0, parents, poss), y) && !Sprouted(nodes0, parents, poss)[y].trimmed
      ensures Sprouted(nodes0, parents, poss)[y].pos == nodes0[y].pos
    {
      OldNodeGrown(inp, nodes0, parents, poss, y);
    }
  }

  /** Every node a spawn round adds is untrimmed and one step from its parent. */
  lemma NewNodesGrown(inp: GrowInput, nodes0: seq<GrowerNode>, kept: seq<nat>, grown: seq<Vec3>)
    requires |nodes0| <= INVALID_PARENT && AllBelow(kept, |nodes0|) && |grown| == |kept|
    requires forall k :: 0 <= k < |kept| ==> StepFrom(inp, nodes0[kept[k]].pos, grown[k])
    ensures forall y :: |nodes0| <= y < |nodes0| + |kept| ==>
      GrownAt(inp, Sprouted(nodes0, kept, grown), y) && !Sprouted(nodes0, kept, grown)[y].trimmed
  {
    var r := Sprouted(nodes0, kept, grown);
    SproutedFacts(nodes0, kept, grown);
    forall y | |nodes0| <= y < |nodes0| + |kept|
      ensures GrownAt(inp, r, y) && !r[y].trimmed
    {
      var k := y - |nodes0|;
      var x := kept[k];
      ParentIndexDistinguishable(x);
      assert r[y] == NewNode().(pos := grown[k], parent := x);
      assert r[x].pos == nodes0[x].pos;
      assert StepFrom(inp, nodes0[x].pos, grown[k]);
    }
  }

  /* ---------- the state of the loop ---------- */

  /**
    What travels from one round to the next: the alive list, the active
    flags, the claims and their distances, the banned list of the last
    replayed round, and how many rounds were replayed (`iterationCount`).
   */
  datatype GrowState = GrowState(
    alive: seq<nat>,
    active: seq<bool>,
    closest: seq<nat>,
    distance: seq<real>,
    banned: seq<nat>,
    replayed: nat)

  /** Every recorded round fits a skeleton of `numNodes` nodes. */
  ghost predicate RecordFits(inp: GrowInput, cAff: seq<seq<nat>>, cClo: seq<seq<nat>>, numNodes: nat)
  {
    |cAff| == |cClo| && forall t :: 0 <= t < |cAff| ==> Fits(cAff[t], cClo[t], |inp.points|, numNodes)
  }

  /**
    The loop invariant: the skeleton is well formed and grown, the alive
    list names distinct nodes, and while recording the claim table covers
    every point and the cache holds one fitting entry per round.
   */
  ghost predicate GrowInv(inp: GrowInput, nodes: seq<GrowerNode>, cAff: seq<seq<nat>>, cClo: seq<seq<nat>>,
                          cBan: seq<seq<nat>>, st: GrowState)
  {
    && InputOk(inp) && WellFormed(nodes) && Grown(inp, nodes)
    && Distinct(st.alive) && AllBelow(st.alive, |nodes|)
    && |st.active| == |inp.points| && |st.distance| == |inp.points|
    && (!inp.useCached ==>
          && |st.closest| == |inp.points| && ClosestValid(st.closest, |nodes|)
          && RecordFits(inp, cAff, cClo, |nodes|) && |cBan| == |cAff|)
  }

  /** Does this round replay a recorded one (line 390)? */
  predicate Replays(inp: GrowInput, st: GrowState, cAff: seq<seq<nat>>)
  {
    inp.useCached && st.replayed < |cAff|
  }

  /* ---------- one round ---------- */

  /**
    Lines 388-456: the claims a round works with. A replayed round takes entry
    `st.replayed` of each record and leaves the records alone. A fresh round
    runs the search from every alive node over the part of the claim table
    that covers the points (a table left by a replayed round can be longer;
    the rest of it is kept), and appends its affected list and its whole claim
    table to the records.
   */
  ghost predicate RoundClaims(inp: GrowInput, nodes: seq<GrowerNode>, cAff0: seq<seq<nat>>, cClo0: seq<seq<nat>>,
                              cBan0: seq<seq<nat>>, cAff: seq<seq<nat>>, cClo: seq<seq<nat>>,
                              st: GrowState, affected: seq<nat>, st': GrowState)
  {
    if Replays(inp, st, cAff0) then
      && st.replayed < |cClo0| && st.replayed < |cBan0|
      && affected == cAff0[st.replayed] && st'.closest == cClo0[st.replayed] && st'.banned == cBan0[st.replayed]
      && st'.distance == st.distance && st'.replayed == st.replayed + 1
      && cAff == cAff0 && cClo == cClo0
    else
      && InputOk(inp) && AllBelow(st.alive, |nodes|)
      && |st.active| == |inp.points| && |st.distance| == |inp.points|
      && |inp.points| <= |st.closest| == |st'.closest|
      && Claims(affected, st'.closest[..|inp.points|], st'.distance) ==
         ClaimRound(Claims([], st.closest[..|inp.points|], st.distance), st.active, nodes, inp.points, inp.geo.dist,
                    inp.query, inp.searchRadius, inp.maxNeighbors, st.alive)
      && st'.closest[|inp.points|..] == st.closest[|inp.points|..]
      && st'.banned == st.banned && st'.replayed == st.replayed
      && cAff == cAff0 + [affected] && cClo == cClo0 + [st'.closest]
  }

  /**
    Lines 388-456: this round's affected points and claims, as `RoundClaims`
    says. A replayed round fails when the closest-node or banned record has no
    such entry or the entry does not fit; a fresh round fails when the claim
    table is shorter than the points or its claims do not fit (the source
    reads out of range there). While recording, the round never fails.
   */
  method ClaimStep(data: GrowerData, inp: GrowInput, st: GrowState) returns (ok: bool, affected: seq<nat>, st': GrowState)
    modifies data`cachedAffectedPoints, data`cachedClosestNode
    requires GrowInv(inp, data.nodes, data.cachedAffectedPoints, data.cachedClosestNode, data.cachedBannedAliveNodes, st)
    ensures st'.alive == st.alive && st'.active == st.active && |st'.distance| == |st.distance|
    ensures old(data.cachedAffectedPoints) <= data.cachedAffectedPoints && old(data.cachedClosestNode) <= data.cachedClosestNode
    ensures ok ==>
      && RoundClaims(inp, data.nodes, old(data.cachedAffectedPoints), old(data.cachedClosestNode), data.cachedBannedAliveNodes,
                     data.cachedAffectedPoints, data.cachedClosestNode, st, affected, st')
      && Fits(affected, st'.closest, |inp.points|, |data.nodes|)
    ensures Replays(inp, st, old(data.cachedAffectedPoints)) ==>
      (ok <==> (st.replayed < |data.cachedClosestNode| && st.replayed < |data.cachedBannedAliveNodes| &&
                Fits(data.cachedAffectedPoints[st.replayed], data.cachedClosestNode[st.replayed], |inp.points|, |data.nodes|)))
    ensures !Replays(inp, st, old(data.cachedAffectedPoints)) ==>
      && (|inp.points| <= |st.closest| ==>
            RoundClaims(inp, data.nodes, old(data.cachedAffectedPoints), old(data.cachedClosestNode), data.cachedBannedAliveNodes,
                        data.cachedAffectedPoints, data.cachedClosestNode, st, affected, st'))
      && (ok <==> |inp.points| <= |st.closest| && Fits(affected, st'.closest, |inp.points|, |data.nodes|))
    ensures !inp.useCached ==> ok && |st'.closest| == |inp.points| && ClosestValid(st'.closest, |data.nodes|)
  {
    var r := st.replayed;
    if inp.useCached && r < |data.cachedAffectedPoints| {
      if r >= |data.cachedClosestNode| || r >= |data.cachedBannedAliveNodes| {
        return false, [], st.(replayed := r + 1);
      }
      affected := data.cachedAffectedPoints[r];
      var closest := data.cachedClosestNode[r];
      st' := st.(closest := closest, banned := data.cachedBannedAliveNodes[r], replayed := r + 1);
      ok := Fits(affected, closest, |inp.points|, |data.nodes|);
    } else {
      var n := |inp.points|;
      if |st.closest| < n {
        return false, [], st;
      }
      var head, tail := st.closest[..n], st.closest[n..];
      var closest, distance;
      affected, closest, distance := Attract(data.nodes, inp.points, st.active, head, st.distance, inp.geo, inp.query,
                                             inp.searchRadius, inp.maxNeighbors, st.alive);
      closest := closest + tail;
      data.cachedAffectedPoints := data.cachedAffectedPoints + [affected];
      data.cachedClosestNode := data.cachedClosestNode + [closest];
      st' := st.(closest := closest, distance := distance);
      if !inp.useCached {
        assert head == st.closest && tail == [];
        assert closest == closest[..n];
        ClaimRoundFacts(st.closest, st.distance, st.active, data.nodes, inp.points, inp.geo.dist, inp.query,
                        inp.searchRadius, inp.maxNeighbors, st.alive);
        FreshRoundFits(Claims(affected, closest, distance), st.active, |data.nodes|);
      }
      ok := Fits(affected, closest, |inp.points|, |data.nodes|);
    }
  }

  /* ---------- bookkeeping between rounds ---------- */

  /** A record that fits a skeleton fits any larger one. */
  lemma RecordGrows(inp: GrowInput, cAff: seq<seq<nat>>, cClo: seq<seq<nat>>, n: nat, m: nat)
    requires RecordFits(inp, cAff, cClo, n) && n <= m
    ensures RecordFits(inp, cAff, cClo, m)
  {
    forall t | 0 <= t < |cAff|
      ensures Fits(cAff[t], cClo[t], |inp.points|, m)
    {
      assert Fits(cAff[t], cClo[t], |inp.points|, n);
    }
  }

  /** Recording a fitting round keeps the record fitting. */
  lemma RecordPush(inp: GrowInput, cAff: seq<seq<nat>>, cClo: seq<seq<nat>>, affected: seq<nat>, closest: seq<nat>, n: nat)
    requires RecordFits(inp, cAff, cClo, n) && Fits(affected, closest, |inp.points|, n)
    ensures RecordFits(inp, cAff + [affected], cClo + [closest], n)
  {
    var a, c := cAff + [affected], cClo + [closest];
    forall t | 0 <= t < |a|
      ensures Fits(a[t], c[t], |inp.points|, n)
    {
      if t < |cAff| {
        assert a[t] == cAff[t] && c[t] == cClo[t];
      }
    }
  }

  /** Claims into a skeleton stay valid when it grows. */
  lemma ClosestGrows(closest: seq<nat>, n: nat, m: nat)
    requires ClosestValid(closest, n) && n <= m
    ensures ClosestValid(closest, m)
  {
  }

  /* ---------- the loop ---------- */

  /** The indices the `count` children grown in a round receive: `base`, `base + 1`, and so on. */
  function NewIndices(base: nat, count: nat): (r: seq<nat>)
    ensures |r| == count && AllBelow(r, base + count)
    ensures forall k :: 0 <= k < count ==> r[k] == base + k
  {
    seq(count, k => base + k)
  }

  /**
    What the spawn and kill steps of a round leave (lines 474-551), from the
    alive list `alive` on the skeleton `nodes0`: an alive node is kept exactly
    when it is not dropped, and the dropped nodes are the others; each kept
    node grew one child at its growth position, the children taking the next
    indices in order; the next alive list is the kept nodes followed by their
    children. While recording, a point stays active exactly when it was active
    and no new node's kill search reached it; while replaying, the active
    flags do not change.
   */
  ghost predicate Spawned(inp: GrowInput, round: SpawnRound, alive: seq<nat>, nodes0: seq<GrowerNode>, nodes: seq<GrowerNode>,
                          active0: seq<bool>, active: seq<bool>, kept: seq<nat>, grown: seq<Vec3>, dropped: seq<nat>,
                          alive': seq<nat>)
  {
    && SpawnPre(nodes0, round, alive)
    && (forall x :: x in alive ==> (x in kept <==> !Dropped(nodes0, round, x)))
    && (forall x :: x in kept ==> x in alive)
    && (forall x :: x in dropped <==> x in alive && x !in kept)
    && AllBelow(kept, |nodes0|) && |grown| == |kept|
    && (forall k :: 0 <= k < |kept| ==> grown[k] == NewPos(nodes0, round, kept[k]))
    && nodes == Sprouted(nodes0, kept, grown)
    && alive' == kept + NewIndices(|nodes0|, |kept|)
    && |active| == |active0|
    && (round.generating ==>
          forall n :: 0 <= n < |active0| ==>
            (active[n] <==> active0[n] && !Reached(nodes, inp.query, inp.killRadius, inp.maxNeighbors, NewIndices(|nodes0|, |kept|), n)))
    && (!round.generating ==> active == active0)
  }

  /**
    Lines 474-551: the spawn loop and, while recording, the kill step, which
    runs only over the nodes grown this round, as `Spawned` says. The dropped
    nodes are appended to the round's banned entry while recording; a
    replayed round changes neither the banned record nor the active flags.
   */
  method SpawnAndKill(data: GrowerData, inp: GrowInput, round: SpawnRound, alive: seq<nat>, active0: seq<bool>)
    returns (kept: seq<nat>, ghost grown: seq<Vec3>, ghost dropped: seq<nat>, alive': seq<nat>, active': seq<bool>)
    modifies data`nodes, data`cachedBannedAliveNodes
    requires InputOk(inp) && Grown(inp, data.nodes) && SpawnPre(data.nodes, round, alive)
    requires round.points == inp.points && round.geo == inp.geo && round.growDist == inp.growDist
    requires round.generating == !inp.useCached && (round.generating ==> |data.cachedBannedAliveNodes| > 0)
    requires |active0| == |inp.points|
    ensures WellFormed(data.nodes) && Grown(inp, data.nodes) && |old(data.nodes)| <= |data.nodes|
    ensures Distinct(alive') && AllBelow(alive', |data.nodes|)
    ensures Spawned(inp, round, alive, old(data.nodes), data.nodes, active0, active', kept, grown, dropped, alive')
    ensures round.generating ==> data.cachedBannedAliveNodes == AppendToLast(old(data.cachedBannedAliveNodes), dropped)
    ensures !round.generating ==> data.cachedBannedAliveNodes == old(data.cachedBannedAliveNodes)
  {
    ghost var nodes0 := data.nodes;
    ghost var cache0 := data.cachedBannedAliveNodes;
    var newNodes;
    kept, newNodes, grown, dropped := Spawn(data, round, alive);
    SpawnResult(nodes0, cache0, round, alive, kept, grown, dropped, newNodes, data.nodes, data.cachedBannedAliveNodes);
    SpawnGrown(inp, nodes0, round, alive, kept, grown);
    assert newNodes == NewIndices(|nodes0|, |kept|);
    active' := active0;
    if round.generating {
      active' := Kill(active0, data.nodes, inp.points, inp.geo.dist, inp.query, inp.killRadius, inp.maxNeighbors, newNodes);
    }
    alive' := kept + newNodes;
  }

  /** The spawn inputs of a round whose claims are `affected` and `st.closest`. */
  function RoundOf(inp: GrowInput, affected: seq<nat>, st: GrowState): SpawnRound
  {
    SpawnRound(inp.points, affected, st.closest, inp.geo, inp.growDist, !inp.useCached, st.banned)
  }

  /**
    Lines 386-551, one round: the claims (`RoundClaims`), the new alive list
    rebuilt from them (lines 461-466), an empty banned entry while recording
    (lines 468-471), then the spawn and kill steps (`Spawned`), after which
    the round's banned entry lists the dropped nodes. The loop invariant is
    kept. A round that stops early leaves the nodes unchanged.
   */
  method Iterate(data: GrowerData, inp: GrowInput, st: GrowState)
    returns (outcome: Outcome, st': GrowState, affected: seq<nat>, ghost kept: seq<nat>, ghost grown: seq<Vec3>,
             ghost dropped: seq<nat>)
    modifies data`nodes, data`cachedAffectedPoints, data`cachedClosestNode, data`cachedBannedAliveNodes
    requires GrowInv(inp, data.nodes, data.cachedAffectedPoints, data.cachedClosestNode, data.cachedBannedAliveNodes, st)
    ensures GrowInv(inp, data.nodes, data.cachedAffectedPoints, data.cachedClosestNode, data.cachedBannedAliveNodes, st')
    ensures outcome != OutOfFuel
    ensures !inp.useCached ==> outcome != CacheMismatch
    ensures inp.useCached ==>
      && data.cachedBannedAliveNodes == old(data.cachedBannedAliveNodes) && st'.active == st.active
      && old(data.cachedAffectedPoints) <= data.cachedAffectedPoints && old(data.cachedClosestNode) <= data.cachedClosestNode
    ensures outcome != Done ==> data.nodes == old(data.nodes)
    ensures outcome != CacheMismatch ==>
      && RoundClaims(inp, old(data.nodes), old(data.cachedAffectedPoints), old(data.cachedClosestNode),
                     old(data.cachedBannedAliveNodes), data.cachedAffectedPoints, data.cachedClosestNode, st, affected, st')
      && Fits(affected, st'.closest, |inp.points|, |old(data.nodes)|)
      && (outcome == TooManyNodes ==> st'.alive == InsertAll([], Targets(affected, st'.closest)))
      && (outcome == Done ==>
            Spawned(inp, RoundOf(inp, affected, st'), InsertAll([], Targets(affected, st'.closest)), old(data.nodes), data.nodes,
                    st.active, st'.active, kept, grown, dropped, st'.alive))
    ensures outcome == Done && !inp.useCached ==> data.cachedBannedAliveNodes == old(data.cachedBannedAliveNodes) + [dropped]
  {
    var ok, st1;
    ok, affected, st1 := ClaimStep(data, inp, st);
    if !ok {
      return CacheMismatch, st, affected, [], [], [];
    }
    var alive := RebuildAlive(affected, st1.closest);
    AliveFacts(affected, st1.closest, |inp.points|, |data.nodes|);
    var generating := !inp.useCached;
    if generating {
      data.cachedBannedAliveNodes := data.cachedBannedAliveNodes + [[]];
      RecordPush(inp, old(data.cachedAffectedPoints), old(data.cachedClosestNode), affected, st1.closest, |data.nodes|);
    }
    if |data.nodes| + |alive| > INVALID_PARENT {
      return TooManyNodes, st1.(alive := alive), affected, [], [], [];
    }
    var round := SpawnRound(inp.points, affected, st1.closest, inp.geo, inp.growDist, generating, st1.banned);
    ghost var n0 := |data.nodes|;
    ghost var ban1 := data.cachedBannedAliveNodes;
    var alive', active;
    kept, grown, dropped, alive', active := SpawnAndKill(data, inp, round, alive, st1.active);
    if generating {
      RecordGrows(inp, data.cachedAffectedPoints, data.cachedClosestNode, n0, |data.nodes|);
      ClosestGrows(st1.closest, n0, |data.nodes|);
      assert [] + dropped == dropped;
      assert data.cachedBannedAliveNodes == old(data.cachedBannedAliveNodes) + [dropped];
    }
    st' := st1.(alive := alive', active := active);
    assert round == RoundOf(inp, affected, st');
    outcome := Done;
  }

  /**
    Grow (lines 329-609): the seed is node 0 and the only alive node, every
    point starts active and unclaimed; a recording run clears the cache
    first. Rounds run while some node is alive, then every node gets its
    normal and the sharp bends are straightened. `skeleton` is the tree as
    grown, before that last pass; `fuel` bounds the number of rounds.
   */
  method Grow(data: GrowerData, inp: GrowInput, fuel: nat) returns (outcome: Outcome, ghost skeleton: seq<GrowerNode>)
    modifies data`nodes, data`cachedAffectedPoints, data`cachedClosestNode, data`cachedBannedAliveNodes,
             data`cachedActiveAttractors
    requires InputOk(inp) && data.nodes == []
    ensures WellFormed(skeleton) && Grown(inp, skeleton)
    ensures outcome == CacheMismatch ==> data.nodes == skeleton
    ensures outcome != CacheMismatch ==> data.nodes == FinishFrom(skeleton, FinishInputOf(inp), 0)
    ensures !inp.useCached ==>
      && outcome != CacheMismatch && data.cachedActiveAttractors == []
      && RecordFits(inp, data.cachedAffectedPoints, data.cachedClosestNode, |skeleton|)
      && |data.cachedBannedAliveNodes| == |data.cachedAffectedPoints|
    ensures inp.useCached ==>
      && data.cachedBannedAliveNodes == old(data.cachedBannedAliveNodes)
      && data.cachedActiveAttractors == old(data.cachedActiveAttractors)
      && old(data.cachedAffectedPoints) <= data.cachedAffectedPoints && old(data.cachedClosestNode) <= data.cachedClosestNode
  {
    var n := |inp.points|;
    data.nodes := [NewNode().(pos := inp.seed)];
    SeedWellFormed(inp.seed);
    SeedGrown(inp);
    if !inp.useCached {
      data.cachedAffectedPoints := [];
      data.cachedClosestNode := [];
      data.cachedBannedAliveNodes := [];
      data.cachedActiveAttractors := [];
    }
    var st := GrowState([0], seq(n, _ => true), seq(n, _ => UINT_MAX), seq(n, _ => FLT_MAX), [], 0);
    var fuelLeft := fuel;
    outcome := Done;
    while st.alive != []
      invariant GrowInv(inp, data.nodes, data.cachedAffectedPoints, data.cachedClosestNode, data.cachedBannedAliveNodes, st)
      invariant outcome == Done
      invariant !inp.useCached ==> data.cachedActiveAttractors == []
      invariant inp.useCached ==>
        && data.cachedBannedAliveNodes == old(data.cachedBannedAliveNodes)
        && data.cachedActiveAttractors == old(data.cachedActiveAttractors)
        && old(data.cachedAffectedPoints) <= data.cachedAffectedPoints && old(data.cachedClosestNode) <= data.cachedClosestNode
      decreases fuelLeft
    {
      if fuelLeft == 0 {
        outcome := OutOfFuel;
        break;
      }
      fuelLeft := fuelLeft - 1;
      var o;
      ghost var affected, kept, grown, dropped;
      o, st, affected, kept, grown, dropped := Iterate(data, inp, st);
      if o != Done {
        outcome := o;
        break;
      }
    }
    skeleton := data.nodes;
    if outcome != CacheMismatch {
      Finish(data, FinishInputOf(inp));
    }
  }
}
