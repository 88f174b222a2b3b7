/**
  The output computation of the growth node (Grower::compute in
  src/GrowerNode.cpp, lines 113-176): decide whether the recorded growth may
  be replayed, remember the settings otherwise, scale the distances to the
  extent of the attraction points, grow, and bound the result.
 */
module GrowerCompute {

  import opened Seqs
  import opened Skeleton
  import opened Bounds
  import opened GrowthAttract
  import opened GrowthFinish
  import opened Growth

  /** The growth settings as the user gives them: multipliers of the scene extent and a neighbour count. */
  datatype Settings = Settings(searchRadius: real, killRadius: real, numNeighbours: int, growDist: real)

  /** The settings a recorded growth was made with. */
  function StoredSettings(data: GrowerData): Settings
    reads data
  {
    Settings(data.cachedSearchRadius, data.cachedKillRadius, data.cachedNumNeighbours, data.cachedNodeGrowDist)
  }

  /** `fabsf(a - b) < 1e-1f`. */
  predicate Near(a: real, b: real)
  {
    -0.1 < a - b < 0.1
  }

  /**
    Lines 134-139: replay when caching is on, the three distance multipliers
    each differ from the recorded ones by less than 0.1 and the neighbour
    count is the same.
   */
  predicate UseCachedSolution(cacheGrowth: bool, stored: Settings, given: Settings)
  {
    && cacheGrowth
    && Near(given.searchRadius, stored.searchRadius)
    && Near(given.killRadius, stored.killRadius)
    && given.numNeighbours == stored.numNeighbours
    && Near(given.growDist, stored.growDist)
  }

  /** With caching on, settings just recorded are reused, and so are settings that drift by less than 0.1. */
  lemma StoredSettingsReused(stored: Settings, given: Settings)
    requires given.numNeighbours == stored.numNeighbours
    requires Near(given.searchRadius, stored.searchRadius) && Near(given.killRadius, stored.killRadius)
    requires Near(given.growDist, stored.growDist)
    ensures UseCachedSolution(true, stored, given) && UseCachedSolution(true, given, given)
  {
  }

  /** Caching off, or any multiplier moved by 0.1 or more, or another neighbour count: the growth is recomputed. */
  lemma ChangedSettingsRegenerate(cacheGrowth: bool, stored: Settings, given: Settings)
    requires !cacheGrowth || given.numNeighbours != stored.numNeighbours ||
             !Near(given.searchRadius, stored.searchRadius) || !Near(given.killRadius, stored.killRadius) ||
             !Near(given.growDist, stored.growDist)
    ensures !UseCachedSolution(cacheGrowth, stored, given)
  {
  }

  /** Lines 17-22 of src/GrowerData.cpp: the settings of a fresh data object. */
  const InitialSettings := Settings(-1.0, -1.0, -1, -1.0)

  /** A fresh data object is never replayed from when the neighbour count is not -1 or the search multiplier is not negative. */
  lemma FirstComputeRegenerates(cacheGrowth: bool, given: Settings)
    requires given.numNeighbours != -1 || 0.0 <= given.searchRadius
    ensures !UseCachedSolution(cacheGrowth, InitialSettings, given)
  {
  }

  /**
    The neighbour count handed to the search. The search wrapper is not part
    of this model; a negative count is taken to ask for no neighbours.
   */
  function NeighbourCount(n: int): nat
  {
    if n < 0 then 0 else n
  }

  /** Lines 113-118 and 153-170: what Grow receives, the distances scaled by the largest side of the points' bounds. */
  function ScaledInput(points: seq<Vec3>, normals: seq<Vec3>, sourcePos: Vec3, geo: Geometry, query: Knn,
                       given: Settings, maxExtents: real, reuse: bool): GrowInput
  {
    GrowInput(points, normals, sourcePos, geo, query, given.searchRadius * maxExtents, given.killRadius * maxExtents,
              NeighbourCount(given.numNeighbours), given.growDist * maxExtents, reuse)
  }

  /**
    Lines 134-150: decide whether to replay, and record the given settings
    when the growth is to be recomputed.
   */
  method DecideReuse(data: GrowerData, given: Settings, cacheGrowth: bool) returns (reused: bool)
    modifies data`cachedSearchRadius, data`cachedKillRadius, data`cachedNumNeighbours, data`cachedNodeGrowDist
    ensures reused == UseCachedSolution(cacheGrowth, old(StoredSettings(data)), given)
    ensures StoredSettings(data) == if reused then old(StoredSettings(data)) else given
  {
    reused := UseCachedSolution(cacheGrowth, StoredSettings(data), given);
    if !reused {
      data.cachedSearchRadius := given.searchRadius;
      data.cachedKillRadius := given.killRadius;
      data.cachedNumNeighbours := given.numNeighbours;
      data.cachedNodeGrowDist := given.growDist;
    }
  }

  /** Lines 153-176: grow the skeleton from scratch and bound its final nodes. */
  method GrowAndBound(data: GrowerData, inp: GrowInput, fuel: nat) returns (outcome: Outcome, ghost skeleton: seq<GrowerNode>)
    modifies data`nodes, data`cachedAffectedPoints, data`cachedClosestNode, data`cachedBannedAliveNodes
    modifies data`cachedActiveAttractors, data`bounds
    requires InputOk(inp)
    ensures WellFormed(skeleton) && Grown(inp, skeleton)
    ensures outcome == CacheMismatch ==> data.nodes == skeleton
    ensures outcome != CacheMismatch ==> data.nodes == FinishFrom(skeleton, FinishInputOf(inp), 0)
    ensures !inp.useCached ==>
      && outcome != CacheMismatch && data.cachedActiveAttractors == []
      && RecordFits(inp, data.cachedAffectedPoints, data.cachedClosestNode, |skeleton|)
      && |data.cachedBannedAliveNodes| == |data.cachedAffectedPoints|
    ensures inp.useCached ==>
      && data.cachedBannedAliveNodes == old(data.cachedBannedAliveNodes)
      && data.cachedActiveAttractors == old(data.cachedActiveAttractors)
      && old(data.cachedAffectedPoints) <= data.cachedAffectedPoints && old(data.cachedClosestNode) <= data.cachedClosestNode
    ensures data.bounds == BoundsOf(Positions(data.nodes))
  {
    data.nodes := [];
    outcome, skeleton := Grow(data, inp, fuel);
    data.bounds := NodeBounds(data.nodes);
  }

  /**
    Lines 113-176 for the output plug: `reused` is the cache decision, the
    settings are recorded when the growth is recomputed, the skeleton is
    grown from scratch with the scaled distances, and the bounds enclose the
    final node positions.
   */
  method Compute(data: GrowerData, points: seq<Vec3>, normals: seq<Vec3>, sourcePos: Vec3, geo: Geometry, query: Knn,
                 given: Settings, cacheGrowth: bool, fuel: nat)
    returns (reused: bool, outcome: Outcome, ghost skeleton: seq<GrowerNode>)
    modifies data`cachedSearchRadius, data`cachedKillRadius, data`cachedNumNeighbours, data`cachedNodeGrowDist
    modifies data`nodes, data`cachedAffectedPoints, data`cachedClosestNode, data`cachedBannedAliveNodes
    modifies data`cachedActiveAttractors, data`bounds
    requires |normals| == |points| && KnnContract(query, points, geo.dist)
    ensures reused == UseCachedSolution(cacheGrowth, old(StoredSettings(data)), given)
    ensures StoredSettings(data) == if reused then old(StoredSettings(data)) else given
    ensures WellFormed(skeleton) && Grown(ScaledInput(points, normals, sourcePos, geo, query, given, MaxExtent(BoundsOf(points)), reused), skeleton)
    ensures outcome == CacheMismatch ==> data.nodes == skeleton
    ensures outcome != CacheMismatch ==>
      data.nodes == FinishFrom(skeleton, FinishInputOf(ScaledInput(points, normals, sourcePos, geo, query, given, MaxExtent(BoundsOf(points)), reused)), 0)
    ensures !reused ==>
      && outcome != CacheMismatch && data.cachedActiveAttractors == []
      && RecordFits(ScaledInput(points, normals, sourcePos, geo, query, given, MaxExtent(BoundsOf(points)), reused),
                    data.cachedAffectedPoints, data.cachedClosestNode, |skeleton|)
      && |data.cachedBannedAliveNodes| == |data.cachedAffectedPoints|
    ensures reused ==>
      && data.cachedBannedAliveNodes == old(data.cachedBannedAliveNodes)
      && data.cachedActiveAttractors == old(data.cachedActiveAttractors)
      && old(data.cachedAffectedPoints) <= data.cachedAffectedPoints && old(data.cachedClosestNode) <= data.cachedClosestNode
    ensures data.bounds == BoundsOf(Positions(data.nodes))
  {
    reused := DecideReuse(data, given, cacheGrowth);
    var srcBounds := Enclose(points);
    var inp := ScaledInput(points, normals, sourcePos, geo, query, given, MaxExtent(srcBounds), reused);
    outcome, skeleton := GrowAndBound(data, inp, fuel);
  }

  /** After a computation every node lies within the bounds, and the bounds are the smallest such box. */
  lemma ComputedBoundsEnclose(nodes: seq<GrowerNode>, bounds: Box)
    requires bounds == BoundsOf(Positions(nodes))
    ensures forall i :: 0 <= i < |nodes| ==> Inside(bounds, nodes[i].pos)
    ensures forall outer :: (forall i :: 0 <= i < |nodes| ==> Inside(outer, nodes[i].pos)) ==> Within(bounds, outer)
    ensures nodes != [] ==> bounds.Box?
  {
    BoundsFacts(Positions(nodes));
  }
}
