# Grower: a verified model of the space-colonisation skeleton pipeline

Grower is a set of Maya plug-in nodes that grow a branching skeleton over a
cloud of attraction points, trim it to a fraction of its depth, and turn it
into a tube mesh. This project models the core of that pipeline in Dafny:

- `skeleton.dfy` (module `Skeleton`): the skeleton node (`growerNode_t`)
  with its 31-bit parent field and the `INVALID_PARENT` sentinel, and the
  output data object `GrowerData` as a class. It also defines the invariant
  every pass relies on (`WellFormed`):
  - parents come before their children;
  - every child points back to the node that lists it;
  - no children list repeats an index.
- `seqs.dfy` (`Seqs`): `insertUnique` and swap-removal on index lists.
- `bounds.dfy` (`Bounds`): the bounding box that starts cleared and grows
  with `expand`.
- `compute.dfy` (`GrowerCompute`): `Grower::compute`. It covers the cache
  decision, recording the settings, scaling the distances to the scene
  extent, growing, and bounding the result.
- `growth_attract.dfy`, `growth_spawn.dfy`, `growth_finish.dfy`,
  `growth.dfy` (`GrowthAttract`, `GrowthSpawn`, `GrowthFinish`, `Growth`):
  `Grower::Grow`, split into four parts.
  - Attraction: each alive node claims the active points near it.
  - Rebuilding the alive list, then spawning one child per alive node that
    is not banned and not a duplicate.
  - Killing points near new nodes.
  - Replay of recorded rounds from the cache.
  - The final pass that sets normals and lets the grandparent adopt
    children that bend too sharply.
- `trimming.dfy` (`Trimming`): `Trimmer::GetMaxDepth`, `Trimmer::Trim` and
  `Trimmer::compute` (breadth-first levels over a double buffer).
- `thickness.dfy` (`Thickness`): the explicit-stack walk both shape nodes
  use to give each branch its thickness, the square root of the sum of its
  children's squared thicknesses. It also forces branch ends to the
  terminator thickness 0.0001.
- `mesh_layout.dfy` (`MeshLayout`): the parts of `CreateMesh` that do not
  depend on coordinates:
  - which nodes take part in the mesh;
  - the vertex block of each node's rings;
  - the quads that join each node to its parent's sub-ring, in both
    windings.
- `grower_shape.dfy` (`GrowerShape`): `GrowerShape::compute` and
  `GrowerShape::CalculateThickness`. The base is 1, then the values are
  normalised by their own range and read through the thickness curve.
- `legacy_shape.dfy` (`LegacyShape`): the older `Shape` node of
  Grower/MesherNode.cpp:
  - its base thickness is a user attribute;
  - it does not normalise;
  - it winds the quads in reverse.
  Its thickness walk is modelled both as written and corrected (see
  Findings).

### How the model is shaped

- Where the source changes state, the model does too:
  - `GrowerData` is a class, and its methods have `modifies` clauses;
  - the thickness array, the vertex marks and offsets, and the index
    buffer are `array`s;
  - the loops of the source are `while` loops with invariants.
- Each such method is tied to a specification function. The properties
  are proved as lemmas about that function, for example:
  - `Trimming.IsTrimmed` and `Trimming.Frontier`, with the depth of each
    node;
  - `Thickness.Thick`, the recursive thickness rule;
  - `MeshLayout.MeshQuads`;
  - `GrowthFinish.FinishFrom`.
- Floating-point values are modelled as reals.
- Geometry the model does not compute is passed in as function parameters
  (`Geometry`, `Knn`, `root`, `remap`, `smooth`): distances, the growth
  step, the bend test, the neighbour search, `sqrtf`, the thickness curve
  and the smoothing pass. Their contracts (`KnnContract`, `IsSqrt`) are
  stated as predicates over those parameters.

### Two behaviours of the code worth knowing

- `maxNeighbors < 1` is not rejected. The code passes the count on to the
  search, and the model clamps a negative count to zero.
- `percentLength` 0 trims at length 1, because the length is
  `ceil(maxDepth * percentLength) + 1`. That flags exactly the root's
  children (`Trimming.ZeroLengthTrimsRootChildren`); it does not flag every
  node but the root.

## Model

| member | source | states |
|---|---|---|
| `Skeleton.Parent31` | src/GrowerData.h:28 | The 31-bit parent field always holds a value below 2^31 and keeps any such value unchanged. |
| `Skeleton.ParentIndexDistinguishable` | src/GrowerData.h:21-28 | A node index below `INVALID_PARENT` (2^30) survives the 31-bit field and never reads back as the sentinel. |
| `Skeleton.ParentFieldWraps` | src/GrowerData.h:28 | An index of 2^31 + i wraps around and aliases node index i. |
| `Skeleton.NewNode` | src/GrowerData.h:24 | A default node has the sentinel parent, is not trimmed and has no children. |
| `Skeleton.ChildAfterParent` | src/GrowerNode.cpp:529-532 | In a well-formed skeleton the k-th child of p is a node index larger than p. It points back to p and is never the root. |
| `Skeleton.ParentListsChild` | src/GrowerNode.cpp:529-531 | Every node but the root has an earlier parent that lists it among its children. |
| `Skeleton.SeedWellFormed` | src/GrowerNode.cpp:350-367 | The seed on its own is a well-formed one-node skeleton. |
| `Skeleton.OnlyRootHasNoParent` | src/GrowerData.h:21-24 | A node carries the sentinel parent exactly when it is node 0. |
| `Skeleton.IncludedRootIncluded` | src/GrowerShape.cpp:226-236 | If any node takes part in the mesh, so does the root. |
| `Skeleton.GrowerData.constructor` | src/GrowerData.cpp:17-22 | A fresh data object has no nodes, cleared bounds and an empty cache. All four recorded settings are -1. |
| `Skeleton.GrowerData.HasGeometry` | src/GrowerData.h:71 | True exactly when the skeleton has a node. |
| `Skeleton.GrowerData.Copy` | src/GrowerData.cpp:35-44 | Copying from itself changes nothing. Otherwise nodes and bounds are taken from the other object and the cache and recorded settings are kept. The other object is unchanged. |
| `Seqs.InsertUnique` | src/GrowerNode.cpp:316-325 | The linear scan appends `s` exactly as `Inserted` says: only when the scan runs off the end. |
| `Seqs.InsertedFacts` | src/GrowerNode.cpp:316-325 | Inserting keeps the old list as a prefix and adds exactly `s` to the contents. The length grows by one exactly when `s` was missing. A duplicate-free list stays duplicate-free. |
| `Seqs.InsertAllFacts` | src/GrowerNode.cpp:462-466 | Inserting a whole list keeps the start as a prefix, yields exactly the elements of both lists and keeps duplicate-freeness. |
| `Seqs.InsertAllSnoc` | src/GrowerNode.cpp:463-466 | One more turn of the rebuild loop is one more `insertUnique`, so first-seen order is kept. |
| `Seqs.Pigeonhole` | src/GrowerNode.cpp:462-466 | A duplicate-free list of indices below n has at most n entries. This bounds the alive list by the node count. |
| `Seqs.SwapRemoveFacts` | src/GrowerNode.cpp:524-526 | Swap-removal shortens the list by one, drops exactly `s[i]`, keeps the other entries distinct and leaves the part before `i` in place. |
| `Seqs.SwapRemoveSuffix` | src/GrowerNode.cpp:524-526 | The part from `i` on loses exactly `s[i]`, so the `i--` that follows re-examines the moved entry. |
| `Bounds.Expand` | src/GrowerNode.cpp:117 | The expanded box holds the point and the old box. It lies within every box that holds both. |
| `Bounds.BoundsFacts` | src/GrowerNode.cpp:114-118 | The bounds of a point list are cleared exactly when the list is empty. They hold every point and lie within any box that holds every point. |
| `Bounds.ExtentCovers` | src/GrowerNode.cpp:153 | No two points are further apart along an axis than the largest side of their bounds. |
| `Bounds.Enclose` | src/GrowerNode.cpp:114-118 | The clear-then-expand loop yields the bounds of the points. |
| `Bounds.NodeBounds` | src/GrowerNode.cpp:173-176 | The loop over the nodes yields the bounds of the node positions. |
| `GrowerCompute.StoredSettingsReused` | src/GrowerNode.cpp:136-140 | With caching on, the recorded settings are reused. So are settings that differ from them by less than 0.1 in each multiplier and not at all in the neighbour count. |
| `GrowerCompute.ChangedSettingsRegenerate` | src/GrowerNode.cpp:136-140 | Caching off, a multiplier moved by 0.1 or more, or another neighbour count: the growth is recomputed. |
| `GrowerCompute.FirstComputeRegenerates` | src/GrowerData.cpp:17-22 | A fresh data object (settings -1) is never replayed unless the neighbour count is -1 and the search multiplier is negative. |
| `GrowerCompute.DecideReuse` | src/GrowerNode.cpp:134-150 | The decision is `UseCachedSolution` on the recorded settings. The given settings are recorded exactly when the growth is recomputed. |
| `GrowerCompute.GrowAndBound` | src/GrowerNode.cpp:153-176 | The skeleton is regrown from empty and is well formed and grown. The final nodes are that skeleton after the normal and bend pass, unless a replay did not fit. The bounds are the bounds of the final nodes. A recorded growth leaves a regenerated cache: every recorded round fits the skeleton, there is one banned entry per round, and the active record is empty. A replay leaves the banned and active records unchanged, and the affected and claim records only grow. |
| `GrowerCompute.Compute` | src/GrowerNode.cpp:113-176 | `Compute` combines these steps: the cache decision and the recorded settings (as `DecideReuse`), with the distances multiplied by the largest side of the points' bounds. The grown and finished skeleton and its bounds are as in `GrowAndBound`. A recomputed growth never ends in a cache mismatch and regenerates the cache: every recorded round fits, one banned entry per round, an empty active record. A replay leaves the banned and active records unchanged and only extends the affected and claim records. |
| `GrowerCompute.ComputedBoundsEnclose` | src/GrowerNode.cpp:173-176 | Every node lies within the bounds, which are the smallest such box. The bounds are not cleared when a node exists. |
| `Growth.SeedGrown` | src/GrowerNode.cpp:350-368 | The seed alone satisfies the growth invariant: the root is at the seed position and nothing is trimmed. |
| `Growth.OldNodeGrown` | src/GrowerNode.cpp:528-533 | A node that existed before a spawn round keeps its position, its flag and its step from its parent. |
| `Growth.NewPosIsStep` | src/GrowerNode.cpp:479-495 | The position an alive node grows towards is one growth step from it, towards a non-empty list of attraction points. |
| `Growth.KeptStepsFrom` | src/GrowerNode.cpp:474-535 | Every position grown in a round is one step from the node that grew it. |
| `Growth.SpawnGrown` | src/GrowerNode.cpp:474-538 | A spawn round keeps the invariant: every node but the root is one step from its parent towards points it claimed. |
| `Growth.OldNodesGrown` | src/GrowerNode.cpp:528-533 | Every node kept from before a spawn round is still grown, untrimmed and in place. |
| `Growth.NewNodesGrown` | src/GrowerNode.cpp:494-533 | Every node a spawn round adds is untrimmed and one step from its parent. |
| `Growth.ClaimStep` | src/GrowerNode.cpp:388-456 | A replayed round copies entry `iterationCount` of the affected, closest and banned records and leaves them alone. It fails exactly when an entry is missing or does not fit. A fresh round's claims are `ClaimRound` over the alive nodes, run on the part of the inherited claim table that covers the points; the rest of a longer table left by a replay is kept. Its affected list and claim table are appended to the records. It fails exactly when the table is shorter than the points or the claims do not fit. While recording, the round never fails. |
| `Growth.RecordGrows` | src/GrowerNode.cpp:454-455 | A record whose claims fit a skeleton still fits when the skeleton grows. |
| `Growth.RecordPush` | src/GrowerNode.cpp:454-455 | Appending a fitting round keeps the record fitting. |
| `Growth.ClosestGrows` | src/GrowerNode.cpp:437-450 | Claims that name existing nodes stay valid when nodes are added. |
| `Growth.SpawnAndKill` | src/GrowerNode.cpp:474-551 | An alive node is kept exactly when it is not dropped (banned while replaying, duplicating a child while recording). Each kept node grows one child at its growth position, and the skeleton becomes `Sprouted`, well formed and grown. The children take the next indices in order, and the next alive list is the kept nodes followed by those children. While recording, the dropped nodes are appended to the round's banned entry, and a point stays active exactly when no new node's kill search reached it. While replaying, the banned record and active flags are unchanged. |
| `Growth.Iterate` | src/GrowerNode.cpp:386-551 | One round keeps the loop invariant. Its claims are those of `RoundClaims`, and the alive list it rebuilds is the claiming nodes inserted uniquely in affected order. A completed round then spawns and kills as `Spawned` says. While recording, its banned entry is exactly the dropped nodes, and it never reports a cache mismatch. While replaying, it changes neither banned record nor active flags and only extends the records. A round that stops early leaves the nodes unchanged. |
| `Growth.Grow` | src/GrowerNode.cpp:329-609 | The grown skeleton is well formed, rooted at the seed and untrimmed, each node one step from its parent. The final nodes are that skeleton after the normal and bend pass. A recording run leaves a record whose every entry fits the final skeleton, with one banned entry per recorded round and an empty active-flag record. A replaying run leaves the banned and active records alone. |
| `GrowthAttract.KnnBelow` | src/GrowerNode.cpp:416-417 | The search returns at most `maxNeighbors` indices of attraction points. |
| `GrowthAttract.ClaimOneFacts` | src/GrowerNode.cpp:433-450 | Handling one found point keeps the claims valid and moves claims only to the querying node. An active point is listed; nothing but that point is added to the list. |
| `GrowthAttract.ClaimFoundFacts` | src/GrowerNode.cpp:425-451 | The inner loop keeps the claims valid and gives new claims only to the querying node. It lists every active point found and nothing else. |
| `GrowthAttract.ClaimRoundValid` | src/GrowerNode.cpp:413-452 | A whole attraction round keeps the claims valid and moves claims only to alive nodes. |
| `GrowthAttract.ClaimRoundLists` | src/GrowerNode.cpp:413-452 | Every active point some alive node found ends up in the affected list. |
| `GrowthAttract.ClaimRoundOnlyFound` | src/GrowerNode.cpp:413-452 | The affected list holds only points some alive node found. |
| `GrowthAttract.ClaimRoundFacts` | src/GrowerNode.cpp:413-452 | From an empty list, a point is affected exactly when it is active and some alive node found it. The claims stay valid and move only to alive nodes. |
| `GrowthAttract.ClaimPoint` | src/GrowerNode.cpp:433-450 | The method's update of list, claim and distance is the claim rule `ClaimOne`. |
| `GrowthAttract.ClaimFoundPoints` | src/GrowerNode.cpp:425-451 | The loop over the found points equals `ClaimFound`. |
| `GrowthAttract.Attract` | src/GrowerNode.cpp:413-452 | The loop over the alive nodes equals `ClaimRound` from an empty affected list. |
| `GrowthSpawn.FreshRoundFits` | src/GrowerNode.cpp:413-455 | A fresh round's affected points are claimed by existing nodes. |
| `GrowthSpawn.RebuildAlive` | src/GrowerNode.cpp:462-466 | The new alive list is the claiming nodes of the affected points, inserted uniquely in order. |
| `GrowthSpawn.AliveFacts` | src/GrowerNode.cpp:459-466 | The rebuilt alive list is duplicate-free and names nodes. A node is on it exactly when it claims an affected point. |
| `GrowthSpawn.TargetHasAttractors` | src/GrowerNode.cpp:482-491 | A node on the alive list claims at least one point, so the source's `nAttractors > 0` assertion holds. |
| `GrowthSpawn.AttractorsClaimed` | src/GrowerNode.cpp:482-489 | Every position a node grows towards is an attraction point that node claims. |
| `GrowthSpawn.Attractors` | src/GrowerNode.cpp:482-490 | The scan collects the claimed points' positions in affected-list order. |
| `GrowthSpawn.DuplicatesChild` | src/GrowerNode.cpp:497-508 | The scan reports a duplicate exactly when some listed child is within the duplicate distance of the new position. |
| `GrowthSpawn.IsBanned` | src/GrowerNode.cpp:510-519 | The search reports a ban exactly when the node is on the banned list. |
| `GrowthSpawn.WithChildWellFormed` | src/GrowerNode.cpp:528-533 | Adding a child keeps the skeleton well formed while the new index stays below the sentinel. The new node's parent is `p`. |
| `GrowthSpawn.WithChildDepth` | src/GrowerNode.cpp:528-533 | The new node is one level deeper than its parent. |
| `GrowthSpawn.DepthUnchanged` | src/GrowerNode.cpp:528-533 | Appending nodes leaves the depth of existing nodes unchanged. |
| `GrowthSpawn.SproutedFacts` | src/GrowerNode.cpp:474-535 | After a round, each old node is unchanged except that it also lists the children it grew, in order. The k-th new node sits at its growth position, hangs from its parent, is untrimmed and has no children. |
| `GrowthSpawn.AddedOnce` | src/GrowerNode.cpp:528-531 | A node that grew nothing gains no children; one that grew once gains exactly its new node. |
| `GrowthSpawn.SproutedWellFormed` | src/GrowerNode.cpp:474-535 | Growing any number of children keeps the skeleton well formed. |
| `GrowthSpawn.AddChild` | src/GrowerNode.cpp:529-533 | The new node gets the next index and the skeleton becomes `WithChild`. |
| `GrowthSpawn.SproutedKeepsPos` | src/GrowerNode.cpp:528-533 | Growing moves no existing node. |
| `GrowthSpawn.SproutedKeepsNode` | src/GrowerNode.cpp:528-533 | A node that grew nothing is unchanged. |
| `GrowthSpawn.CloseChildSamePositions` | src/GrowerNode.cpp:501-502 | The duplicate test reads only the positions of the listed children. |
| `GrowthSpawn.SproutedKeepsDropTest` | src/GrowerNode.cpp:497-508 | After other nodes grew, an undecided node has the same growth position and the same drop decision as on the skeleton the round started from. |
| `GrowthSpawn.GrowthPos` | src/GrowerNode.cpp:479-495 | The position computed is `NewPos`: one step from the node towards the points it claims. |
| `GrowthSpawn.SpawnStart` | src/GrowerNode.cpp:474 | The spawn invariant holds before the first entry. |
| `GrowthSpawn.SpawnNext` | src/GrowerNode.cpp:474-477 | The next entry is an alive, claiming node. Its growth position and drop test are those of the initial skeleton. |
| `GrowthSpawn.SpawnDrop` | src/GrowerNode.cpp:521-526 | A dropped entry is swap-removed, and recorded in the round's banned entry while recording. |
| `GrowthSpawn.SpawnKeep` | src/GrowerNode.cpp:528-534 | An entry that is kept grows its child, which gets the next index. |
| `GrowthSpawn.SpawnEnd` | src/GrowerNode.cpp:474-535 | At the end of the loop, an alive node is kept exactly when it is not dropped, and the skeleton is the sprouted one. |
| `GrowthSpawn.SpawnResult` | src/GrowerNode.cpp:474-538 | The kept nodes grew at their growth positions. The next alive list (kept then new) is duplicate-free and names nodes. Only the banned record changes, and only while recording. |
| `GrowthSpawn.NextAliveDistinct` | src/GrowerNode.cpp:536-538 | Distinct old nodes followed by the consecutive new indices are distinct. |
| `GrowthSpawn.SpawnStep` | src/GrowerNode.cpp:474-535 | One turn of the loop keeps the spawn invariant and makes progress. |
| `GrowthSpawn.Spawn` | src/GrowerNode.cpp:474-538 | Each alive node is kept exactly when it is not dropped. The skeleton becomes the sprouted one and stays well formed. |
| `GrowthSpawn.Deactivate` | src/GrowerNode.cpp:547-549 | A point stays active exactly when it was active and is not among the found points. |
| `GrowthSpawn.Kill` | src/GrowerNode.cpp:541-551 | A point stays active exactly when it was active and no new node's kill search reached it. |
| `GrowthFinish.AdoptBasics` | src/GrowerNode.cpp:594-601 | Adoption moves child c from the list of `i` (swap-removed) to the end of the grandparent's list. It changes c's parent to the grandparent and nothing else. |
| `GrowthFinish.AdoptListed` | src/GrowerNode.cpp:596-597 | After adopting, every node but the root is listed by its parent. |
| `GrowthFinish.AdoptPointsBack` | src/GrowerNode.cpp:596-601 | After adopting, every listed child points back to the node listing it. |
| `GrowthFinish.AdoptDistinct` | src/GrowerNode.cpp:597-601 | After adopting, no list of children holds a node twice. |
| `GrowthFinish.AdoptParentsBelow` | src/GrowerNode.cpp:596 | After adopting, every node but the root still has an earlier parent. |
| `GrowthFinish.AdoptFacts` | src/GrowerNode.cpp:594-605 | Adopting keeps the skeleton well formed. It changes only c's parent and shortens the list of `i` by swap-removal. |
| `GrowthFinish.ReparentFromShape` | src/GrowerNode.cpp:588-607 | The reparenting loop keeps the skeleton well formed and never moves a node or changes its normal or flag. |
| `GrowthFinish.ParentsSkip` | src/GrowerNode.cpp:593-594 | A child that bends gently keeps parent `i`. |
| `GrowthFinish.ParentsAdopt` | src/GrowerNode.cpp:594-601 | A sharply bending child is adopted, and the loop goes on over the shortened list. |
| `GrowthFinish.ParentsLast` | src/GrowerNode.cpp:602-604 | When the last remaining child bends sharply, it is adopted and the list is cleared. |
| `GrowthFinish.ReparentFromParents` | src/GrowerNode.cpp:588-607 | After the loop, each examined child has the grandparent when it bends sharply and `i` otherwise. Every other node keeps its parent. |
| `GrowthFinish.ReparentFacts` | src/GrowerNode.cpp:583-608 | This is the full loop for node `i`. Its own parent, positions, normals and flags are unchanged, and only its children can change parent, each by the bend rule. |
| `GrowthFinish.FinishNodeWellFormed` | src/GrowerNode.cpp:563-608 | Processing one node keeps the skeleton well formed. |
| `GrowthFinish.ProcessedParentsBelow` | src/GrowerNode.cpp:563-609 | A parent decided while processing an earlier node is below `i`, and later steps never change it. |
| `GrowthFinish.FinishNodeFacts` | src/GrowerNode.cpp:564-608 | Processing node `i` sets its normal by the normal rule and reroutes only its own children's parents. |
| `GrowthFinish.ProcessedStep` | src/GrowerNode.cpp:563-609 | Processing node `i` extends the processed prefix to `i + 1`. |
| `GrowthFinish.ProcessedNormals` | src/GrowerNode.cpp:564-580 | Normals of processed nodes still follow the normal rule after the next step. |
| `GrowthFinish.ProcessedParents` | src/GrowerNode.cpp:583-608 | Children of processed nodes follow the bend rule, and children of unprocessed nodes keep their parent. |
| `GrowthFinish.FinishFromProcessed` | src/GrowerNode.cpp:563-609 | The rest of the pass completes the processing. |
| `GrowthFinish.FinishFacts` | src/GrowerNode.cpp:560-609 | After the pass the skeleton is well formed and no node moved or changed its flag. Every node carries the normal the normal rule gives: the nearest point's, else the parent's, else up. Every child of an inner node is adopted by the grandparent exactly when it bends sharply. |
| `GrowthFinish.ReparentChildren` | src/GrowerNode.cpp:588-607 | The swap-removing loop over the children of node `i` computes `Reparent`. |
| `GrowthFinish.FinishStep` | src/GrowerNode.cpp:563-608 | One turn of the outer loop computes `FinishNode`. |
| `GrowthFinish.Finish` | src/GrowerNode.cpp:560-609 | The outer loop computes `FinishFrom`, whose properties `FinishFacts` states. |
| `Trimming.ExpandIncludes` | src/TrimmerNode.cpp:84-89 | Every child of a frontier node is collected. |
| `Trimming.ExpandSource` | src/TrimmerNode.cpp:84-89 | Everything collected is the j-th child of some frontier node. |
| `Trimming.FrontierSound` | src/TrimmerNode.cpp:75-94 | Everything on level d of the walk is d levels deep. |
| `Trimming.FrontierComplete` | src/TrimmerNode.cpp:75-94 | Every node d levels deep is on level d. |
| `Trimming.FrontierIsLevel` | src/TrimmerNode.cpp:75-94 | Level d holds exactly the nodes at depth d. |
| `Trimming.FrontierBound` | src/TrimmerNode.cpp:79-92 | A non-empty level lies strictly below the node count, so the level loop ends. |
| `Trimming.FrontierEmpty` | src/TrimmerNode.cpp:79-92 | An empty level d means no node is d or more levels deep. |
| `Trimming.CollectChildren` | src/TrimmerNode.cpp:83-89 | The other half of the double buffer receives, in order, the children of the current half, which is unchanged. |
| `Trimming.SlotIsParity` | src/TrimmerNode.cpp:79-81 | The half holding level d is `d % 2`. |
| `Trimming.NextLevel` | src/TrimmerNode.cpp:80-91 | One turn of the level loop leaves level `depth + 1` in the other half. |
| `Trimming.LevelCount` | src/TrimmerNode.cpp:79-93 | The first empty level is one past the deepest node. |
| `Trimming.LevelCountUnique` | src/TrimmerNode.cpp:75-94 | A skeleton has only one level count, so the depth `GetMaxDepth` returns is determined by the tree. |
| `Trimming.GetMaxDepth` | src/TrimmerNode.cpp:75-94 | The result is the number of non-empty levels: one more than the largest depth. |
| `Trimming.FlagLevel` | src/TrimmerNode.cpp:105-107 | Every node of the level, and only those, gets the flag. Nothing else changes. |
| `Trimming.TrimStep` | src/TrimmerNode.cpp:100-113 | Flagging level d and collecting its children advances the trimmed prefix by one level. |
| `Trimming.TrimDone` | src/TrimmerNode.cpp:113-119 | Both exits of the loop give the final flags: past the last level, or just after level `maxLength`. |
| `Trimming.TrimLevel` | src/TrimmerNode.cpp:100-113 | One turn flags level `depth` and fills the other half with level `depth + 1`. |
| `Trimming.Trim` | src/TrimmerNode.cpp:96-120 | Nodes at levels up to `maxLength` get `trimmed := (depth == maxLength)`. Deeper nodes keep their flag, and nothing else changes. |
| `Trimming.SameChildrenExpand` | src/TrimmerNode.cpp:104-110 | Collecting children reads only the children lists, so flag changes do not alter later levels. |
| `Trimming.TrimLength` | src/TrimmerNode.cpp:63 | For percentLength in [0, 1] the length lies between 1 and `maxDepth + 1`. It is `maxDepth + 1` at 1 and 1 at 0. |
| `Trimming.TrimExcludesDeepNodes` | src/TrimmerNode.cpp:96-120 | After trimming at length L, a node is left out of the mesh exactly when it is at least L levels deep, whatever its earlier flag. |
| `Trimming.TrimKeepsShape` | src/TrimmerNode.cpp:105-107 | Trimming leaves positions, parents, children and normals untouched. |
| `Trimming.FullLengthTrimsNothing` | src/TrimmerNode.cpp:62-65 | At percentLength 1 every node ends untrimmed. |
| `Trimming.ZeroLengthTrimsRootChildren` | src/TrimmerNode.cpp:62-65 | At percentLength 0 the root stays untrimmed and exactly its children are flagged. Deeper nodes keep their flag. |
| `Trimming.Compute` | src/TrimmerNode.cpp:39-73 | The length is `ceil(maxDepth × percentLength) + 1` for the skeleton's level count `maxDepth`, which exists and is unique. The new nodes are the old ones trimmed at that length (`IsTrimmed`), so the skeleton stays well formed. A node is meshed exactly when it is shallower than the length, and at percentLength 1 nothing is trimmed. |
| `Thickness.ThickAtLeastBase` | src/GrowerShape.cpp:395-403 | Every node is at least as thick as the base. |
| `Thickness.SumSqAtLeast` | src/GrowerShape.cpp:398-402 | A partial sum of squares is never negative. Once it holds a child, it is at least the square of the base. |
| `Thickness.BranchRule` | src/GrowerShape.cpp:395-403 | An inner node's squared thickness is the sum of its children's squared thicknesses. It is at least as thick as each child. |
| `Thickness.SumSqHoldsChild` | src/GrowerShape.cpp:398-402 | A partial sum holding child k is at least that child's square. |
| `Thickness.PassStart` | src/GrowerShape.cpp:361-363 | With the root alone on the stack the walk invariant holds. |
| `Thickness.TopFacts` | src/GrowerShape.cpp:364-386 | A node seen on top before has all its children finished. One seen for the first time has none of them finished or on the stack. |
| `Thickness.PopBase` | src/GrowerShape.cpp:388-389 | Popping keeps the stack's structural facts. |
| `Thickness.PopPushed` | src/GrowerShape.cpp:388-389 | Popping keeps every stacked node's link to the node that pushed it. |
| `Thickness.PopPending` | src/GrowerShape.cpp:388-389 | Popping keeps the promise of the nodes still waiting. |
| `Thickness.PopClosed` | src/GrowerShape.cpp:374-389 | Finishing a leaf, a trimmed node or a node after its children keeps the finished set closed under children. |
| `Thickness.TermsStep` | src/GrowerShape.cpp:369-372 | A node on top is recorded as a branch end exactly when it has no children, or a single trimmed child. |
| `Thickness.ValuesPop` | src/GrowerShape.cpp:395-404 | Storing a finished node's thickness keeps every finished node holding its value from `Thick`. |
| `Thickness.CountPop` | src/GrowerShape.cpp:391-393 | Finishing a node adds one to the count exactly when it is not trimmed. |
| `Thickness.PopKeeps` | src/GrowerShape.cpp:388-405 | Finishing the top node keeps the walk invariant. |
| `Thickness.UnreadyAll` | src/GrowerShape.cpp:407-412 | When no child holds at least the base, every child is pushed, in list order. |
| `Thickness.FreshChildren` | src/GrowerShape.cpp:406-412 | The children of a node on top for the first time are distinct, unseen and point back to it. |
| `Thickness.PushBase` | src/GrowerShape.cpp:407-412 | Pushing fresh distinct nodes keeps the stack's structural facts. |
| `Thickness.PushPushed` | src/GrowerShape.cpp:407-412 | Pushing the top's children keeps every stacked node's link to its parent. |
| `Thickness.PushPending` | src/GrowerShape.cpp:407-412 | After pushing, the top waits below all its children. |
| `Thickness.ExpandKeeps` | src/GrowerShape.cpp:406-413 | Delaying a node keeps the walk invariant. |
| `Thickness.VisitedDone` | src/GrowerShape.cpp:364 | With the stack empty, every node reachable from the root through untrimmed nodes is finished. |
| `Thickness.PassEnd` | src/GrowerShape.cpp:364-414 | After the loop, reached nodes hold their thickness and the others keep zero. The count is the number of mesh nodes, and the collected branch ends are exactly the reached branch ends. |
| `Thickness.CountReady` | src/GrowerShape.cpp:377-384 | The count is the length of the longest prefix of children holding at least the base. |
| `Thickness.SquareSumIsSumSq` | src/GrowerShape.cpp:398-402 | Summing held values gives the rule's sum once every child holds its thickness. |
| `Thickness.SumSquares` | src/GrowerShape.cpp:398-402 | The loop sums the children's squared values in order. |
| `Thickness.PushUnready` | src/GrowerShape.cpp:407-412 | The stack gains exactly the children below the base, in order. |
| `Thickness.ReadyTest` | src/GrowerShape.cpp:374-386 | Every child holds at least the base exactly when the base is not positive, the node is a leaf, or it had its turn before. |
| `Thickness.Decide` | src/GrowerShape.cpp:374-386 | For a positive base, the top is finished exactly when it is a leaf, trimmed, or was delayed before. For a base of zero or less, it is always finished. |
| `Thickness.FinishTop` | src/GrowerShape.cpp:388-405 | Popping, counting and storing keep the walk invariant and make progress. |
| `Thickness.DelayTop` | src/GrowerShape.cpp:406-413 | A node seen for the first time has no finished child, so every one of its children is pushed, in list order. The walk invariant is kept and the top is marked as seen. |
| `Thickness.WalkStep` | src/GrowerShape.cpp:364-414 | One turn keeps the invariant and makes progress. |
| `Thickness.ThicknessPass` | src/GrowerShape.cpp:356-414 | For a positive base, reached nodes hold `Thick` and the others keep zero. The count is the number of mesh nodes and the branch ends are collected exactly. For a base of zero or less, only the root is written and the count is the root's alone. |
| `Thickness.ForceTerminators` | src/GrowerShape.cpp:416-419 | Every collected branch end becomes 0.0001, and nothing else changes. |
| `Thickness.WalkAndForce` | src/GrowerShape.cpp:356-419 | The walk then the forcing leave each node's value per `Forced` (or `ForcedFlat` for a base of zero or less), with the count as above. |
| `Thickness.TerminatorsBelow` | src/GrowerShape.cpp:369-372 | The collected branch ends are node indices. |
| `Thickness.ThickScale` | src/GrowerShape.cpp:395-403 | Thickness is proportional to the base: every node is `base` times as thick as for a base of one. |
| `Thickness.SumSqScale` | src/GrowerShape.cpp:398-402 | Partial sums of squares scale with the square of the base. |
| `Thickness.ForcedScale` | Grower/MesherNode.cpp:412-472 | Every value after walk and forcing, branch ends apart, is `base` times its value for a base of one. |
| `MeshLayout.ExcludedIffTrimmedAncestor` | src/GrowerShape.cpp:225-237 | A node is left out of the mesh exactly when it or an ancestor is flagged trimmed. |
| `MeshLayout.RootIsAncestor` | src/GrowerShape.cpp:228-233 | The root is an ancestor of every node. |
| `MeshLayout.TrimmedRootExcludesAll` | src/GrowerShape.cpp:225-241 | A trimmed root leaves every node out, so there is no mesh node. |
| `MeshLayout.ActiveCountIsSize` | src/GrowerShape.cpp:309 | The running count of mesh nodes is the size of the set of mesh nodes. |
| `MeshLayout.ActiveCountMono` | src/GrowerShape.cpp:309 | The running count never decreases and counts the root first when the root takes part. |
| `MeshLayout.MarkExcluded` | src/GrowerShape.cpp:224-241 | Each node is marked trimmed exactly when it is excluded. `remaining` is the total ring count of the mesh nodes. |
| `MeshLayout.MarkNode` | src/GrowerShape.cpp:226-237 | A node is marked from its own flag and its parent's mark. The mark equals exclusion, and only that node's mark changes. |
| `MeshLayout.RingsBelowMono` | src/GrowerShape.cpp:238-240 | Ring totals never decrease, and a mesh node's rings follow those of the nodes before it. |
| `MeshLayout.OffsetsTile` | src/GrowerShape.cpp:245-303 | The ring blocks of the mesh nodes follow one another without gaps and fit the vertex buffer. |
| `MeshLayout.LayOut` | src/GrowerShape.cpp:244-305 | An excluded node gets offset -1. A mesh node gets the ring total before it times `ts`, and the final offset is the buffer size. |
| `MeshLayout.IndexOf` | src/GrowerShape.cpp:320-325 | The position of the first occurrence of the node in its parent's children. |
| `MeshLayout.FindChild` | src/GrowerShape.cpp:320-325 | The unbounded search stops at the first occurrence and never runs past the list. |
| `MeshLayout.NextIsMod` | src/GrowerShape.cpp:333-335 | The next section around a ring is `(j + 1) % ts`. |
| `MeshLayout.BandStep` | src/GrowerShape.cpp:328-336 | Each turn of the quad loop appends the next quad. |
| `MeshLayout.ReverseBand` | Grower/MesherNode.cpp:388-391 | The older node's winding visits each quad's corners in the opposite cyclic order, starting at the same corner. |
| `MeshLayout.QuadCornersDistinct` | src/GrowerShape.cpp:332-335 | With at least two sections and distinct rings, a quad's four corners are four different vertices. |
| `MeshLayout.BandCorners` | src/GrowerShape.cpp:328-336 | Every corner of the band lies in the first ring or in the second. |
| `MeshLayout.QuadInRings` | src/GrowerShape.cpp:332-335 | Every corner of a quad lies in one of the two rings. |
| `MeshLayout.MeshParent` | src/GrowerShape.cpp:317-319 | A mesh node other than the root has an earlier mesh-node parent that lists it; the source's assertion holds. |
| `MeshLayout.SubRingBefore` | src/GrowerShape.cpp:326-330 | The parent's sub-ring for a node lies inside the parent's block, wholly before the node's own first ring. This is the source's first range assertion. |
| `MeshLayout.PieceLength` | src/GrowerShape.cpp:312-337 | Exactly the mesh nodes other than the root bring quads: `ts` quads of four indices each. |
| `MeshLayout.QuadsCount` | src/GrowerShape.cpp:309-338 | The quads of the first n nodes number `4 * ts` per mesh node but the root. |
| `MeshLayout.QuadsTotal` | src/GrowerShape.cpp:309-338 | The index buffer holds `4 * ts * (activeNodes - 1)` indices, the size the source allocates. |
| `MeshLayout.JoinRings` | src/GrowerShape.cpp:326-336 | A mesh node's quads join the parent's sub-ring for it to its own first ring. |
| `MeshLayout.PieceInBuffer` | src/GrowerShape.cpp:326-336 | Every quad corner of a node is a vertex of the buffer. |
| `MeshLayout.QuadsInBuffer` | src/GrowerShape.cpp:329-330 | Every index of the mesh lies in the vertex buffer, so the range assertions hold. |
| `MeshLayout.EmitBand` | src/GrowerShape.cpp:328-336 | The `ts` quads between the two rings are appended at the write offset, which advances by `4 * ts`. |
| `MeshLayout.WriteQuad` | src/GrowerShape.cpp:332-335 | Four writes append the quad after what was written before. |
| `MeshLayout.EmitJoin` | src/GrowerShape.cpp:317-337 | One mesh node's band is appended after what was written. |
| `MeshLayout.EmitQuads` | src/GrowerShape.cpp:309-338 | The buffer of `4 * ts * (activeNodes - 1)` indices is filled exactly with `MeshQuads`. |
| `MeshLayout.FillQuads` | src/GrowerShape.cpp:312-338 | The loop over the nodes fills a buffer of exactly the right size with `MeshQuads`. |
| `MeshLayout.EmitNode` | src/GrowerShape.cpp:313-337 | A node with offset -1 adds nothing; a mesh node adds its band. |
| `MeshLayout.PolygonCounts` | src/GrowerShape.cpp:340-343 | One count of 4 per quad. |
| `MeshLayout.CreateMesh` | src/GrowerShape.cpp:210-348 | There is no output when there are no mesh nodes or no sections. Otherwise there are `ts` vertices per ring and `ts` quads per mesh node but the root. Every index lies in the vertex buffer, and there is one count of 4 per quad. |
| `MeshLayout.BuildBuffers` | src/GrowerShape.cpp:221-338 | Marking, laying out and filling give the vertex count and the index buffer `MeshQuads`, of the size the source allocates. |
| `GrowerShape.RunningMax` | src/GrowerShape.cpp:455-461 | The running maximum started at 0 is at least 0 and bounds every value. It is 0 or one of the values. |
| `GrowerShape.RunningMin` | src/GrowerShape.cpp:455-461 | The running minimum started at `FLT_MAX` bounds every value from below. It is `FLT_MAX` or one of the values. |
| `GrowerShape.RangeHolds` | src/GrowerShape.cpp:462-463 | Every value lies in the adjusted range, which is at least `1e-8` wide. |
| `GrowerShape.InRange` | src/GrowerShape.cpp:462-463 | One value lies in the range, and the range is not empty. |
| `GrowerShape.RangeOfNonNegative` | src/GrowerShape.cpp:455-463 | For the non-empty, non-negative values the walk leaves, the low end of the range and the running maximum that sets its high end are both values of the array, so neither the FLT_MAX start nor the 0 start survives. |
| `GrowerShape.Clamp01` | src/GrowerShape.cpp:470 | The clamp keeps values of [0, 1], sends negatives to 0 and values above 1 to 1. |
| `GrowerShape.NormalisedBounds` | src/GrowerShape.cpp:466 | A value in the range normalises into [0, 1). |
| `GrowerShape.NormalisedMono` | src/GrowerShape.cpp:466 | Normalisation keeps the order of values. |
| `GrowerShape.NormalisedInUnit` | src/GrowerShape.cpp:462-466 | Every value of the array normalises into [0, 1). |
| `GrowerShape.UnclampedForSmallScale` | src/GrowerShape.cpp:466-470 | With a scale in [0, 1] the clamp never bites. The curve is read at one minus the scaled value, in (0, 1]. |
| `GrowerShape.CurveUnclamped` | src/GrowerShape.cpp:466-470 | The same for a single value in the range. |
| `GrowerShape.ThinnestReadsOne` | src/GrowerShape.cpp:466-470 | The thinnest value reads the curve at 1, whatever the scale. |
| `GrowerShape.ThickerReadsLower` | src/GrowerShape.cpp:466-470 | With a non-negative scale, a thicker value reads the curve no further along than a thinner one. |
| `GrowerShape.CurveAntitone` | src/GrowerShape.cpp:466-470 | The curve position is antitone in the value for a non-negative scale. |
| `GrowerShape.ValueRange` | src/GrowerShape.cpp:455-463 | The loop yields the lower and upper ends of the range of the array's values. |
| `GrowerShape.Remap` | src/GrowerShape.cpp:465-472 | Every value is replaced by the curve's value at its clamped position. |
| `GrowerShape.Normalise` | src/GrowerShape.cpp:455-472 | The values are normalised by their own range and read through the curve. |
| `GrowerShape.Smooth` | src/GrowerShape.cpp:421-453 | The array takes the values of the smoothing stand-in applied to what it held. |
| `GrowerShape.CalculateThickness` | src/GrowerShape.cpp:350-475 | The count is the number of mesh nodes. Each value is the curve read at the position of its node's `Forced` value (base 1), after smoothing, within the range of all those values. |
| `GrowerShape.BuildMesh` | src/GrowerShape.cpp:196-197 | Given the count of mesh nodes, `CreateMesh`'s three outputs are gathered into a `Mesh` that satisfies `TubeMesh`. |
| `GrowerShape.Compute` | src/GrowerShape.cpp:157-208 | There is no mesh exactly when the skeleton is empty. Otherwise the mesh is the forward-wound tube mesh over the mesh nodes, and the thickness is as in `CalculateThickness`. |
| `LegacyShape.CalculateThicknessAsWritten` | Grower/MesherNode.cpp:406-509 | For a positive base: the count of mesh nodes, and the smoothed `Forced` values. For a base of zero or less: the root's count alone, and the smoothed `ForcedFlat` values. |
| `LegacyShape.ZeroBaseMiscounts` | Grower/MesherNode.cpp:430-438 | On a root with one leaf and base 0, the as-written count is 1 while two nodes are in the mesh. The index buffer is sized for no quads, but the quad loop writes `4 * ts` indices. |
| `LegacyShape.CalculateThickness` | Grower/MesherNode.cpp:406-509 | For every base of zero or more, the count is the number of mesh nodes and the values are the smoothed `Forced` values for that base. |
| `LegacyShape.CorrectedAgreesForPositiveBase` | Grower/MesherNode.cpp:406-472 | For a positive base the corrected values are those of a walk with the user's base. |
| `LegacyShape.ZeroBaseValues` | Grower/MesherNode.cpp:448-456 | For a base of zero, every corrected value is 0 except the forced branch ends of the mesh. |
| `LegacyShape.Compute` | Grower/MesherNode.cpp:213-264 | There is no mesh exactly when the skeleton is empty. Otherwise the mesh is the reverse-wound tube mesh, and the thickness is the corrected one for the user's base. |

## Left out

- Maya plumbing is not modelled: plugs, attributes, data handles, `MFnMesh` creation, node registration, and the UI and draw code. The geometry data's type id and name are left out too.
- The kd-tree neighbour search is a parameter `query` with the contract `KnnContract`: at most k results, each a point within the radius. Its construction, its ordering of results and its failure to initialise (lines 343-346 of src/GrowerNode.cpp) are left out.
- Floating-point arithmetic is modelled on reals. The model therefore leaves out:
  - rounding and overflow;
  - the `1e-1f` and `1e-8f` literals as exact decimals;
  - `sqrtf`, taken as an exact square root through `IsSqrt`.
- Vector geometry is given as parameters of `Geometry`: the distance, the growth step towards the claimed points' normalised directions (lines 479-495), the 45-degree bend test and the near-zero normal test. So are the ring vertex coordinates of `CreateMesh`: the thickest-child axis, the frame, the `cos`/`sin` ring and the matrix transform (lines 252-299 of src/GrowerShape.cpp). The model keeps the vertex count and the index values, not the coordinates.
- The world-to-local matrix applied to the seed position (lines 120-123 of src/GrowerNode.cpp) is left out: the seed is given already transformed.
- The smoothing pass (src/GrowerShape.cpp:421-453, Grower/MesherNode.cpp:474-506) is a parameter `smooth`, applied when it keeps the length. The model says nothing about what the pass computes.
- The thickness curve (`MRampAttribute::getValueAtPosition`) is a parameter `remap`.
- The debug-only sample preview (`GROWER_DISPLAY_DEBUG_INFO`) is left out, and so is the reactivation of the attractors after the loop (lines 555-558 of src/GrowerNode.cpp). That loop only feeds the debug preview.
- Growth.Grow: the number of rounds is bounded by a `fuel` parameter, and a run that exhausts it reports `OutOfFuel`. A round that could create a node index at or above 2^30 stops with `TooManyNodes`, because the 31-bit parent field would no longer tell it from the sentinel. The source has neither bound.
- Growth.Grow: it states that the result is well formed, rooted at the seed and grown one step from each parent towards claimed points, then finished by the normal and bend pass. It does not state the exact tree as a function of the input, nor that a replayed run reproduces the recorded one. Both would need a functional model of the whole loop, including the order in which swap-removal leaves the alive list and the children lists; the model states each round's result instead (`Growth.Iterate`).
- Growth.Grow: it requires an empty skeleton. Its only caller clears the nodes first (line 159 of src/GrowerNode.cpp).
- Growth.ClaimStep: a replay whose recorded entry is missing or names nodes or points that do not exist ends the run with `CacheMismatch`. The source reads past its arrays there. One case is a replaying run whose cache runs out. Its fresh round appends affected and closest entries but no banned entry (lines 468-471 push one only while recording). It also leaves `iterationCount` unchanged. So the next round of the same run replays that new entry and reads the banned record out of range.
- Growth.ClaimStep: a fresh round whose inherited claim table is shorter than the points always reports `CacheMismatch`. The source reads out of range only when the search returns a point beyond the table.
- Growth.SpawnAndKill: the kept nodes are given by membership: kept exactly when not dropped. Their order, which swap-removal decides, is not given as a function of the alive list.
- Growth.Iterate: the same holds for the kept nodes of a round, and so for the order of the next alive list.
- Growth.ClaimStep: the claim distances are not replayed from the cache; the source does not record them either.
- The node count handed to the search is `size_t`. A negative `maxNeighbors` is modelled as asking for no neighbours; the search wrapper that would receive it is not part of this model.
- `UINT_MAX` as "no claim" and `FLT_MAX` as the starting claim distance are kept as constants. The model does not model 32-bit wrap-around of point or node indices beyond the parent field.
- GrowerCompute.Compute: a cleared bounding box (no attraction points) is taken to have extent 0. This assumption about Maya's `MBoundingBox` is made for that case only.
- The tube section count is a `nat`: a negative `tubeSections` attribute (the attribute's minimum is 3) is not modelled.
- LegacyShape.CalculateThickness: it requires a base of zero or more, the attribute's minimum (Grower/MesherNode.cpp:550).

## Findings

| source | as written | input that shows it | evidently intended | confidence | as-written member | corrected member |
|---|---|---|---|---|---|---|
| Grower/MesherNode.cpp:432 | The readiness test `thickness >= baseThickness` tells computed children from zeroed ones only for a positive base. With base 0, which the attribute allows, the root counts as ready at once, and `activeNodes` is 1 whatever the tree. | A root with one untrimmed leaf child, base thickness 0, any `tubeSections > 0`. The count is 1, so the index buffer has room for `4 * tubeSections * 0` indices, yet the quad loop (lines 368-392) writes `4 * tubeSections` of them. | The count is that of all mesh nodes (2 here), and every node's thickness follows the branch rule for the given base. | not executed | `LegacyShape.CalculateThicknessAsWritten`, `LegacyShape.ZeroBaseMiscounts` | `LegacyShape.CalculateThickness` |
