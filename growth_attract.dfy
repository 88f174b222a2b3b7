/**
  The attraction step of the space-colonisation loop in `Grower::Grow`: every
  alive node asks the k-nearest-neighbour search for attraction points within
  the search radius, and each active point it finds is listed as affected and
  claimed by the closest alive node seen so far.

  Geometry stays abstract: positions are opaque, distances come from a given
  function, and the neighbour search is an oracle whose results obey the
  bounds the source asserts.
 */
module GrowthAttract {

  import opened Seqs
  import opened Skeleton

  /** `UINT_MAX`, the claim of an attraction point nobody has claimed yet. */
  const UINT_MAX: nat := 0xFFFF_FFFF

  /** `FLT_MAX`, the initial claim distance of every attraction point. */
  const FLT_MAX: real := 340282346638528859811704183484516925440.0

  /**
    The geometric operations the growth engine needs, left uninterpreted:
    `dist` is `distanceTo`, `step` is the position of the node grown from a
    position towards a list of attraction points by a distance, `sharp` is
    "the bend parent -> node -> child exceeds 45 degrees", `nearZero` is
    `isEquivalent(zero, 0.001)`.
   */
  datatype Geometry = Geometry(
    dist: (Vec3, Vec3) -> real,
    step: (Vec3, seq<Vec3>, real) -> Vec3,
    sharp: (Vec3, Vec3, Vec3) -> bool,
    nearZero: Vec3 -> bool)

  /** The neighbour search: centre, radius and maximum count give point indices. */
  type Knn = (Vec3, real, nat) -> seq<nat>

  /**
    What the growth engine relies on from the search: at most `k` results,
    each an index of `points` within `radius` of the centre.
   */
  ghost predicate KnnContract(query: Knn, points: seq<Vec3>, dist: (Vec3, Vec3) -> real)
  {
    forall c, radius, k {:trigger query(c, radius, k)} ::
      && |query(c, radius, k)| <= k
      && forall j :: 0 <= j < |query(c, radius, k)| ==>
           query(c, radius, k)[j] < |points| && dist(points[query(c, radius, k)[j]], c) <= radius
  }

  /** The search results are indices of `points`. */
  lemma KnnBelow(query: Knn, points: seq<Vec3>, dist: (Vec3, Vec3) -> real, c: Vec3, radius: real, k: nat)
    requires KnnContract(query, points, dist)
    ensures AllBelow(query(c, radius, k), |points|)
    ensures |query(c, radius, k)| <= k
  {
    var q := query(c, radius, k);
    assert forall j :: 0 <= j < |q| ==> q[j] < |points|;
  }

  /** The round's affected list with the claim table (`closestNode`) and claim distances. */
  datatype Claims = Claims(affected: seq<nat>, closest: seq<nat>, distance: seq<real>)

  predicate Sized(c: Claims, n: nat)
  {
    |c.closest| == n && |c.distance| == n
  }

  /**
    Alive node `a`, at distance `d`, finds attraction point `n`: an inactive
    point is skipped; an active one is listed once and claimed by `a` when it is
    unclaimed, or when `a` is a different node strictly closer than the claim.
   */
  function ClaimOne(c: Claims, active: seq<bool>, a: nat, n: nat, d: real): (r: Claims)
    requires Sized(c, |active|) && n < |active|
    ensures Sized(r, |active|)
  {
    if !active[n] then c
    else
      var listed := Inserted(c.affected, n);
      if c.closest[n] == UINT_MAX then Claims(listed, c.closest[n := a], c.distance[n := d])
      else if c.closest[n] != a && d < c.distance[n] then Claims(listed, c.closest[n := a], c.distance[n := d])
      else Claims(listed, c.closest, c.distance)
  }

  /** The inner loop over the points `ns` found by alive node `a` at position `apos`. */
  function ClaimFound(c: Claims, active: seq<bool>, points: seq<Vec3>, dist: (Vec3, Vec3) -> real,
                      a: nat, apos: Vec3, ns: seq<nat>): (r: Claims)
    requires Sized(c, |active|) && |points| == |active| && AllBelow(ns, |points|)
    ensures Sized(r, |active|)
    decreases |ns|
  {
    if ns == [] then c
    else
      var n := ns[|ns| - 1];
      ClaimOne(ClaimFound(c, active, points, dist, a, apos, ns[..|ns| - 1]), active, a, n, dist(apos, points[n]))
  }

  /** The outer loop over the alive nodes, each querying within `radius` for at most `k` points. */
  function ClaimRound(c: Claims, active: seq<bool>, nodes: seq<GrowerNode>, points: seq<Vec3>,
                      dist: (Vec3, Vec3) -> real, query: Knn, radius: real, k: nat, alive: seq<nat>): (r: Claims)
    requires Sized(c, |active|) && |points| == |active| && AllBelow(alive, |nodes|)
    requires KnnContract(query, points, dist)
    ensures Sized(r, |active|)
    decreases |alive|
  {
    if alive == [] then c
    else
      var a := alive[|alive| - 1];
      var pos := nodes[a].pos;
      KnnBelow(query, points, dist, pos, radius, k);
      ClaimFound(ClaimRound(c, active, nodes, points, dist, query, radius, k, alive[..|alive| - 1]),
                 active, points, dist, a, pos, query(pos, radius, k))
  }

  /** Every claim is a node index or the unclaimed marker. */
  predicate ClosestValid(closest: seq<nat>, numNodes: nat)
  {
    forall n :: 0 <= n < |closest| ==> closest[n] == UINT_MAX || closest[n] < numNodes
  }

  /** The affected list holds distinct, active, claimed attraction points. */
  predicate ClaimsValid(c: Claims, active: seq<bool>, numNodes: nat)
    requires Sized(c, |active|)
  {
    && Distinct(c.affected)
    && AllBelow(c.affected, |active|)
    && (forall k :: 0 <= k < |c.affected| ==> active[c.affected[k]] && c.closest[c.affected[k]] != UINT_MAX)
    && ClosestValid(c.closest, numNodes)
  }

  /**
    From `c0` to `c`: the affected list only grew at its end; inactive points
    are untouched; and a claim that changed now belongs to one of `owners` and
    was either unclaimed or is now strictly closer.
   */
  ghost predicate Moved(c0: Claims, c: Claims, active: seq<bool>, owners: seq<nat>)
    requires Sized(c0, |active|) && Sized(c, |active|)
  {
    && |c0.affected| <= |c.affected| && c.affected[..|c0.affected|] == c0.affected
    && (forall n :: 0 <= n < |active| && !active[n] ==>
          c.closest[n] == c0.closest[n] && c.distance[n] == c0.distance[n] && (n in c.affected <==> n in c0.affected))
    && (forall n :: 0 <= n < |active| && (c.closest[n] != c0.closest[n] || c.distance[n] != c0.distance[n]) ==>
          c.closest[n] in owners && (c0.closest[n] == UINT_MAX || c.distance[n] < c0.distance[n]))
  }

  lemma ClaimOneFacts(c: Claims, active: seq<bool>, a: nat, n: nat, d: real, numNodes: nat)
    requires Sized(c, |active|) && n < |active| && ClaimsValid(c, active, numNodes)
    requires a < numNodes <= INVALID_PARENT
    ensures ClaimsValid(ClaimOne(c, active, a, n, d), active, numNodes)
    ensures Moved(c, ClaimOne(c, active, a, n, d), active, [a])
    ensures active[n] ==> n in ClaimOne(c, active, a, n, d).affected
    ensures forall x :: x in ClaimOne(c, active, a, n, d).affected ==> x in c.affected || x == n
  {
    var r := ClaimOne(c, active, a, n, d);
    InsertedFacts(c.affected, n);
    if active[n] {
      assert r.affected == Inserted(c.affected, n);
      assert r.closest[n] != UINT_MAX;
      forall k | 0 <= k < |r.affected|
        ensures active[r.affected[k]] && r.closest[r.affected[k]] != UINT_MAX
      {
        if k < |c.affected| {
          assert r.affected[k] == c.affected[k];
        }
      }
    }
  }

  lemma MovedTrans(c0: Claims, c1: Claims, c2: Claims, active: seq<bool>, o1: seq<nat>, o2: seq<nat>, o: seq<nat>, numNodes: nat)
    requires Sized(c0, |active|) && Sized(c1, |active|) && Sized(c2, |active|)
    requires Moved(c0, c1, active, o1) && Moved(c1, c2, active, o2)
    requires AllBelow(o1, numNodes) && numNodes <= INVALID_PARENT
    requires forall x :: x in o1 ==> x in o
    requires forall x :: x in o2 ==> x in o
    ensures Moved(c0, c2, active, o)
  {
    assert c2.affected[..|c0.affected|] == c2.affected[..|c1.affected|][..|c0.affected|];
    forall n | 0 <= n < |active| && (c2.closest[n] != c0.closest[n] || c2.distance[n] != c0.distance[n])
      ensures c2.closest[n] in o && (c0.closest[n] == UINT_MAX || c2.distance[n] < c0.distance[n])
    {
      if c1.closest[n] != c0.closest[n] || c1.distance[n] != c0.distance[n] {
        var k :| 0 <= k < |o1| && o1[k] == c1.closest[n];
        assert c1.closest[n] != UINT_MAX;
      }
    }
  }

  /** The inner loop keeps the claims valid, gives the new claims to `a`, and lists every active point found. */
  lemma {:induction false} ClaimFoundFacts(c: Claims, active: seq<bool>, points: seq<Vec3>, dist: (Vec3, Vec3) -> real,
                                           a: nat, apos: Vec3, ns: seq<nat>, numNodes: nat)
    requires Sized(c, |active|) && |points| == |active| && AllBelow(ns, |points|)
    requires ClaimsValid(c, active, numNodes) && a < numNodes <= INVALID_PARENT
    ensures ClaimsValid(ClaimFound(c, active, points, dist, a, apos, ns), active, numNodes)
    ensures Moved(c, ClaimFound(c, active, points, dist, a, apos, ns), active, [a])
    ensures forall j :: 0 <= j < |ns| && active[ns[j]] ==> ns[j] in ClaimFound(c, active, points, dist, a, apos, ns).affected
    ensures forall x :: x in ClaimFound(c, active, points, dist, a, apos, ns).affected ==> x in c.affected || x in ns
    decreases |ns|
  {
    if ns != [] {
      var init := ns[..|ns| - 1];
      var n := ns[|ns| - 1];
      var mid := ClaimFound(c, active, points, dist, a, apos, init);
      var r := ClaimFound(c, active, points, dist, a, apos, ns);
      ClaimFoundFacts(c, active, points, dist, a, apos, init, numNodes);
      ClaimOneFacts(mid, active, a, n, dist(apos, points[n]), numNodes);
      MovedTrans(c, mid, r, active, [a], [a], [a], numNodes);
      forall j | 0 <= j < |ns| && active[ns[j]]
        ensures ns[j] in r.affected
      {
        if j < |init| {
          assert ns[j] == init[j];
          assert ns[j] in mid.affected;
          var m :| 0 <= m < |mid.affected| && mid.affected[m] == ns[j];
          assert r.affected[m] == mid.affected[m];
        }
      }
      forall x | x in r.affected
        ensures x in c.affected || x in ns
      {
        if x in mid.affected && x !in c.affected {
          var m :| 0 <= m < |init| && init[m] == x;
          assert ns[m] == x;
        }
      }
    }
  }

  /** Is `x` among the points the alive node at position `i` of `alive` found? */
  ghost predicate FoundBy(nodes: seq<GrowerNode>, query: Knn, radius: real, k: nat, alive: seq<nat>, x: nat)
    requires AllBelow(alive, |nodes|)
  {
    exists i :: 0 <= i < |alive| && x in query(nodes[alive[i]].pos, radius, k)
  }

  /** One attraction round keeps the claims valid and moves claims only to its alive nodes. */
  lemma {:induction false} ClaimRoundValid(c: Claims, active: seq<bool>, nodes: seq<GrowerNode>, points: seq<Vec3>,
                                           dist: (Vec3, Vec3) -> real, query: Knn, radius: real, k: nat, alive: seq<nat>)
    requires Sized(c, |active|) && |points| == |active| && AllBelow(alive, |nodes|)
    requires KnnContract(query, points, dist)
    requires ClaimsValid(c, active, |nodes|) && |nodes| <= INVALID_PARENT
    ensures ClaimsValid(ClaimRound(c, active, nodes, points, dist, query, radius, k, alive), active, |nodes|)
    ensures Moved(c, ClaimRound(c, active, nodes, points, dist, query, radius, k, alive), active, alive)
    decreases |alive|
  {
    if alive != [] {
      var init := alive[..|alive| - 1];
      var a := alive[|alive| - 1];
      var pos := nodes[a].pos;
      KnnBelow(query, points, dist, pos, radius, k);
      var mid := ClaimRound(c, active, nodes, points, dist, query, radius, k, init);
      var r := ClaimFound(mid, active, points, dist, a, pos, query(pos, radius, k));
      ClaimRoundValid(c, active, nodes, points, dist, query, radius, k, init);
      ClaimFoundFacts(mid, active, points, dist, a, pos, query(pos, radius, k), |nodes|);
      forall x | x in init
        ensures x in alive
      {
        var m :| 0 <= m < |init| && init[m] == x;
        assert alive[m] == x;
      }
      MovedTrans(c, mid, r, active, init, [a], alive, |nodes|);
    }
  }

  /** Every active point some alive node found ends up in the affected list. */
  lemma {:induction false} ClaimRoundLists(c: Claims, active: seq<bool>, nodes: seq<GrowerNode>, points: seq<Vec3>,
                                           dist: (Vec3, Vec3) -> real, query: Knn, radius: real, k: nat, alive: seq<nat>)
    requires Sized(c, |active|) && |points| == |active| && AllBelow(alive, |nodes|)
    requires KnnContract(query, points, dist)
    requires ClaimsValid(c, active, |nodes|) && |nodes| <= INVALID_PARENT
    ensures forall x :: 0 <= x < |active| && active[x] && FoundBy(nodes, query, radius, k, alive, x) ==>
      x in ClaimRound(c, active, nodes, points, dist, query, radius, k, alive).affected
    decreases |alive|
  {
    if alive != [] {
      var init := alive[..|alive| - 1];
      var a := alive[|alive| - 1];
      var pos := nodes[a].pos;
      var ns := query(pos, radius, k);
      KnnBelow(query, points, dist, pos, radius, k);
      var mid := ClaimRound(c, active, nodes, points, dist, query, radius, k, init);
      var r := ClaimFound(mid, active, points, dist, a, pos, ns);
      ClaimRoundValid(c, active, nodes, points, dist, query, radius, k, init);
      ClaimRoundLists(c, active, nodes, points, dist, query, radius, k, init);
      ClaimFoundFacts(mid, active, points, dist, a, pos, ns, |nodes|);
      forall x | 0 <= x < |active| && active[x] && FoundBy(nodes, query, radius, k, alive, x)
        ensures x in r.affected
      {
        var i :| 0 <= i < |alive| && x in query(nodes[alive[i]].pos, radius, k);
        if i < |init| {
          assert init[i] == alive[i];
          assert FoundBy(nodes, query, radius, k, init, x);
          var m :| 0 <= m < |mid.affected| && mid.affected[m] == x;
          assert r.affected[m] == x;
        } else {
          var j :| 0 <= j < |ns| && ns[j] == x;
        }
      }
    }
  }

  /** The affected list holds only points some alive node found. */
  lemma {:induction false} ClaimRoundOnlyFound(c: Claims, active: seq<bool>, nodes: seq<GrowerNode>, points: seq<Vec3>,
                                               dist: (Vec3, Vec3) -> real, query: Knn, radius: real, k: nat, alive: seq<nat>)
    requires Sized(c, |active|) && |points| == |active| && AllBelow(alive, |nodes|)
    requires KnnContract(query, points, dist)
    requires ClaimsValid(c, active, |nodes|) && |nodes| <= INVALID_PARENT
    ensures forall x :: x in ClaimRound(c, active, nodes, points, dist, query, radius, k, alive).affected ==>
      x in c.affected || FoundBy(nodes, query, radius, k, alive, x)
    decreases |alive|
  {
    if alive != [] {
      var init := alive[..|alive| - 1];
      var a := alive[|alive| - 1];
      var pos := nodes[a].pos;
      var ns := query(pos, radius, k);
      KnnBelow(query, points, dist, pos, radius, k);
      var mid := ClaimRound(c, active, nodes, points, dist, query, radius, k, init);
      var r := ClaimFound(mid, active, points, dist, a, pos, ns);
      ClaimRoundValid(c, active, nodes, points, dist, query, radius, k, init);
      ClaimRoundOnlyFound(c, active, nodes, points, dist, query, radius, k, init);
      ClaimFoundFacts(mid, active, points, dist, a, pos, ns, |nodes|);
      forall x | x in r.affected
        ensures x in c.affected || FoundBy(nodes, query, radius, k, alive, x)
      {
        if x in mid.affected {
          if x !in c.affected {
            var i :| 0 <= i < |init| && x in query(nodes[init[i]].pos, radius, k);
            assert alive[i] == init[i];
          }
        } else {
          assert x in ns;
          assert alive[|alive| - 1] == a;
        }
      }
    }
  }

  /**
    One attraction round (lines 413-452), started from an empty affected list:
    the claims stay valid, every change of claim goes to an alive node that is
    strictly closer (or claims an unclaimed point), inactive points are
    untouched, and the affected list is exactly the active points some alive
    node found, each once.
   */
  lemma ClaimRoundFacts(closest: seq<nat>, distance: seq<real>, active: seq<bool>, nodes: seq<GrowerNode>, points: seq<Vec3>,
                        dist: (Vec3, Vec3) -> real, query: Knn, radius: real, k: nat, alive: seq<nat>)
    requires |closest| == |active| && |distance| == |active| && |points| == |active| && AllBelow(alive, |nodes|)
    requires KnnContract(query, points, dist)
    requires ClosestValid(closest, |nodes|) && |nodes| <= INVALID_PARENT
    ensures ClaimsValid(ClaimRound(Claims([], closest, distance), active, nodes, points, dist, query, radius, k, alive), active, |nodes|)
    ensures Moved(Claims([], closest, distance), ClaimRound(Claims([], closest, distance), active, nodes, points, dist, query, radius, k, alive), active, alive)
    ensures forall x :: 0 <= x < |active| ==>
      (x in ClaimRound(Claims([], closest, distance), active, nodes, points, dist, query, radius, k, alive).affected
       <==> active[x] && FoundBy(nodes, query, radius, k, alive, x))
  {
    var c := Claims([], closest, distance);
    var r := ClaimRound(c, active, nodes, points, dist, query, radius, k, alive);
    ClaimRoundValid(c, active, nodes, points, dist, query, radius, k, alive);
    ClaimRoundLists(c, active, nodes, points, dist, query, radius, k, alive);
    ClaimRoundOnlyFound(c, active, nodes, points, dist, query, radius, k, alive);
    forall x | 0 <= x < |active| && x in r.affected
      ensures active[x]
    {
      var m :| 0 <= m < |r.affected| && r.affected[m] == x;
    }
  }

  /** Lines 433-450 for one point `neighbor` found by `aliveNode` at `pos`. */
  method ClaimPoint(points: seq<Vec3>, active: seq<bool>, geo: Geometry, aliveNode: nat, pos: Vec3, neighbor: nat,
                    affected0: seq<nat>, closest0: seq<nat>, distance0: seq<real>)
    returns (affected: seq<nat>, closest: seq<nat>, distance: seq<real>)
    requires |active| == |points| && |closest0| == |points| && |distance0| == |points| && neighbor < |points|
    ensures Claims(affected, closest, distance) ==
      ClaimOne(Claims(affected0, closest0, distance0), active, aliveNode, neighbor, geo.dist(pos, points[neighbor]))
  {
    affected, closest, distance := affected0, closest0, distance0;
    if !active[neighbor] {
      return;
    }
    affected := InsertUnique(affected, neighbor);
    if closest[neighbor] != UINT_MAX {
      if closest[neighbor] != aliveNode {
        var dist := geo.dist(pos, points[neighbor]);
        if dist < distance[neighbor] {
          closest := closest[neighbor := aliveNode];
          distance := distance[neighbor := dist];
        }
      }
    } else {
      closest := closest[neighbor := aliveNode];
      distance := distance[neighbor := geo.dist(pos, points[neighbor])];
    }
  }

  /** The inner loop of lines 417-451 over the points `found` by `aliveNode`. */
  method ClaimFoundPoints(points: seq<Vec3>, active: seq<bool>, geo: Geometry, aliveNode: nat, pos: Vec3, found: seq<nat>,
                          affected0: seq<nat>, closest0: seq<nat>, distance0: seq<real>)
    returns (affected: seq<nat>, closest: seq<nat>, distance: seq<real>)
    requires |active| == |points| && |closest0| == |points| && |distance0| == |points| && AllBelow(found, |points|)
    ensures Claims(affected, closest, distance) ==
      ClaimFound(Claims(affected0, closest0, distance0), active, points, geo.dist, aliveNode, pos, found)
  {
    affected, closest, distance := affected0, closest0, distance0;
    var j := 0;
    while j < |found|
      invariant 0 <= j <= |found|
      invariant Claims(affected, closest, distance) ==
        ClaimFound(Claims(affected0, closest0, distance0), active, points, geo.dist, aliveNode, pos, found[..j])
    {
      assert found[..j + 1][..j] == found[..j];
      affected, closest, distance := ClaimPoint(points, active, geo, aliveNode, pos, found[j], affected, closest, distance);
      j := j + 1;
    }
    assert found[..j] == found;
  }

  /**
    The fresh branch of one iteration (lines 413-452): for each alive node in
    turn, query the neighbour search and apply the claim rule to every point it
    returns. The outcome is the claim round, whose meaning ClaimRoundFacts
    states.
   */
  method Attract(nodes: seq<GrowerNode>, points: seq<Vec3>, active: seq<bool>, closest0: seq<nat>, distance0: seq<real>,
                 geo: Geometry, query: Knn, searchRadius: real, maxNeighbors: nat, alive: seq<nat>)
    returns (affected: seq<nat>, closest: seq<nat>, distance: seq<real>)
    requires |active| == |points| && |closest0| == |points| && |distance0| == |points|
    requires AllBelow(alive, |nodes|) && KnnContract(query, points, geo.dist)
    ensures Claims(affected, closest, distance) ==
      ClaimRound(Claims([], closest0, distance0), active, nodes, points, geo.dist, query, searchRadius, maxNeighbors, alive)
  {
    affected, closest, distance := [], closest0, distance0;
    var i := 0;
    while i < |alive|
      invariant 0 <= i <= |alive|
      invariant Claims(affected, closest, distance) ==
        ClaimRound(Claims([], closest0, distance0), active, nodes, points, geo.dist, query, searchRadius, maxNeighbors, alive[..i])
    {
      var aliveNode := alive[i];
      var pos := nodes[aliveNode].pos;
      var found := query(pos, searchRadius, maxNeighbors);
      KnnBelow(query, points, geo.dist, pos, searchRadius, maxNeighbors);
      assert alive[..i + 1][..i] == alive[..i];
      affected, closest, distance := ClaimFoundPoints(points, active, geo, aliveNode, pos, found, affected, closest, distance);
      i := i + 1;
    }
    assert alive[..i] == alive;
  }
}
