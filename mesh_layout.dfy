/**
  The tube mesh laid over the skeleton, as both CreateMesh variants build it
  (src/GrowerShape.cpp, lines 210-346, and Grower/MesherNode.cpp, lines
  266-402): which nodes take part, where each node's rings sit in the vertex
  buffer, and the quads that join each node's first ring to its sub-ring in
  its parent. The ring coordinates are not modelled; only the buffer layout
  and the index values are.
 */
module MeshLayout {

  import opened Seqs
  import opened Skeleton

  /** `trimmStatus_e`: the per-node mark of the forward pass. */
  datatype TrimStatus = Unvisited | Trimmed | Active

  /** The two quad orientations: src/GrowerShape.cpp winds forward, Grower/MesherNode.cpp the other way. */
  datatype Winding = Forward | Reverse

  /* ---------- which nodes take part ---------- */

  /** `a` is `i` itself or one of its ancestors. */
  ghost predicate AncestorOrSelf(nodes: seq<GrowerNode>, a: nat, i: nat)
    requires WellFormed(nodes) && i < |nodes|
    decreases i
  {
    a == i || (i != 0 && AncestorOrSelf(nodes, a, nodes[i].parent))
  }

  /** A node is left out of the mesh exactly when it or one of its ancestors is flagged trimmed. */
  lemma {:induction false} ExcludedIffTrimmedAncestor(nodes: seq<GrowerNode>, i: nat)
    requires WellFormed(nodes) && i < |nodes|
    ensures Excluded(nodes, i) <==> exists a: nat :: a < |nodes| && AncestorOrSelf(nodes, a, i) && nodes[a].trimmed
    decreases i
  {
    OnlyRootHasNoParent(nodes, i);
    if i != 0 {
      ExcludedIffTrimmedAncestor(nodes, nodes[i].parent);
      if Excluded(nodes, i) && !nodes[i].trimmed {
        var a: nat :| a < |nodes| && AncestorOrSelf(nodes, a, nodes[i].parent) && nodes[a].trimmed;
        assert AncestorOrSelf(nodes, a, i);
      }
    } else {
      if Excluded(nodes, 0) {
        assert AncestorOrSelf(nodes, 0, 0);
      }
    }
  }

  /** The root is an ancestor of every node. */
  lemma {:induction false} RootIsAncestor(nodes: seq<GrowerNode>, i: nat)
    requires WellFormed(nodes) && i < |nodes|
    ensures AncestorOrSelf(nodes, 0, i)
    decreases i
  {
    if i != 0 {
      RootIsAncestor(nodes, nodes[i].parent);
    }
  }

  /** A trimmed root leaves every node out of the mesh, so it has no active node. */
  lemma TrimmedRootExcludesAll(nodes: seq<GrowerNode>)
    requires WellFormed(nodes)
    ensures nodes[0].trimmed ==> (forall i :: 0 <= i < |nodes| ==> Excluded(nodes, i)) && ActiveBelow(nodes, |nodes|) == {}
  {
    if nodes[0].trimmed {
      forall i | 0 <= i < |nodes|
        ensures Excluded(nodes, i)
      {
        RootIsAncestor(nodes, i);
        ExcludedIffTrimmedAncestor(nodes, i);
      }
    }
  }

  /** The number of mesh nodes below index `n`. */
  function ActiveCount(nodes: seq<GrowerNode>, n: nat): nat
    requires WellFormed(nodes) && n <= |nodes|
  {
    if n == 0 then 0 else ActiveCount(nodes, n - 1) + (if Excluded(nodes, n - 1) then 0 else 1)
  }

  /** The running count is the size of the set of mesh nodes. */
  lemma {:induction false} ActiveCountIsSize(nodes: seq<GrowerNode>, n: nat)
    requires WellFormed(nodes) && n <= |nodes|
    ensures ActiveCount(nodes, n) == |ActiveBelow(nodes, n)|
  {
    if n != 0 {
      ActiveCountIsSize(nodes, n - 1);
      if Excluded(nodes, n - 1) {
        assert ActiveBelow(nodes, n) == ActiveBelow(nodes, n - 1);
      } else {
        assert ActiveBelow(nodes, n) == ActiveBelow(nodes, n - 1) + {n - 1};
      }
    }
  }

  /** The running count never decreases, and it counts the root first when the root takes part. */
  lemma {:induction false} ActiveCountMono(nodes: seq<GrowerNode>, m: nat, n: nat)
    requires WellFormed(nodes) && m <= n <= |nodes|
    ensures ActiveCount(nodes, m) <= ActiveCount(nodes, n)
    decreases n
  {
    if m < n {
      ActiveCountMono(nodes, m, n - 1);
    }
  }

  /**
    Lines 224-240 of src/GrowerShape.cpp: one forward pass marks each node,
    relying on every parent being marked before its children; the nodes that
    stay are counted by their rings, `max(1, children)` each.
   */
  method MarkExcluded(nodes: seq<GrowerNode>) returns (status: array<TrimStatus>, remaining: nat)
    requires WellFormed(nodes)
    ensures status.Length == |nodes|
    ensures forall i :: 0 <= i < |nodes| ==> status[i] == if Excluded(nodes, i) then Trimmed else Active
    ensures remaining == RingsBelow(nodes, |nodes|)
  {
    status := new TrimStatus[|nodes|](_ => Unvisited);
    remaining := 0;
    for i := 0 to |nodes|
      invariant forall k :: 0 <= k < i ==> status[k] == if Excluded(nodes, k) then Trimmed else Active
      invariant remaining == RingsBelow(nodes, i)
    {
      var trimmed := MarkNode(nodes, status, i);
      if !trimmed {
        remaining := remaining + Rings(nodes[i]);
      }
    }
  }

  /** Lines 226-236 of src/GrowerShape.cpp: mark node `i` from its own flag and its parent's mark, asserting the parent was marked. */
  method MarkNode(nodes: seq<GrowerNode>, status: array<TrimStatus>, i: nat) returns (trimmed: bool)
    modifies status
    requires WellFormed(nodes) && status.Length == |nodes| && i < |nodes|
    requires forall k :: 0 <= k < i ==> status[k] == if Excluded(nodes, k) then Trimmed else Active
    ensures trimmed == Excluded(nodes, i)
    ensures status[..] == old(status[..])[i := if trimmed then Trimmed else Active]
  {
    trimmed := nodes[i].trimmed;
    if !trimmed {
      var parent := nodes[i].parent;
      if parent != INVALID_PARENT {
        OnlyRootHasNoParent(nodes, i);
        assert status[parent] != Unvisited;
        trimmed := status[parent] != Active;
      }
    }
    status[i] := if trimmed then Trimmed else Active;
  }

  /* ---------- the vertex buffer ---------- */

  /** `max(1, children.size())`: one ring per child, and one for a leaf. */
  function Rings(node: GrowerNode): nat
  {
    if |node.children| == 0 then 1 else |node.children|
  }

  /** The rings of the mesh nodes below index `n`. */
  function RingsBelow(nodes: seq<GrowerNode>, n: nat): nat
    requires WellFormed(nodes) && n <= |nodes|
  {
    if n == 0 then 0 else RingsBelow(nodes, n - 1) + (if Excluded(nodes, n - 1) then 0 else Rings(nodes[n - 1]))
  }

  /** Earlier nodes never hold more rings than later ones, and a mesh node's rings follow those before it. */
  lemma {:induction false} RingsBelowMono(nodes: seq<GrowerNode>, m: nat, n: nat)
    requires WellFormed(nodes) && m <= n <= |nodes|
    ensures RingsBelow(nodes, m) <= RingsBelow(nodes, n)
    ensures m < n && !Excluded(nodes, m) ==> RingsBelow(nodes, m) + Rings(nodes[m]) <= RingsBelow(nodes, n)
    decreases n
  {
    if m < n {
      RingsBelowMono(nodes, m, n - 1);
    }
  }

  /** `k` blocks of `ts` vertices: the products of the layout, kept out of the solver's nonlinear arithmetic. */
  function Times(ts: nat, k: nat): nat
  {
    if k == 0 then 0 else Times(ts, k - 1) + ts
  }

  /** The blocks are the product. */
  lemma {:induction false} TimesIsMul(ts: nat, k: nat)
    ensures Times(ts, k) == ts * k
  {
    if k != 0 {
      TimesIsMul(ts, k - 1);
    }
  }

  /** The product as the source computes it, the multiplication of two counts. */
  method Multiply(ts: nat, k: nat) returns (r: nat)
    ensures r == Times(ts, k)
  {
    r := ts * k;
    TimesIsMul(ts, k);
  }

  /** Blocks of a sum are the blocks of each part. */
  lemma {:induction false} TimesAdd(ts: nat, x: nat, y: nat)
    ensures Times(ts, x + y) == Times(ts, x) + Times(ts, y)
    decreases y
  {
    if y != 0 {
      TimesAdd(ts, x, y - 1);
    }
  }

  /** One block more is `ts` vertices more. */
  lemma TimesStep(ts: nat, k: nat)
    requires 1 <= k
    ensures Times(ts, k) == Times(ts, k - 1) + ts
  {
  }

  /** More blocks are never fewer vertices. */
  lemma TimesMono(ts: nat, x: nat, y: nat)
    requires x <= y
    ensures Times(ts, x) <= Times(ts, y)
  {
    TimesAdd(ts, x, y - x);
  }

  /** Blocks of four times `ts` are four times the blocks of `ts`. */
  lemma {:induction false} TimesFour(ts: nat, k: nat)
    ensures Times(4 * ts, k) == 4 * Times(ts, k)
  {
    if k != 0 {
      TimesFour(ts, k - 1);
    }
  }

  /** A node's first vertex: -1 for a node left out, otherwise `ts` vertices for every ring of the mesh nodes before it. */
  function Offset(nodes: seq<GrowerNode>, ts: nat, i: nat): int
    requires WellFormed(nodes) && i < |nodes|
  {
    if Excluded(nodes, i) then -1 else Times(ts, RingsBelow(nodes, i))
  }

  /** The mesh nodes' ring blocks follow one another without gaps and fill the buffer exactly. */
  lemma OffsetsTile(nodes: seq<GrowerNode>, ts: nat, i: nat)
    requires WellFormed(nodes) && i < |nodes| && !Excluded(nodes, i)
    ensures 0 <= Offset(nodes, ts, i)
    ensures Offset(nodes, ts, i) + Times(ts, Rings(nodes[i])) == Times(ts, RingsBelow(nodes, i + 1))
    ensures Times(ts, RingsBelow(nodes, i + 1)) <= Times(ts, RingsBelow(nodes, |nodes|))
  {
    RingsBelowMono(nodes, i + 1, |nodes|);
    TimesMono(ts, RingsBelow(nodes, i + 1), RingsBelow(nodes, |nodes|));
    TimesAdd(ts, RingsBelow(nodes, i), Rings(nodes[i]));
  }

  /**
    Lines 244-305 of src/GrowerShape.cpp without the coordinates: a node left
    out gets -1; every other node gets the running vertex count, which then
    grows by `ts` for each of its rings.
   */
  method LayOut(nodes: seq<GrowerNode>, status: array<TrimStatus>, ts: nat) returns (offsets: array<int>, vOffset: nat)
    requires WellFormed(nodes) && status.Length == |nodes|
    requires forall i :: 0 <= i < |nodes| ==> status[i] == if Excluded(nodes, i) then Trimmed else Active
    ensures offsets.Length == |nodes|
    ensures forall i :: 0 <= i < |nodes| ==> offsets[i] == Offset(nodes, ts, i)
    ensures vOffset == Times(ts, RingsBelow(nodes, |nodes|))
  {
    offsets := new int[|nodes|];
    vOffset := 0;
    for i := 0 to |nodes|
      invariant forall k :: 0 <= k < i ==> offsets[k] == Offset(nodes, ts, k)
      invariant vOffset == Times(ts, RingsBelow(nodes, i))
    {
      if status[i] == Trimmed {
        offsets[i] := -1;
        continue;
      }
      offsets[i] := vOffset;
      TimesAdd(ts, RingsBelow(nodes, i), Rings(nodes[i]));
      var ringVertices := Multiply(ts, Rings(nodes[i]));
      vOffset := vOffset + ringVertices;
    }
  }

  /* ---------- the quads ---------- */

  /** The position of the first occurrence of `x` in `s`. */
  function IndexOf(s: seq<nat>, x: nat): (r: nat)
    requires x in s
    ensures r < |s| && s[r] == x && forall k :: 0 <= k < r ==> s[k] != x
  {
    if s[0] == x then 0 else 1 + IndexOf(s[1..], x)
  }

  /** Lines 322-327 of src/GrowerShape.cpp: the unbounded search for `i` among the parent's children. */
  method FindChild(children: seq<nat>, i: nat) returns (childIdx: nat)
    requires i in children
    ensures childIdx == IndexOf(children, i)
  {
    childIdx := 0;
    while children[childIdx] != i
      invariant childIdx <= IndexOf(children, i)
      decreases IndexOf(children, i) - childIdx
    {
      childIdx := childIdx + 1;
    }
  }

  /**
    Quad `j` between the ring starting at vertex `a` and the ring starting at
    vertex `b`: lines 332-335 of src/GrowerShape.cpp wind it forward, lines
    388-391 of Grower/MesherNode.cpp the other way round.
   */
  function Quad(a: int, b: int, ts: nat, w: Winding, j: nat): seq<int>
    requires 0 < ts
  {
    match w
    case Forward => [a + j, a + Next(j, ts), b + Next(j, ts), b + j]
    case Reverse => [a + j, b + j, b + Next(j, ts), a + Next(j, ts)]
  }

  /** The section after `j` around a ring of `ts`, wrapping to 0. */
  function Next(j: nat, ts: nat): nat
  {
    if j + 1 < ts then j + 1 else 0
  }

  /** For a section of the ring, the next one is the source's `(j + 1) % ts`. */
  lemma NextIsMod(j: nat, ts: nat)
    requires j < ts
    ensures Next(j, ts) == (j + 1) % ts
  {
  }

  /** The first `j` quads joining the two rings: index `k` is corner `k % 4` of quad `k / 4`. */
  function Band(a: int, b: int, ts: nat, w: Winding, j: nat): (r: seq<int>)
    requires 0 < ts
    ensures |r| == 4 * j
  {
    seq(4 * j, k => Quad(a, b, ts, w, if k < 0 then 0 else k / 4)[k % 4])
  }

  /** One quad more is the next quad after those before it. */
  lemma BandStep(a: int, b: int, ts: nat, w: Winding, j: nat)
    requires 0 < ts
    ensures Band(a, b, ts, w, j + 1) == Band(a, b, ts, w, j) + Quad(a, b, ts, w, j)
  {
    var r, s := Band(a, b, ts, w, j + 1), Band(a, b, ts, w, j) + Quad(a, b, ts, w, j);
    forall k | 0 <= k < 4 * j + 4
      ensures r[k] == s[k]
    {
      if k >= 4 * j {
        assert k / 4 == j && k % 4 == k - 4 * j;
      }
    }
  }

  /** The reverse winding visits each quad's corners in the opposite cyclic order, starting at the same corner. */
  lemma ReverseBand(a: int, b: int, ts: nat, j: nat)
    requires 0 < ts
    ensures forall q :: 0 <= q < j ==>
      var f, r := Band(a, b, ts, Forward, j), Band(a, b, ts, Reverse, j);
      r[4 * q] == f[4 * q] && r[4 * q + 1] == f[4 * q + 3] && r[4 * q + 2] == f[4 * q + 2] && r[4 * q + 3] == f[4 * q + 1]
  {
    forall q | 0 <= q < j
      ensures (4 * q) / 4 == q && (4 * q + 1) / 4 == q && (4 * q + 2) / 4 == q && (4 * q + 3) / 4 == q
      ensures (4 * q) % 4 == 0 && (4 * q + 1) % 4 == 1 && (4 * q + 2) % 4 == 2 && (4 * q + 3) % 4 == 3
    {
    }
  }

  /** With at least two sections and the rings apart, the four corners of a quad are four different vertices. */
  lemma QuadCornersDistinct(a: int, b: int, ts: nat, w: Winding, j: nat)
    requires 2 <= ts && j < ts && a + ts <= b
    ensures var q := Quad(a, b, ts, w, j); forall x, y :: 0 <= x < y < 4 ==> q[x] != q[y]
  {
  }

  /** Every corner of the band lies in the first ring `[a, a + ts)` or in the second `[b, b + ts)`. */
  lemma BandCorners(a: int, b: int, ts: nat, w: Winding, j: nat)
    requires 0 < ts && j <= ts
    ensures forall k :: 0 <= k < |Band(a, b, ts, w, j)| ==>
      var v := Band(a, b, ts, w, j)[k]; (a <= v < a + ts) || (b <= v < b + ts)
  {
    forall k | 0 <= k < 4 * j
      ensures var v := Band(a, b, ts, w, j)[k]; (a <= v < a + ts) || (b <= v < b + ts)
    {
      QuadInRings(a, b, ts, w, k / 4);
      assert Band(a, b, ts, w, j)[k] == Quad(a, b, ts, w, k / 4)[k % 4];
    }
  }

  /** Every corner of quad `j` lies in the first ring or in the second. */
  lemma QuadInRings(a: int, b: int, ts: nat, w: Winding, j: nat)
    requires 0 < ts && j < ts
    ensures forall c :: 0 <= c < 4 ==> var v := Quad(a, b, ts, w, j)[c]; (a <= v < a + ts) || (b <= v < b + ts)
  {
  }

  /** The parent of a mesh node other than the root is a mesh node listing it among its children. */
  lemma MeshParent(nodes: seq<GrowerNode>, i: nat)
    requires WellFormed(nodes) && 0 < i < |nodes| && !Excluded(nodes, i)
    ensures nodes[i].parent != INVALID_PARENT && nodes[i].parent < i
    ensures !Excluded(nodes, nodes[i].parent) && i in nodes[nodes[i].parent].children
  {
    OnlyRootHasNoParent(nodes, i);
    ParentListsChild(nodes, i);
  }

  /** Where the quads of node `i` start on the parent's side: the sub-ring of the parent that belongs to `i`. */
  function SubRing(nodes: seq<GrowerNode>, ts: nat, i: nat): int
    requires WellFormed(nodes) && 0 < i < |nodes| && !Excluded(nodes, i)
  {
    MeshParent(nodes, i);
    var p := nodes[i].parent;
    Offset(nodes, ts, p) + Times(ts, IndexOf(nodes[p].children, i))
  }

  /** The parent's sub-ring for `i` lies inside the parent's block, and so wholly before `i`'s own first ring. */
  lemma SubRingBefore(nodes: seq<GrowerNode>, ts: nat, i: nat)
    requires WellFormed(nodes) && 0 < i < |nodes| && !Excluded(nodes, i)
    ensures 0 <= Offset(nodes, ts, nodes[i].parent) <= SubRing(nodes, ts, i)
    ensures SubRing(nodes, ts, i) + ts <= Offset(nodes, ts, nodes[i].parent) + Times(ts, Rings(nodes[nodes[i].parent]))
    ensures SubRing(nodes, ts, i) + ts <= Offset(nodes, ts, i)
  {
    MeshParent(nodes, i);
    var p := nodes[i].parent;
    var c := IndexOf(nodes[p].children, i);
    RingsBelowMono(nodes, p, i);
    TimesAdd(ts, c, 1);
    TimesMono(ts, c + 1, Rings(nodes[p]));
    TimesAdd(ts, RingsBelow(nodes, p), Rings(nodes[p]));
    TimesMono(ts, RingsBelow(nodes, p) + Rings(nodes[p]), RingsBelow(nodes, i));
  }

  /** Every node but the root comes after its parent and is listed among the parent's children. */
  ghost predicate Linked(nodes: seq<GrowerNode>)
  {
    ParentLinks(nodes) && ParentsListChildren(nodes)
  }

  /** The vertex offsets the layout leaves behind, one per node. */
  function Offsets(nodes: seq<GrowerNode>, ts: nat): (r: seq<int>)
    requires WellFormed(nodes)
    ensures |r| == |nodes| && forall i :: 0 <= i < |nodes| ==> r[i] == Offset(nodes, ts, i)
  {
    seq(|nodes|, i requires 0 <= i < |nodes| => Offset(nodes, ts, i))
  }

  /**
    The quads joining node `i` (not the root) to its parent, read from the
    vertex offsets: the parent's sub-ring for `i` against `i`'s first ring.
   */
  function Join(nodes: seq<GrowerNode>, offsets: seq<int>, ts: nat, w: Winding, i: nat): (r: seq<int>)
    requires Linked(nodes) && |offsets| == |nodes| && 0 < ts && 0 < i < |nodes|
    ensures |r| == 4 * ts
  {
    assert ListedByParent(nodes, i);
    var p := nodes[i].parent;
    Band(offsets[p] + Times(ts, IndexOf(nodes[p].children, i)), offsets[i], ts, w, ts)
  }

  /** The quads node `i` contributes: none for the root or a node whose offset is -1, otherwise its join. */
  function NodeQuads(nodes: seq<GrowerNode>, offsets: seq<int>, ts: nat, w: Winding, i: nat): seq<int>
    requires Linked(nodes) && |offsets| == |nodes| && 0 < ts
  {
    if i == 0 || |nodes| <= i || offsets[i] == -1 then [] else Join(nodes, offsets, ts, w, i)
  }

  /** The quads of every node, in node order. */
  function Pieces(nodes: seq<GrowerNode>, offsets: seq<int>, ts: nat, w: Winding): seq<seq<int>>
    requires Linked(nodes) && |offsets| == |nodes| && 0 < ts
  {
    seq(|nodes|, i => NodeQuads(nodes, offsets, ts, w, if i < 0 then 0 else i))
  }

  /** Piece `i` is the quads of node `i`. */
  lemma PieceAt(nodes: seq<GrowerNode>, offsets: seq<int>, ts: nat, w: Winding, i: nat)
    requires Linked(nodes) && |offsets| == |nodes| && 0 < ts && i < |nodes|
    ensures Pieces(nodes, offsets, ts, w)[i] == NodeQuads(nodes, offsets, ts, w, i)
  {
  }

  /** The pieces one after another. */
  function Flatten(ps: seq<seq<int>>): seq<int>
  {
    if ps == [] then [] else Flatten(ps[..|ps| - 1]) + ps[|ps| - 1]
  }

  /** Lines 314-337 of src/GrowerShape.cpp: the index buffer holds the quads of the nodes one after another, in node order. */
  function MeshQuads(nodes: seq<GrowerNode>, offsets: seq<int>, ts: nat, w: Winding): seq<int>
    requires Linked(nodes) && |offsets| == |nodes| && 0 < ts
  {
    Flatten(Pieces(nodes, offsets, ts, w))
  }

  /** One piece more appends that piece. */
  lemma FlattenStep(ps: seq<seq<int>>, i: nat)
    requires i < |ps|
    ensures Flatten(ps[..i + 1]) == Flatten(ps[..i]) + ps[i]
  {
    assert ps[..i + 1][..i] == ps[..i];
  }

  /** A shorter prefix of the pieces never flattens to more. */
  lemma {:induction false} FlattenGrow(ps: seq<seq<int>>, m: nat, n: nat)
    requires m <= n <= |ps|
    ensures |Flatten(ps[..m])| <= |Flatten(ps[..n])|
    decreases n
  {
    if m < n {
      FlattenGrow(ps, m, n - 1);
      FlattenStep(ps, n - 1);
    }
  }

  /** When every piece keeps its values in `[lo, hi)`, so does their concatenation. */
  lemma {:induction false} FlattenWithin(ps: seq<seq<int>>, lo: int, hi: int, n: nat)
    requires n <= |ps|
    requires forall i, k :: 0 <= i < |ps| && 0 <= k < |ps[i]| ==> lo <= ps[i][k] < hi
    ensures forall k :: 0 <= k < |Flatten(ps[..n])| ==> lo <= Flatten(ps[..n])[k] < hi
  {
    if n > 0 {
      FlattenWithin(ps, lo, hi, n - 1);
      FlattenStep(ps, n - 1);
      var prev := Flatten(ps[..n - 1]);
      var cur := prev + ps[n - 1];
      forall k | 0 <= k < |cur|
        ensures lo <= cur[k] < hi
      {
        if k >= |prev| {
          assert cur[k] == ps[n - 1][k - |prev|];
        }
      }
    }
  }

  /** With the layout's offsets, exactly the mesh nodes other than the root bring quads, `ts` of them with four indices each. */
  lemma PieceLength(nodes: seq<GrowerNode>, offsets: seq<int>, ts: nat, w: Winding, i: nat)
    requires WellFormed(nodes) && 0 < ts && i < |nodes| && offsets == Offsets(nodes, ts)
    ensures |NodeQuads(nodes, offsets, ts, w, i)| == if i == 0 || Excluded(nodes, i) then 0 else 4 * ts
  {
  }

  /** Piece `i` holds `4 * ts` indices when node `i` is a mesh node other than the root, and none otherwise. */
  ghost predicate PieceLengths(nodes: seq<GrowerNode>, ts: nat, ps: seq<seq<int>>)
    requires WellFormed(nodes)
  {
    |ps| == |nodes| && forall i :: 0 <= i < |ps| ==> |ps[i]| == if i == 0 || Excluded(nodes, i) then 0 else 4 * ts
  }

  /** The layout's pieces have those lengths. */
  lemma PiecesLengths(nodes: seq<GrowerNode>, offsets: seq<int>, ts: nat, w: Winding)
    requires WellFormed(nodes) && 0 < ts && offsets == Offsets(nodes, ts)
    ensures PieceLengths(nodes, ts, Pieces(nodes, offsets, ts, w))
  {
    forall i | 0 <= i < |nodes|
      ensures |Pieces(nodes, offsets, ts, w)[i]| == if i == 0 || Excluded(nodes, i) then 0 else 4 * ts
    {
      PieceLength(nodes, offsets, ts, w, i);
    }
  }

  /** The mesh nodes other than the root below `n` bring `ts` quads each, four indices a quad. */
  lemma {:induction false} QuadsCount(nodes: seq<GrowerNode>, ts: nat, ps: seq<seq<int>>, n: nat)
    requires WellFormed(nodes) && 1 <= n <= |nodes| && !Excluded(nodes, 0) && PieceLengths(nodes, ts, ps)
    ensures ActiveCount(nodes, n) >= 1
    ensures |Flatten(ps[..n])| == Times(4 * ts, ActiveCount(nodes, n) - 1)
  {
    if n == 1 {
      FlattenStep(ps, 0);
      assert ps[..0] == [];
    } else {
      QuadsCount(nodes, ts, ps, n - 1);
      FlattenStep(ps, n - 1);
      TimesAdd(4 * ts, ActiveCount(nodes, n - 1) - 1, 1);
    }
  }

  /** With the layout's offsets the index buffer holds `ts` quads for every mesh node but the root. */
  lemma QuadsTotal(nodes: seq<GrowerNode>, offsets: seq<int>, ts: nat, w: Winding, activeNodes: nat)
    requires WellFormed(nodes) && 0 < ts && offsets == Offsets(nodes, ts) && 1 <= activeNodes == ActiveCount(nodes, |nodes|)
    ensures |MeshQuads(nodes, offsets, ts, w)| == Times(4 * ts, activeNodes - 1)
  {
    TrimmedRootExcludesAll(nodes);
    ActiveCountIsSize(nodes, |nodes|);
    var ps := Pieces(nodes, offsets, ts, w);
    PiecesLengths(nodes, offsets, ts, w);
    QuadsCount(nodes, ts, ps, |nodes|);
    assert ps[..|nodes|] == ps;
  }

  /** With the layout's offsets, a mesh node's quads join the parent's sub-ring for it to its own first ring. */
  lemma JoinRings(nodes: seq<GrowerNode>, offsets: seq<int>, ts: nat, w: Winding, i: nat)
    requires WellFormed(nodes) && 0 < ts && 0 < i < |nodes| && !Excluded(nodes, i) && offsets == Offsets(nodes, ts)
    ensures Join(nodes, offsets, ts, w, i) == Band(SubRing(nodes, ts, i), Offset(nodes, ts, i), ts, w, ts)
  {
    assert ListedByParent(nodes, i);
    var p := nodes[i].parent;
    assert offsets[p] == Offset(nodes, ts, p) && offsets[i] == Offset(nodes, ts, i);
  }

  /** Every quad corner of node `i` is a vertex of the parent's sub-ring or of the node's first ring, so inside the vertex buffer. */
  lemma PieceInBuffer(nodes: seq<GrowerNode>, offsets: seq<int>, ts: nat, w: Winding, i: nat)
    requires WellFormed(nodes) && 0 < ts && i < |nodes| && offsets == Offsets(nodes, ts)
    ensures forall k :: 0 <= k < |NodeQuads(nodes, offsets, ts, w, i)| ==>
      0 <= NodeQuads(nodes, offsets, ts, w, i)[k] < Times(ts, RingsBelow(nodes, |nodes|))
  {
    if i != 0 && !Excluded(nodes, i) {
      SubRingBefore(nodes, ts, i);
      OffsetsTile(nodes, ts, i);
      TimesMono(ts, 1, Rings(nodes[i]));
      JoinRings(nodes, offsets, ts, w, i);
      BandCorners(SubRing(nodes, ts, i), Offset(nodes, ts, i), ts, w, ts);
    }
  }

  /** Every index of the mesh lies in the vertex buffer. */
  lemma QuadsInBuffer(nodes: seq<GrowerNode>, offsets: seq<int>, ts: nat, w: Winding)
    requires WellFormed(nodes) && 0 < ts && offsets == Offsets(nodes, ts)
    ensures forall k :: 0 <= k < |MeshQuads(nodes, offsets, ts, w)| ==>
      0 <= MeshQuads(nodes, offsets, ts, w)[k] < Times(ts, RingsBelow(nodes, |nodes|))
  {
    var ps := Pieces(nodes, offsets, ts, w);
    forall i | 0 <= i < |ps|
      ensures forall k :: 0 <= k < |ps[i]| ==> 0 <= ps[i][k] < Times(ts, RingsBelow(nodes, |nodes|))
    {
      PieceInBuffer(nodes, offsets, ts, w, i);
    }
    FlattenWithin(ps, 0, Times(ts, RingsBelow(nodes, |nodes|)), |ps|);
    assert ps[..|ps|] == ps;
  }

  /**
    Lines 331-336 of src/GrowerShape.cpp: write the `ts` quads between two
    rings at `offset`, checking the source's two range assertions on the
    way; the rest of the buffer is left as it was.
   */
  method EmitBand(indices: array<int>, offset: nat, a: int, b: int, ts: nat, w: Winding, ghost bufferSize: int)
    returns (offset': nat)
    modifies indices
    requires 0 < ts && offset + 4 * ts <= indices.Length
    requires 0 <= a && a + ts <= b && b + ts <= bufferSize
    ensures offset' == offset + 4 * ts
    ensures indices[..offset'] == old(indices[..offset]) + Band(a, b, ts, w, ts)
  {
    offset' := offset;
    for j := 0 to ts
      invariant offset' == offset + 4 * j
      invariant indices[..offset'] == old(indices[..offset]) + Band(a, b, ts, w, j)
    {
      assert a + j < bufferSize;
      NextIsMod(j, ts);
      assert a + j + (j + 1) % ts < bufferSize;
      WriteQuad(indices, offset', Quad(a, b, ts, w, j));
      BandStep(a, b, ts, w, j);
      offset' := offset' + 4;
    }
  }

  /** Four `indices[offset++] = ...` writes: the quad follows what was written before. */
  method WriteQuad(indices: array<int>, offset: nat, q: seq<int>)
    modifies indices
    requires |q| == 4 && offset + 4 <= indices.Length
    ensures indices[..offset + 4] == old(indices[..offset]) + q
  {
    indices[offset] := q[0];
    indices[offset + 1] := q[1];
    indices[offset + 2] := q[2];
    indices[offset + 3] := q[3];
  }

  /** Lines 315-337 of src/GrowerShape.cpp for one mesh node: find its place among the parent's children and emit its band. */
  method EmitJoin(nodes: seq<GrowerNode>, offsets: seq<int>, indices: array<int>, offset: nat, ts: nat, w: Winding,
                  i: nat, ghost remaining: nat)
    returns (offset': nat)
    modifies indices
    requires WellFormed(nodes) && 0 < ts && offsets == Offsets(nodes, ts) && 0 < i < |nodes| && !Excluded(nodes, i)
    requires remaining == RingsBelow(nodes, |nodes|) && offset + 4 * ts <= indices.Length
    ensures offset' == offset + 4 * ts
    ensures indices[..offset'] == old(indices[..offset]) + Join(nodes, offsets, ts, w, i)
  {
    MeshParent(nodes, i);
    var parent := nodes[i].parent;
    assert parent != INVALID_PARENT;
    var childIdx := FindChild(nodes[parent].children, i);
    var sub := Multiply(ts, childIdx);
    var a := offsets[parent] + sub;
    var b := offsets[i];
    SubRingBefore(nodes, ts, i);
    OffsetsTile(nodes, ts, i);
    TimesMono(ts, 1, Rings(nodes[i]));
    offset' := EmitBand(indices, offset, a, b, ts, w, Times(ts, remaining));
  }

  /**
    Lines 309-338 of src/GrowerShape.cpp: the index buffer, sized for `ts`
    quads per mesh node other than the root, filled with the quads of each
    such node in node order.
   */
  method EmitQuads(nodes: seq<GrowerNode>, offsets: seq<int>, ts: nat, w: Winding, activeNodes: nat, ghost remaining: nat)
    returns (indices: array<int>)
    requires WellFormed(nodes) && 0 < ts && offsets == Offsets(nodes, ts)
    requires 1 <= activeNodes == ActiveCount(nodes, |nodes|) && remaining == RingsBelow(nodes, |nodes|)
    ensures indices.Length == Times(4 * ts, activeNodes - 1)
    ensures indices[..] == MeshQuads(nodes, offsets, ts, w)
  {
    QuadsTotal(nodes, offsets, ts, w, activeNodes);
    var size := Multiply(4 * ts, activeNodes - 1);
    indices := new int[size];
    FillQuads(nodes, offsets, indices, ts, w, remaining);
  }

  /** The loop of lines 314-337 of src/GrowerShape.cpp over a buffer of exactly the right size. */
  method FillQuads(nodes: seq<GrowerNode>, offsets: seq<int>, indices: array<int>, ts: nat, w: Winding, ghost remaining: nat)
    modifies indices
    requires WellFormed(nodes) && 0 < ts && offsets == Offsets(nodes, ts)
    requires remaining == RingsBelow(nodes, |nodes|) && indices.Length == |MeshQuads(nodes, offsets, ts, w)|
    ensures indices[..] == MeshQuads(nodes, offsets, ts, w)
  {
    ghost var ps := Pieces(nodes, offsets, ts, w);
    assert ps[..|ps|] == ps;
    FlattenStep(ps, 0);
    PieceAt(nodes, offsets, ts, w, 0);
    assert ps[..0] == [];
    FlattenGrow(ps, 1, |ps|);
    var offset := 0;
    for i := 1 to |nodes|
      invariant offset == |Flatten(ps[..i])| <= indices.Length
      invariant indices[..offset] == Flatten(ps[..i])
    {
      FlattenStep(ps, i);
      FlattenGrow(ps, i + 1, |nodes|);
      PieceAt(nodes, offsets, ts, w, i);
      offset := EmitNode(nodes, offsets, indices, offset, ts, w, i, remaining);
    }
    assert indices[..] == indices[..offset];
  }

  /** Lines 315-337 of src/GrowerShape.cpp, one turn: a node whose offset is -1 adds nothing, a mesh node adds its band. */
  method EmitNode(nodes: seq<GrowerNode>, offsets: seq<int>, indices: array<int>, offset: nat, ts: nat, w: Winding,
                  i: nat, ghost remaining: nat)
    returns (offset': nat)
    modifies indices
    requires WellFormed(nodes) && 0 < ts && offsets == Offsets(nodes, ts) && 0 < i < |nodes|
    requires remaining == RingsBelow(nodes, |nodes|) && offset + |NodeQuads(nodes, offsets, ts, w, i)| <= indices.Length
    ensures offset' == offset + |NodeQuads(nodes, offsets, ts, w, i)|
    ensures indices[..offset'] == old(indices[..offset]) + NodeQuads(nodes, offsets, ts, w, i)
  {
    if offsets[i] == -1 {
      assert indices[..offset] + [] == indices[..offset];
      return offset;
    }
    offset' := EmitJoin(nodes, offsets, indices, offset, ts, w, i, remaining);
  }

  /** Lines 340-343 of src/GrowerShape.cpp: one count of 4 per quad. */
  method PolygonCounts(indexCount: nat) returns (counts: seq<int>)
    ensures |counts| == indexCount / 4 && forall k :: 0 <= k < |counts| ==> counts[k] == 4
  {
    var a := new int[indexCount / 4];
    for i := 0 to indexCount / 4
      invariant forall k :: 0 <= k < i ==> a[k] == 4
    {
      a[i] := 4;
    }
    counts := a[..];
  }

  /**
    CreateMesh without the vertex coordinates: nothing for no mesh nodes or
    no sections; otherwise a vertex buffer of `ts` vertices per ring, the
    quads of every mesh node but the root, every index inside the vertex
    buffer, and one count of 4 per quad.
   */
  method CreateMesh(nodes: seq<GrowerNode>, activeNodes: nat, ts: nat, w: Winding)
    returns (vertexCount: nat, indices: seq<int>, polygonCounts: seq<int>)
    requires WellFormed(nodes)
    requires activeNodes != 0 && ts != 0 ==> activeNodes == |ActiveBelow(nodes, |nodes|)|
    ensures activeNodes == 0 || ts == 0 ==> vertexCount == 0 && indices == [] && polygonCounts == []
    ensures activeNodes != 0 && ts != 0 ==>
      && vertexCount == ts * RingsBelow(nodes, |nodes|)
      && indices == MeshQuads(nodes, Offsets(nodes, ts), ts, w)
      && |indices| == 4 * ts * (activeNodes - 1)
      && (forall k :: 0 <= k < |indices| ==> 0 <= indices[k] < vertexCount)
      && |polygonCounts| == ts * (activeNodes - 1) && (forall k :: 0 <= k < |polygonCounts| ==> polygonCounts[k] == 4)
  {
    if activeNodes == 0 || ts == 0 {
      return 0, [], [];
    }
    vertexCount, indices := BuildBuffers(nodes, activeNodes, ts, w);
    QuadsInBuffer(nodes, Offsets(nodes, ts), ts, w);
    MeshSizes(ts, RingsBelow(nodes, |nodes|), activeNodes - 1);
    polygonCounts := PolygonCounts(|indices|);
  }

  /** Lines 226-338 of src/GrowerShape.cpp without the coordinates: mark, lay out the vertex blocks, and fill the index buffer. */
  method BuildBuffers(nodes: seq<GrowerNode>, activeNodes: nat, ts: nat, w: Winding) returns (vertexCount: nat, indices: seq<int>)
    requires WellFormed(nodes) && 0 < ts && 1 <= activeNodes == |ActiveBelow(nodes, |nodes|)|
    ensures vertexCount == Times(ts, RingsBelow(nodes, |nodes|))
    ensures indices == MeshQuads(nodes, Offsets(nodes, ts), ts, w)
    ensures |indices| == Times(4 * ts, activeNodes - 1)
  {
    var status, remaining := MarkExcluded(nodes);
    var offsets, vOffset := LayOut(nodes, status, ts);
    vertexCount := vOffset;
    ActiveCountIsSize(nodes, |nodes|);
    assert offsets[..] == Offsets(nodes, ts);
    var buffer := EmitQuads(nodes, offsets[..], ts, w, activeNodes, remaining);
    indices := buffer[..];
  }

  /** The buffer sizes in blocks are the products the source computes. */
  lemma MeshSizes(ts: nat, rings: nat, k: nat)
    ensures Times(ts, rings) == ts * rings && Times(4 * ts, k) == 4 * ts * k && (4 * ts * k) / 4 == ts * k
  {
    TimesIsMul(ts, rings);
    TimesIsMul(4 * ts, k);
    assert 4 * ts * k == 4 * (ts * k);
  }
}
