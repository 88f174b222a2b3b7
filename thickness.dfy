/**
  Branch thickness as both mesher nodes compute it (CalculateThickness in
  src/GrowerShape.cpp and Grower/MesherNode.cpp). An explicit stack walks
  the skeleton from the root. A leaf or trimmed node takes the base
  thickness at once; any other node waits until all its children are done
  and then takes the square root of the sum of their squared thicknesses.
  A child counts as done once its thickness has reached the base value,
  which is why that test needs a positive base. The walk also counts the
  active nodes it finishes and collects the branch ends, which are then
  forced to a tiny thickness.
 */
module Thickness {

  import opened Seqs
  import opened Skeleton

  /** `sqrtf`, taken as the exact non-negative square root. */
  ghost predicate IsSqrt(root: real -> real)
  {
    forall x {:trigger root(x)} :: 0.0 <= x ==> 0.0 <= root(x) && root(x) * root(x) == x
  }

  /** The thickness a branch end is forced to (lines 416-419). */
  const TERMINATOR_THICKNESS: real := 0.0001

  /* ---------- the thickness each node should get ---------- */

  /** The walk reaches node `i`: it is the root, or its parent is part of the mesh. */
  predicate Visited(nodes: seq<GrowerNode>, i: nat)
    requires WellFormed(nodes) && i < |nodes|
  {
    nodes[i].parent == INVALID_PARENT || !Excluded(nodes, nodes[i].parent)
  }

  /** Lines 369-372: a node with no children, or whose only child is trimmed, ends a branch. */
  predicate Terminates(nodes: seq<GrowerNode>, i: nat)
    requires WellFormed(nodes) && i < |nodes|
  {
    |nodes[i].children| == 0 || (|nodes[i].children| == 1 && nodes[nodes[i].children[0]].trimmed)
  }

  /**
    The thickness of node `i` for base thickness `base`: the base for a leaf
    or a trimmed node, otherwise the square root of the sum of the squared
    thicknesses of its children.
   */
  function Thick(nodes: seq<GrowerNode>, base: real, root: real -> real, i: nat): real
    requires WellFormed(nodes) && i < |nodes|
    decreases |nodes| - i, |nodes[i].children| + 1
  {
    if nodes[i].children == [] || nodes[i].trimmed then base
    else root(SumSq(nodes, base, root, i, |nodes[i].children|))
  }

  /** The sum of the squared thicknesses of the first `j` children of `i`, added in list order. */
  function SumSq(nodes: seq<GrowerNode>, base: real, root: real -> real, i: nat, j: nat): real
    requires WellFormed(nodes) && i < |nodes| && j <= |nodes[i].children|
    decreases |nodes| - i, j
  {
    if j == 0 then 0.0
    else
      ChildAfterParent(nodes, i, j - 1);
      var t := Thick(nodes, base, root, nodes[i].children[j - 1]);
      SumSq(nodes, base, root, i, j - 1) + t * t
  }

  lemma SquareMono(a: real, b: real)
    requires 0.0 <= a <= b
    ensures a * a <= b * b
  {
    assert a * a <= a * b;
  }

  lemma SquareMonoStrict(a: real, b: real)
    requires 0.0 <= a < b
    ensures a * a < b * b
  {
    var d := b - a;
    assert 0.0 < d * b;
    assert b * b - a * a == d * (b + a);
  }

  /** The root of anything at least `b * b` is at least `b`. */
  lemma RootAtLeast(root: real -> real, x: real, b: real)
    requires IsSqrt(root) && 0.0 <= b && b * b <= x
    ensures b <= root(x)
  {
    var r := root(x);
    assert 0.0 <= r && r * r == x;
    if r < b {
      SquareMonoStrict(r, b);
    }
  }

  /** Every node is at least as thick as the base. */
  lemma {:induction false} ThickAtLeastBase(nodes: seq<GrowerNode>, base: real, root: real -> real, i: nat)
    requires WellFormed(nodes) && IsSqrt(root) && 0.0 <= base && i < |nodes|
    ensures base <= Thick(nodes, base, root, i)
    decreases |nodes| - i, |nodes[i].children| + 1
  {
    if nodes[i].children != [] && !nodes[i].trimmed {
      SumSqAtLeast(nodes, base, root, i, |nodes[i].children|);
      RootAtLeast(root, SumSq(nodes, base, root, i, |nodes[i].children|), base);
    }
  }

  /** A partial sum is never negative, and once it holds a child it is at least `base * base`. */
  lemma {:induction false} SumSqAtLeast(nodes: seq<GrowerNode>, base: real, root: real -> real, i: nat, j: nat)
    requires WellFormed(nodes) && IsSqrt(root) && 0.0 <= base && i < |nodes| && j <= |nodes[i].children|
    ensures 0.0 <= SumSq(nodes, base, root, i, j)
    ensures 0 < j ==> base * base <= SumSq(nodes, base, root, i, j)
    decreases |nodes| - i, j
  {
    if 0 < j {
      ChildAfterParent(nodes, i, j - 1);
      var c := nodes[i].children[j - 1];
      SumSqAtLeast(nodes, base, root, i, j - 1);
      ThickAtLeastBase(nodes, base, root, c);
      SquareMono(base, Thick(nodes, base, root, c));
    }
  }

  /**
    Lines 395-404 stated on squares: an inner node's squared thickness is the
    sum of its children's squared thicknesses, and it is at least as thick
    as any of them.
   */
  lemma BranchRule(nodes: seq<GrowerNode>, base: real, root: real -> real, i: nat)
    requires WellFormed(nodes) && IsSqrt(root) && 0.0 <= base && i < |nodes|
    requires nodes[i].children != [] && !nodes[i].trimmed
    ensures Thick(nodes, base, root, i) * Thick(nodes, base, root, i) == SumSq(nodes, base, root, i, |nodes[i].children|)
    ensures forall k :: 0 <= k < |nodes[i].children| ==>
      nodes[i].children[k] < |nodes| && Thick(nodes, base, root, nodes[i].children[k]) <= Thick(nodes, base, root, i)
  {
    var n := |nodes[i].children|;
    SumSqAtLeast(nodes, base, root, i, n);
    forall k | 0 <= k < n
      ensures nodes[i].children[k] < |nodes| && Thick(nodes, base, root, nodes[i].children[k]) <= Thick(nodes, base, root, i)
    {
      ChildAfterParent(nodes, i, k);
      var c := nodes[i].children[k];
      SumSqHoldsChild(nodes, base, root, i, n, k);
      var tc, ti := Thick(nodes, base, root, c), Thick(nodes, base, root, i);
      ThickAtLeastBase(nodes, base, root, c);
      assert 0.0 <= ti;
      if ti < tc {
        SquareMonoStrict(ti, tc);
      }
    }
  }

  /** A partial sum holding child `k` is at least that child's square. */
  lemma {:induction false} SumSqHoldsChild(nodes: seq<GrowerNode>, base: real, root: real -> real, i: nat, j: nat, k: nat)
    requires WellFormed(nodes) && IsSqrt(root) && 0.0 <= base && i < |nodes| && k < j <= |nodes[i].children|
    ensures nodes[i].children[k] < |nodes|
    ensures Thick(nodes, base, root, nodes[i].children[k]) * Thick(nodes, base, root, nodes[i].children[k]) <=
            SumSq(nodes, base, root, i, j)
    decreases j
  {
    ChildAfterParent(nodes, i, k);
    ChildAfterParent(nodes, i, j - 1);
    SumSqAtLeast(nodes, base, root, i, j - 1);
    var t := Thick(nodes, base, root, nodes[i].children[j - 1]);
    ThickAtLeastBase(nodes, base, root, nodes[i].children[j - 1]);
    SquareMono(0.0, t);
    if k < j - 1 {
      SumSqHoldsChild(nodes, base, root, i, j - 1, k);
    }
  }

  /* ---------- the walk ---------- */

  /** The finished nodes that are not trimmed: what `activeNodes` counts. */
  ghost function ActiveIn(nodes: seq<GrowerNode>, done: set<nat>): set<nat>
  {
    set x | x in done && x < |nodes| && !nodes[x].trimmed
  }

  /** The stack holds distinct unfinished nodes; every node that was on top is finished or still on the stack. */
  ghost predicate StackBase(nodes: seq<GrowerNode>, stack: seq<nat>, done: set<nat>, seen: set<nat>)
  {
    && AllBelow(stack, |nodes|) && Distinct(stack)
    && (forall x :: x in done ==> x < |nodes| && x in seen && x !in stack)
    && (forall x :: x in seen ==> x in done || x in stack)
    && (0 in stack || 0 in done)
  }

  /**
    Every node pushed is reached by the walk, and every one other than the
    root was pushed by its parent during the parent's first turn on top.
   */
  ghost predicate PushedByParent(nodes: seq<GrowerNode>, stack: seq<nat>, done: set<nat>, seen: set<nat>)
    requires WellFormed(nodes)
  {
    forall i :: i in stack || i in done ==>
      i < |nodes| && Visited(nodes, i) && (i != 0 ==> nodes[i].parent in seen && !nodes[nodes[i].parent].trimmed)
  }

  /** A finished node that is not trimmed has all its children finished. */
  ghost predicate DoneClosed(nodes: seq<GrowerNode>, done: set<nat>)
  {
    forall x :: x in done && x < |nodes| && !nodes[x].trimmed ==> forall c :: c in nodes[x].children ==> c in done
  }

  /** A node that had a turn on top and is still waiting has each child finished or higher up the stack. */
  ghost predicate Pending(nodes: seq<GrowerNode>, stack: seq<nat>, done: set<nat>, seen: set<nat>)
    requires AllBelow(stack, |nodes|)
  {
    forall k :: 0 <= k < |stack| && stack[k] in seen ==>
      forall c :: c in nodes[stack[k]].children ==> c in done || c in stack[k + 1..]
  }

  /** The shape of the stack, as the loop keeps it. */
  ghost predicate StackOk(nodes: seq<GrowerNode>, stack: seq<nat>, done: set<nat>, seen: set<nat>)
    requires WellFormed(nodes)
  {
    && StackBase(nodes, stack, done, seen)
    && PushedByParent(nodes, stack, done, seen)
    && DoneClosed(nodes, done)
    && Pending(nodes, stack, done, seen)
  }

  /** Finished nodes hold their thickness; all others still hold the zero they were allocated with. */
  ghost predicate ValuesOk(nodes: seq<GrowerNode>, base: real, root: real -> real, tt: seq<real>, done: set<nat>)
    requires WellFormed(nodes)
  {
    |tt| == |nodes| && forall i :: 0 <= i < |nodes| ==> tt[i] == if i in done then Thick(nodes, base, root, i) else 0.0
  }

  /** The collected branch ends are the nodes that had a turn on top and end a branch. */
  ghost predicate TermsOk(nodes: seq<GrowerNode>, terms: seq<nat>, seen: set<nat>)
    requires WellFormed(nodes)
  {
    forall x: nat :: x in terms <==> x < |nodes| && x in seen && Terminates(nodes, x)
  }

  /** The invariant of the loop of lines 364-414 for a positive base. */
  ghost predicate PassInv(nodes: seq<GrowerNode>, base: real, root: real -> real, tt: seq<real>, stack: seq<nat>,
                          done: set<nat>, seen: set<nat>, terms: seq<nat>, activeNodes: nat)
  {
    && WellFormed(nodes) && IsSqrt(root) && 0.0 < base
    && StackOk(nodes, stack, done, seen)
    && ValuesOk(nodes, base, root, tt, done)
    && TermsOk(nodes, terms, seen)
    && activeNodes == |ActiveIn(nodes, done)|
  }

  /** The root alone on the stack, nothing finished. */
  lemma PassStart(nodes: seq<GrowerNode>, base: real, root: real -> real, tt: seq<real>)
    requires WellFormed(nodes) && IsSqrt(root) && 0.0 < base
    requires |tt| == |nodes| && forall i :: 0 <= i < |tt| ==> tt[i] == 0.0
    ensures PassInv(nodes, base, root, tt, [0], {}, {}, [], 0)
  {
    assert ActiveIn(nodes, {}) == {};
  }

  /**
    What the top of the stack looks like: a node that was on top before has
    all its children finished; one that was not has none of them pushed yet.
   */
  lemma TopFacts(nodes: seq<GrowerNode>, stack: seq<nat>, done: set<nat>, seen: set<nat>)
    requires WellFormed(nodes) && StackOk(nodes, stack, done, seen) && stack != []
    ensures stack[|stack| - 1] < |nodes| && stack[|stack| - 1] !in done
    ensures var x := stack[|stack| - 1];
      forall k :: 0 <= k < |nodes[x].children| ==>
        && nodes[x].children[k] < |nodes|
        && (x in seen ==> nodes[x].children[k] in done)
        && (x !in seen ==> nodes[x].children[k] !in done && nodes[x].children[k] !in stack)
  {
    var top := |stack| - 1;
    var x := stack[top];
    assert x in stack;
    assert stack[top + 1..] == [];
    forall k | 0 <= k < |nodes[x].children|
      ensures nodes[x].children[k] < |nodes|
      ensures x in seen ==> nodes[x].children[k] in done
      ensures x !in seen ==> nodes[x].children[k] !in done && nodes[x].children[k] !in stack
    {
      ChildAfterParent(nodes, x, k);
      assert nodes[x].children[k] in nodes[x].children;
    }
  }

  /** Popping the top keeps the stack's base facts, and every node in the new stack or finished was pushed before. */
  lemma PopBase(nodes: seq<GrowerNode>, stack: seq<nat>, done: set<nat>, seen: set<nat>)
    requires StackBase(nodes, stack, done, seen) && stack != []
    ensures var x := stack[|stack| - 1];
      && StackBase(nodes, stack[..|stack| - 1], done + {x}, seen + {x})
      && (forall i :: i in stack[..|stack| - 1] || i in done + {x} ==> i in stack || i in done)
  {
    var top := |stack| - 1;
    var x := stack[top];
    assert x in stack;
    forall i | i in stack[..top]
      ensures i in stack && i != x
    {
      var k :| 0 <= k < top && stack[..top][k] == i;
      assert stack[k] == i;
    }
  }

  /** Popping the top keeps every pushed node's link to its parent. */
  lemma PopPushed(nodes: seq<GrowerNode>, stack: seq<nat>, done: set<nat>, seen: set<nat>)
    requires WellFormed(nodes) && StackBase(nodes, stack, done, seen) && PushedByParent(nodes, stack, done, seen)
    requires stack != []
    ensures var x := stack[|stack| - 1]; PushedByParent(nodes, stack[..|stack| - 1], done + {x}, seen + {x})
  {
    PopBase(nodes, stack, done, seen);
  }

  /** Popping the top keeps the waiting nodes' promise. */
  lemma PopPending(nodes: seq<GrowerNode>, stack: seq<nat>, done: set<nat>, seen: set<nat>)
    requires AllBelow(stack, |nodes|) && Distinct(stack) && Pending(nodes, stack, done, seen) && stack != []
    ensures var x := stack[|stack| - 1];
      AllBelow(stack[..|stack| - 1], |nodes|) && Pending(nodes, stack[..|stack| - 1], done + {x}, seen + {x})
  {
    var top := |stack| - 1;
    var x := stack[top];
    var stack', done', seen' := stack[..top], done + {x}, seen + {x};
    forall k | 0 <= k < |stack'| && stack'[k] in seen'
      ensures forall c :: c in nodes[stack'[k]].children ==> c in done' || c in stack'[k + 1..]
    {
      assert stack[k] == stack'[k] && stack[k] != x;
      assert stack[k] in seen;
      assert stack[k + 1..] == stack'[k + 1..] + [x];
    }
  }

  /** A node finished as a leaf, as trimmed, or after its children keeps finished nodes closed under children. */
  lemma PopClosed(nodes: seq<GrowerNode>, stack: seq<nat>, done: set<nat>, seen: set<nat>)
    requires WellFormed(nodes) && StackOk(nodes, stack, done, seen) && stack != []
    requires var x := stack[|stack| - 1];
      x < |nodes| && (nodes[x].children == [] || nodes[x].trimmed || x in seen)
    ensures DoneClosed(nodes, done + {stack[|stack| - 1]})
  {
    var x := stack[|stack| - 1];
    TopFacts(nodes, stack, done, seen);
    if !nodes[x].trimmed && x in seen {
      forall c | c in nodes[x].children
        ensures c in done
      {
        var k :| 0 <= k < |nodes[x].children| && nodes[x].children[k] == c;
      }
    }
  }

  /** Node `x` taking its turn on top keeps the collected branch ends right. */
  lemma TermsStep(nodes: seq<GrowerNode>, terms: seq<nat>, seen: set<nat>, x: nat)
    requires WellFormed(nodes) && TermsOk(nodes, terms, seen) && x < |nodes|
    ensures TermsOk(nodes, if Terminates(nodes, x) then terms + [x] else terms, seen + {x})
  {
  }

  /** Storing a node's thickness as it is finished keeps the values right. */
  lemma ValuesPop(nodes: seq<GrowerNode>, base: real, root: real -> real, tt: seq<real>, done: set<nat>, x: nat)
    requires WellFormed(nodes) && ValuesOk(nodes, base, root, tt, done) && x < |nodes|
    ensures ValuesOk(nodes, base, root, tt[x := Thick(nodes, base, root, x)], done + {x})
  {
  }

  /** Finishing a node adds one to the count exactly when it is not trimmed. */
  lemma CountPop(nodes: seq<GrowerNode>, done: set<nat>, x: nat, activeNodes: nat)
    requires activeNodes == |ActiveIn(nodes, done)| && x < |nodes| && x !in done
    ensures (if nodes[x].trimmed then activeNodes else activeNodes + 1) == |ActiveIn(nodes, done + {x})|
  {
    if nodes[x].trimmed {
      assert ActiveIn(nodes, done + {x}) == ActiveIn(nodes, done);
    } else {
      assert ActiveIn(nodes, done + {x}) == ActiveIn(nodes, done) + {x};
    }
  }

  /** Finishing the top node: it leaves the stack with its thickness, and is counted when not trimmed. */
  lemma PopKeeps(nodes: seq<GrowerNode>, base: real, root: real -> real, tt: seq<real>, stack: seq<nat>,
                 done: set<nat>, seen: set<nat>, terms: seq<nat>, activeNodes: nat)
    requires PassInv(nodes, base, root, tt, stack, done, seen, terms, activeNodes) && stack != []
    requires var x := stack[|stack| - 1];
      x < |nodes| && (nodes[x].children == [] || nodes[x].trimmed || x in seen)
    ensures var x := stack[|stack| - 1];
      PassInv(nodes, base, root, tt[x := Thick(nodes, base, root, x)], stack[..|stack| - 1], done + {x}, seen + {x},
              if Terminates(nodes, x) then terms + [x] else terms,
              if nodes[x].trimmed then activeNodes else activeNodes + 1)
  {
    var x := stack[|stack| - 1];
    assert x in stack;
    PopBase(nodes, stack, done, seen);
    PopPushed(nodes, stack, done, seen);
    PopPending(nodes, stack, done, seen);
    PopClosed(nodes, stack, done, seen);
    TermsStep(nodes, terms, seen, x);
    ValuesPop(nodes, base, root, tt, done, x);
    CountPop(nodes, done, x, activeNodes);
  }

  /** The unfinished children of a node first on top: the ones the source pushes. */
  function Unready(tt: seq<real>, cs: seq<nat>, base: real): seq<nat>
    requires AllBelow(cs, |tt|)
  {
    if cs == [] then []
    else Unready(tt, cs[..|cs| - 1], base) + (if tt[cs[|cs| - 1]] < base then [cs[|cs| - 1]] else [])
  }

  /** When no child is done, every child is pushed, in list order. */
  lemma {:induction false} UnreadyAll(tt: seq<real>, cs: seq<nat>, base: real)
    requires AllBelow(cs, |tt|) && forall k :: 0 <= k < |cs| ==> tt[cs[k]] < base
    ensures Unready(tt, cs, base) == cs
  {
    if cs != [] {
      UnreadyAll(tt, cs[..|cs| - 1], base);
      assert cs[..|cs| - 1] + [cs[|cs| - 1]] == cs;
    }
  }

  /** The children of the top node, none of them pushed yet, are fresh distinct children pointing back to it. */
  lemma FreshChildren(nodes: seq<GrowerNode>, stack: seq<nat>, done: set<nat>, seen: set<nat>)
    requires WellFormed(nodes) && StackOk(nodes, stack, done, seen) && stack != []
    requires stack[|stack| - 1] !in seen
    ensures var x := stack[|stack| - 1];
      && x < |nodes| && Distinct(nodes[x].children) && AllBelow(nodes[x].children, |nodes|)
      && forall c :: c in nodes[x].children ==>
           c < |nodes| && c !in stack && c !in done && c !in seen && nodes[c].parent == x && c != 0
  {
    var x := stack[|stack| - 1];
    TopFacts(nodes, stack, done, seen);
    assert Distinct(nodes[x].children);
    forall c | c in nodes[x].children
      ensures c < |nodes| && c !in stack && c !in done && c !in seen && nodes[c].parent == x && c != 0
    {
      var k :| 0 <= k < |nodes[x].children| && nodes[x].children[k] == c;
      ChildAfterParent(nodes, x, k);
    }
  }

  /** Pushing fresh distinct nodes keeps the stack's base facts. */
  lemma PushBase(nodes: seq<GrowerNode>, stack: seq<nat>, done: set<nat>, seen: set<nat>, cs: seq<nat>)
    requires StackBase(nodes, stack, done, seen) && stack != [] && Distinct(cs)
    requires forall c :: c in cs ==> c < |nodes| && c !in stack && c !in done
    ensures StackBase(nodes, stack + cs, done, seen + {stack[|stack| - 1]})
  {
    var stack' := stack + cs;
    assert stack[|stack| - 1] in stack;
    forall a, b | 0 <= a < b < |stack'|
      ensures stack'[a] != stack'[b]
    {
      if b >= |stack| && a < |stack| {
        assert stack'[b] in cs;
        assert stack'[a] in stack;
      } else if a >= |stack| {
        assert stack'[a] == cs[a - |stack|] && stack'[b] == cs[b - |stack|];
      }
    }
    forall k | 0 <= k < |stack'|
      ensures stack'[k] < |nodes|
    {
      if k >= |stack| {
        assert stack'[k] in cs;
      }
    }
    forall x | x in done
      ensures x !in stack'
    {
      assert x !in cs;
    }
    if 0 !in done {
      var k :| 0 <= k < |stack| && stack[k] == 0;
      assert stack'[k] == 0;
    }
  }

  /** Pushing the children of the top keeps every pushed node's link to its parent. */
  lemma PushPushed(nodes: seq<GrowerNode>, stack: seq<nat>, done: set<nat>, seen: set<nat>, x: nat)
    requires WellFormed(nodes) && PushedByParent(nodes, stack, done, seen)
    requires x < |nodes| && Visited(nodes, x) && !nodes[x].trimmed
    requires forall c :: c in nodes[x].children ==> c < |nodes| && nodes[c].parent == x && c != 0
    ensures PushedByParent(nodes, stack + nodes[x].children, done, seen + {x})
  {
    forall i | i in stack + nodes[x].children || i in done
      ensures i < |nodes| && Visited(nodes, i) && (i != 0 ==> nodes[i].parent in seen + {x} && !nodes[nodes[i].parent].trimmed)
    {
      if i !in stack && i !in done {
        assert i in nodes[x].children;
        assert !Excluded(nodes, x);
      }
    }
  }

  /** Pushing the children of the top keeps the waiting nodes' promise, the top now among them. */
  lemma PushPending(nodes: seq<GrowerNode>, stack: seq<nat>, done: set<nat>, seen: set<nat>)
    requires AllBelow(stack, |nodes|) && Pending(nodes, stack, done, seen) && stack != []
    requires Distinct(stack) && AllBelow(nodes[stack[|stack| - 1]].children, |nodes|)
    requires forall c :: c in nodes[stack[|stack| - 1]].children ==> c !in seen && c != stack[|stack| - 1]
    ensures var x := stack[|stack| - 1];
      AllBelow(stack + nodes[x].children, |nodes|) && Pending(nodes, stack + nodes[x].children, done, seen + {x})
  {
    var top := |stack| - 1;
    var x := stack[top];
    var cs := nodes[x].children;
    var stack', seen' := stack + cs, seen + {x};
    forall k | top < k < |stack'|
      ensures stack'[k] !in seen'
    {
      assert stack'[k] == cs[k - |stack|];
    }
    forall k | 0 <= k <= top && stack'[k] in seen'
      ensures forall c :: c in nodes[stack'[k]].children ==> c in done || c in stack'[k + 1..]
    {
      if k < top {
        assert stack'[k] == stack[k] && stack[k] != stack[top];
        assert stack[k] in seen;
        assert stack'[k + 1..] == stack[k + 1..] + cs;
      } else {
        assert stack'[k + 1..] == cs;
      }
    }
  }

  /** Delaying a node first on top: it stays below all of its children, which are pushed on top of it. */
  lemma ExpandKeeps(nodes: seq<GrowerNode>, base: real, root: real -> real, tt: seq<real>, stack: seq<nat>,
                    done: set<nat>, seen: set<nat>, terms: seq<nat>, activeNodes: nat)
    requires PassInv(nodes, base, root, tt, stack, done, seen, terms, activeNodes) && stack != []
    requires var x := stack[|stack| - 1];
      x < |nodes| && nodes[x].children != [] && !nodes[x].trimmed && x !in seen
    ensures var x := stack[|stack| - 1];
      PassInv(nodes, base, root, tt, stack + nodes[x].children, done, seen + {x},
              if Terminates(nodes, x) then terms + [x] else terms, activeNodes)
  {
    var x := stack[|stack| - 1];
    assert x in stack;
    FreshChildren(nodes, stack, done, seen);
    PushBase(nodes, stack, done, seen, nodes[x].children);
    PushPushed(nodes, stack, done, seen, x);
    PushPending(nodes, stack, done, seen);
    TermsStep(nodes, terms, seen, x);
  }

  /** With the stack empty, exactly the reachable nodes are finished. */
  lemma {:induction false} VisitedDone(nodes: seq<GrowerNode>, done: set<nat>, seen: set<nat>, i: nat)
    requires WellFormed(nodes) && StackOk(nodes, [], done, seen) && i < |nodes| && Visited(nodes, i)
    ensures i in done
    decreases i
  {
    if i != 0 {
      var p := nodes[i].parent;
      ParentListsChild(nodes, i);
      assert !Excluded(nodes, p);
      VisitedDone(nodes, done, seen, p);
    }
  }

  /** After the loop: what every node holds, what was counted and what was collected. */
  lemma PassEnd(nodes: seq<GrowerNode>, base: real, root: real -> real, tt: seq<real>,
                done: set<nat>, seen: set<nat>, terms: seq<nat>, activeNodes: nat)
    requires PassInv(nodes, base, root, tt, [], done, seen, terms, activeNodes)
    ensures forall i :: 0 <= i < |nodes| ==> tt[i] == if Visited(nodes, i) then Thick(nodes, base, root, i) else 0.0
    ensures activeNodes == |ActiveBelow(nodes, |nodes|)|
    ensures forall x: nat :: x in terms <==> x < |nodes| && Visited(nodes, x) && Terminates(nodes, x)
  {
    forall i | 0 <= i < |nodes|
      ensures i in done <==> Visited(nodes, i)
    {
      if Visited(nodes, i) {
        VisitedDone(nodes, done, seen, i);
      }
    }
    assert ActiveIn(nodes, done) == ActiveBelow(nodes, |nodes|);
  }

  /* ---------- a base of zero or less ---------- */

  /**
    With a base of zero or less the readiness test already holds for the
    zeros of unfinished children: the root is finished on its first turn, with
    the base or with the root of a sum of zeros, and the walk stops there.
   */
  ghost predicate FlatInv(nodes: seq<GrowerNode>, base: real, root: real -> real, tt: seq<real>, stack: seq<nat>,
                          terms: seq<nat>, activeNodes: nat)
  {
    && WellFormed(nodes) && IsSqrt(root) && base <= 0.0 && |tt| == |nodes|
    && (|| (stack == [0] && terms == [] && activeNodes == 0 && forall i :: 0 <= i < |nodes| ==> tt[i] == 0.0)
        || (stack == [] && activeNodes == FlatCount(nodes) &&
            (forall i :: 0 <= i < |nodes| ==> tt[i] == if i == 0 then FlatRoot(nodes, base) else 0.0) &&
            (forall x: nat :: x in terms <==> x == 0 && Terminates(nodes, 0))))
  }

  /** The count the walk returns for a base of zero or less: the root alone, unless it is trimmed. */
  function FlatCount(nodes: seq<GrowerNode>): nat
    requires |nodes| > 0
  {
    if nodes[0].trimmed then 0 else 1
  }

  /** The root's value for a base of zero or less. */
  function FlatRoot(nodes: seq<GrowerNode>, base: real): real
    requires |nodes| > 0
  {
    if nodes[0].children == [] || nodes[0].trimmed then base else 0.0
  }

  /* ---------- the loop ---------- */

  /** Lines 377-385: how many children, from the first, are done by the test `thickness >= base`. */
  method CountReady(t: array<real>, children: seq<nat>, base: real) returns (count: nat)
    requires AllBelow(children, t.Length)
    ensures count <= |children|
    ensures forall k :: 0 <= k < count ==> t[children[k]] >= base
    ensures count < |children| ==> t[children[count]] < base
  {
    count := 0;
    while count < |children|
      invariant count <= |children|
      invariant forall k :: 0 <= k < count ==> t[children[k]] >= base
    {
      if t[children[count]] >= base {
        count := count + 1;
      } else {
        break;
      }
    }
  }

  /** The sum of the squares of the values held by `cs`, in list order. */
  function SquareSum(tt: seq<real>, cs: seq<nat>): real
    requires AllBelow(cs, |tt|)
  {
    if cs == [] then 0.0 else SquareSum(tt, cs[..|cs| - 1]) + tt[cs[|cs| - 1]] * tt[cs[|cs| - 1]]
  }

  /** Summing the children's held values gives SumSq once every child holds its thickness. */
  lemma {:induction false} SquareSumIsSumSq(nodes: seq<GrowerNode>, base: real, root: real -> real, tt: seq<real>, i: nat, j: nat)
    requires WellFormed(nodes) && i < |nodes| && j <= |nodes[i].children| && |tt| == |nodes|
    requires AllBelow(nodes[i].children, |tt|)
    requires forall k :: 0 <= k < j ==> tt[nodes[i].children[k]] == Thick(nodes, base, root, nodes[i].children[k])
    ensures SquareSum(tt, nodes[i].children[..j]) == SumSq(nodes, base, root, i, j)
    decreases j
  {
    if j > 0 {
      assert nodes[i].children[..j][..j - 1] == nodes[i].children[..j - 1];
      SquareSumIsSumSq(nodes, base, root, tt, i, j - 1);
    }
  }

  /** Lines 398-402: `sqRadius`, the children's squared thicknesses summed in order. */
  method SumSquares(t: array<real>, children: seq<nat>) returns (sq: real)
    requires AllBelow(children, t.Length)
    ensures sq == SquareSum(t[..], children)
  {
    sq := 0.0;
    var i := 0;
    while i < |children|
      invariant 0 <= i <= |children|
      invariant sq == SquareSum(t[..], children[..i])
    {
      assert children[..i + 1][..i] == children[..i];
      var v := t[children[i]];
      sq := sq + v * v;
      i := i + 1;
    }
    assert children[..i] == children;
  }

  /** Lines 407-412: push every child whose thickness is still below the base. */
  method PushUnready(t: array<real>, children: seq<nat>, base: real, stack: seq<nat>) returns (stack': seq<nat>)
    requires AllBelow(children, t.Length)
    ensures stack' == stack + Unready(t[..], children, base)
  {
    stack' := stack;
    var i := 0;
    while i < |children|
      invariant 0 <= i <= |children|
      invariant stack' == stack + Unready(t[..], children[..i], base)
    {
      assert children[..i + 1][..i] == children[..i];
      if t[children[i]] < base {
        stack' := stack' + [children[i]];
      }
      i := i + 1;
    }
    assert children[..i] == children;
  }

  /** The invariant of the loop for either sign of the base. */
  ghost predicate WalkInv(nodes: seq<GrowerNode>, base: real, root: real -> real, tt: seq<real>, stack: seq<nat>,
                          done: set<nat>, seen: set<nat>, terms: seq<nat>, activeNodes: nat)
  {
    if 0.0 < base then PassInv(nodes, base, root, tt, stack, done, seen, terms, activeNodes)
    else FlatInv(nodes, base, root, tt, stack, terms, activeNodes) && seen == {}
  }

  /**
    The readiness test on the values held: every child holds at least the
    base exactly when the base is not positive, the node is a leaf, or it had
    its turn on top before.
   */
  lemma ReadyTest(nodes: seq<GrowerNode>, base: real, root: real -> real, tt: seq<real>, stack: seq<nat>,
                  done: set<nat>, seen: set<nat>, terms: seq<nat>, activeNodes: nat)
    requires stack != [] && WalkInv(nodes, base, root, tt, stack, done, seen, terms, activeNodes)
    ensures var x := stack[|stack| - 1];
      && x < |nodes| && |tt| == |nodes| && AllBelow(nodes[x].children, |nodes|)
      && ((forall k :: 0 <= k < |nodes[x].children| ==> tt[nodes[x].children[k]] >= base) <==>
          (base <= 0.0 || x in seen || nodes[x].children == []))
  {
    var x := stack[|stack| - 1];
    if 0.0 < base {
      TopFacts(nodes, stack, done, seen);
      ChildrenOf(nodes, x);
      if x in seen {
        forall k | 0 <= k < |nodes[x].children|
          ensures tt[nodes[x].children[k]] >= base
        {
          ThickAtLeastBase(nodes, base, root, nodes[x].children[k]);
        }
      } else if nodes[x].children != [] {
        assert tt[nodes[x].children[0]] == 0.0;
      }
    } else {
      ChildrenOf(nodes, 0);
    }
  }

  /**
    Lines 374-386: whether the top node can be finished now, by the test the
    source uses. For a positive base that is exactly when it is a leaf, is
    trimmed, or had a turn on top before; for a base of zero or less it is
    always so.
   */
  method Decide(nodes: seq<GrowerNode>, base: real, root: real -> real, t: array<real>, stack: seq<nat>,
                ghost done: set<nat>, ghost seen: set<nat>, ghost terms: seq<nat>, ghost activeNodes: nat)
    returns (calculated: bool)
    requires stack != [] && WalkInv(nodes, base, root, t[..], stack, done, seen, terms, activeNodes)
    ensures stack[|stack| - 1] < |nodes|
    ensures var x := stack[|stack| - 1];
      0.0 < base ==> (calculated <==> nodes[x].children == [] || nodes[x].trimmed || x in seen)
    ensures base <= 0.0 ==> calculated
  {
    var node := stack[|stack| - 1];
    ReadyTest(nodes, base, root, t[..], stack, done, seen, terms, activeNodes);
    var children := nodes[node].children;
    if |children| == 0 || nodes[node].trimmed {
      calculated := true;
    } else {
      var ready := CountReady(t, children, base);
      calculated := ready == |children|;
    }
  }

  /** The children of a node are node indices. */
  lemma ChildrenOf(nodes: seq<GrowerNode>, i: nat)
    requires WellFormed(nodes) && i < |nodes|
    ensures AllBelow(nodes[i].children, |nodes|)
  {
    forall k | 0 <= k < |nodes[i].children|
      ensures nodes[i].children[k] < |nodes|
    {
      ChildAfterParent(nodes, i, k);
    }
  }

  /** Lines 388-405: pop the top node, count it when not trimmed, and store its thickness. */
  method FinishTop(nodes: seq<GrowerNode>, base: real, root: real -> real, t: array<real>, stack: seq<nat>,
                   ghost done: set<nat>, ghost seen: set<nat>, terms: seq<nat>, terms': seq<nat>, activeNodes: nat)
    returns (stack': seq<nat>, ghost done': set<nat>, ghost seen': set<nat>, activeNodes': nat)
    modifies t
    requires stack != [] && WalkInv(nodes, base, root, t[..], stack, done, seen, terms, activeNodes)
    requires stack[|stack| - 1] < |nodes|
    requires var x := stack[|stack| - 1];
      && terms' == (if Terminates(nodes, x) then terms + [x] else terms)
      && (0.0 < base ==> nodes[x].children == [] || nodes[x].trimmed || x in seen)
    ensures WalkInv(nodes, base, root, t[..], stack', done', seen', terms', activeNodes')
    ensures Range(|nodes|) - seen' < Range(|nodes|) - seen || (seen' == seen && |stack'| < |stack|)
  {
    var node := stack[|stack| - 1];
    var children := nodes[node].children;
    ghost var tt := t[..];
    if 0.0 < base {
      TopFacts(nodes, stack, done, seen);
    }
    ChildrenOf(nodes, node);
    stack' := stack[..|stack| - 1];
    activeNodes' := activeNodes;
    if !nodes[node].trimmed {
      activeNodes' := activeNodes + 1;
    }
    if |children| == 0 || nodes[node].trimmed {
      t[node] := base;
    } else {
      var sq := SumSquares(t, children);
      if 0.0 < base {
        SquareSumIsSumSq(nodes, base, root, tt, node, |children|);
        assert children[..|children|] == children;
      } else {
        ZeroSquareSum(tt, children);
        RootOfZero(root);
      }
      t[node] := root(sq);
    }
    assert t[..] == tt[node := t[node]];
    if 0.0 < base {
      PopKeeps(nodes, base, root, tt, stack, done, seen, terms, activeNodes);
      done', seen' := done + {node}, seen + {node};
    } else {
      done', seen' := done, seen;
    }
  }

  /** Lines 406-413: the top node waits; its unfinished children are pushed on top of it. */
  method DelayTop(nodes: seq<GrowerNode>, base: real, root: real -> real, t: array<real>, stack: seq<nat>,
                  ghost done: set<nat>, ghost seen: set<nat>, ghost terms: seq<nat>, ghost terms': seq<nat>,
                  ghost activeNodes: nat)
    returns (stack': seq<nat>, ghost seen': set<nat>)
    requires stack != [] && 0.0 < base && PassInv(nodes, base, root, t[..], stack, done, seen, terms, activeNodes)
    requires var x := stack[|stack| - 1];
      && x < |nodes| && nodes[x].children != [] && !nodes[x].trimmed && x !in seen
      && terms' == (if Terminates(nodes, x) then terms + [x] else terms)
    ensures stack' == stack + nodes[stack[|stack| - 1]].children
    ensures seen' == seen + {stack[|stack| - 1]}
    ensures PassInv(nodes, base, root, t[..], stack', done, seen', terms', activeNodes)
    ensures Range(|nodes|) - seen' < Range(|nodes|) - seen
  {
    var node := stack[|stack| - 1];
    TopFacts(nodes, stack, done, seen);
    ChildrenOf(nodes, node);
    UnreadyAll(t[..], nodes[node].children, base);
    stack' := PushUnready(t, nodes[node].children, base, stack);
    ExpandKeeps(nodes, base, root, t[..], stack, done, seen, terms, activeNodes);
    seen' := seen + {node};
  }

  /**
    One turn of the loop of lines 364-414 with `node` on top: record it as a
    branch end when it is one; finish it when it is a leaf, trimmed, or all
    its children are done; otherwise push its unfinished children.
   */
  method WalkStep(nodes: seq<GrowerNode>, base: real, root: real -> real, t: array<real>, stack: seq<nat>,
                  ghost done: set<nat>, ghost seen: set<nat>, terms: seq<nat>, activeNodes: nat)
    returns (stack': seq<nat>, ghost done': set<nat>, ghost seen': set<nat>, terms': seq<nat>, activeNodes': nat)
    modifies t
    requires stack != [] && WalkInv(nodes, base, root, t[..], stack, done, seen, terms, activeNodes)
    ensures WalkInv(nodes, base, root, t[..], stack', done', seen', terms', activeNodes')
    ensures Range(|nodes|) - seen' < Range(|nodes|) - seen || (seen' == seen && |stack'| < |stack|)
  {
    var node := stack[|stack| - 1];
    var calculated := Decide(nodes, base, root, t, stack, done, seen, terms, activeNodes);
    var children := nodes[node].children;
    terms' := terms;
    if |children| == 0 || (|children| == 1 && nodes[children[0]].trimmed) {
      terms' := terms + [node];
    }
    if calculated {
      stack', done', seen', activeNodes' := FinishTop(nodes, base, root, t, stack, done, seen, terms, terms', activeNodes);
    } else {
      stack', seen' := DelayTop(nodes, base, root, t, stack, done, seen, terms, terms', activeNodes);
      done', activeNodes' := done, activeNodes;
    }
  }

  /** A sum of squared zeros is zero. */
  lemma {:induction false} ZeroSquareSum(tt: seq<real>, cs: seq<nat>)
    requires AllBelow(cs, |tt|) && forall k :: 0 <= k < |cs| ==> tt[cs[k]] == 0.0
    ensures SquareSum(tt, cs) == 0.0
  {
    if cs != [] {
      ZeroSquareSum(tt, cs[..|cs| - 1]);
    }
  }

  /** The root of zero is zero. */
  lemma RootOfZero(root: real -> real)
    requires IsSqrt(root)
    ensures root(0.0) == 0.0
  {
    var r := root(0.0);
    assert 0.0 <= r && r * r == 0.0;
    if r != 0.0 {
      SquareMonoStrict(0.0, r);
    }
  }

  /**
    Lines 356-414: the walk. For a positive base every node the walk reaches
    holds its thickness and every other node keeps its zero, the count is
    the number of nodes in the mesh, and the branch ends collected are the
    reached nodes that end a branch. For a base of zero or less only the
    root is finished.
   */
  method ThicknessPass(nodes: seq<GrowerNode>, base: real, root: real -> real, t: array<real>)
    returns (activeNodes: nat, terminators: seq<nat>)
    modifies t
    requires WellFormed(nodes) && IsSqrt(root)
    requires t.Length == |nodes| && forall i :: 0 <= i < t.Length ==> t[i] == 0.0
    ensures 0.0 < base ==>
      && (forall i :: 0 <= i < |nodes| ==> t[i] == if Visited(nodes, i) then Thick(nodes, base, root, i) else 0.0)
      && activeNodes == |ActiveBelow(nodes, |nodes|)|
      && (forall x: nat :: x in terminators <==> x < |nodes| && Visited(nodes, x) && Terminates(nodes, x))
    ensures base <= 0.0 ==>
      && (forall i :: 0 <= i < |nodes| ==> t[i] == if i == 0 then FlatRoot(nodes, base) else 0.0)
      && activeNodes == FlatCount(nodes)
      && (forall x: nat :: x in terminators <==> x == 0 && Terminates(nodes, 0))
  {
    activeNodes, terminators := 0, [];
    var recursion := [0];
    ghost var done: set<nat> := {};
    ghost var seen: set<nat> := {};
    if 0.0 < base {
      PassStart(nodes, base, root, t[..]);
    } else {
      RootOfZero(root);
    }
    while recursion != []
      invariant WalkInv(nodes, base, root, t[..], recursion, done, seen, terminators, activeNodes)
      decreases Range(|nodes|) - seen, |recursion|
    {
      recursion, done, seen, terminators, activeNodes := WalkStep(nodes, base, root, t, recursion, done, seen, terminators, activeNodes);
    }
    if 0.0 < base {
      PassEnd(nodes, base, root, t[..], done, seen, terminators, activeNodes);
    }
  }

  /** Lines 416-419: every collected branch end is set to the terminator thickness; nothing else changes. */
  method ForceTerminators(t: array<real>, terminators: seq<nat>)
    modifies t
    requires AllBelow(terminators, t.Length)
    ensures forall i :: 0 <= i < t.Length ==> t[i] == if i in terminators then TERMINATOR_THICKNESS else old(t[i])
  {
    var k := 0;
    while k < |terminators|
      invariant 0 <= k <= |terminators|
      invariant forall i :: 0 <= i < t.Length ==> t[i] == if i in terminators[..k] then TERMINATOR_THICKNESS else old(t[i])
    {
      assert terminators[..k + 1] == terminators[..k] + [terminators[k]];
      t[terminators[k]] := TERMINATOR_THICKNESS;
      k := k + 1;
    }
    assert terminators[..k] == terminators;
  }

  /** A node's value after the walk and the forcing of branch ends, for a positive base. */
  function Forced(nodes: seq<GrowerNode>, base: real, root: real -> real, i: nat): real
    requires WellFormed(nodes) && i < |nodes|
  {
    if Visited(nodes, i) && Terminates(nodes, i) then TERMINATOR_THICKNESS
    else if Visited(nodes, i) then Thick(nodes, base, root, i)
    else 0.0
  }

  /** A node's value after the walk and the forcing of branch ends, for a base of zero or less. */
  function ForcedFlat(nodes: seq<GrowerNode>, base: real, i: nat): real
    requires WellFormed(nodes) && i < |nodes|
  {
    if i == 0 && Terminates(nodes, 0) then TERMINATOR_THICKNESS
    else if i == 0 then FlatRoot(nodes, base)
    else 0.0
  }

  /** Every node's value after the walk and the forcing of branch ends, for a positive base. */
  function ForcedValues(nodes: seq<GrowerNode>, base: real, root: real -> real): (r: seq<real>)
    requires WellFormed(nodes)
    ensures |r| == |nodes|
    ensures forall i :: 0 <= i < |nodes| ==> r[i] == Forced(nodes, base, root, i)
  {
    seq(|nodes|, i => if 0 <= i < |nodes| then Forced(nodes, base, root, i) else 0.0)
  }

  /** Every node's value after the walk and the forcing of branch ends, for a base of zero or less. */
  function ForcedFlatValues(nodes: seq<GrowerNode>, base: real): (r: seq<real>)
    requires WellFormed(nodes)
    ensures |r| == |nodes|
    ensures forall i :: 0 <= i < |nodes| ==> r[i] == ForcedFlat(nodes, base, i)
  {
    seq(|nodes|, i => if 0 <= i < |nodes| then ForcedFlat(nodes, base, i) else 0.0)
  }

  /**
    Lines 356-419 of src/GrowerShape.cpp (lines 412-473 of
    Grower/MesherNode.cpp): the walk over a zeroed array, then the branch ends
    it collected forced to the terminator thickness.
   */
  method WalkAndForce(nodes: seq<GrowerNode>, base: real, root: real -> real, t: array<real>) returns (activeNodes: nat)
    modifies t
    requires WellFormed(nodes) && IsSqrt(root)
    requires t.Length == |nodes| && forall i :: 0 <= i < t.Length ==> t[i] == 0.0
    ensures 0.0 < base ==>
      activeNodes == |ActiveBelow(nodes, |nodes|)| && forall i :: 0 <= i < |nodes| ==> t[i] == Forced(nodes, base, root, i)
    ensures base <= 0.0 ==>
      activeNodes == FlatCount(nodes) && forall i :: 0 <= i < |nodes| ==> t[i] == ForcedFlat(nodes, base, i)
  {
    var terminators;
    activeNodes, terminators := ThicknessPass(nodes, base, root, t);
    TerminatorsBelow(nodes, terminators, base);
    ForceTerminators(t, terminators);
  }

  /** The collected branch ends are node indices. */
  lemma TerminatorsBelow(nodes: seq<GrowerNode>, terminators: seq<nat>, base: real)
    requires WellFormed(nodes)
    requires 0.0 < base ==> forall x: nat :: x in terminators <==> x < |nodes| && Visited(nodes, x) && Terminates(nodes, x)
    requires base <= 0.0 ==> forall x: nat :: x in terminators <==> x == 0 && Terminates(nodes, 0)
    ensures AllBelow(terminators, |nodes|)
  {
    forall k | 0 <= k < |terminators|
      ensures terminators[k] < |nodes|
    {
      assert terminators[k] in terminators;
    }
  }

  /* ---------- scaling the base ---------- */

  /** Two non-negative numbers with the same square are equal. */
  lemma SqrtUnique(p: real, q: real)
    requires 0.0 <= p && 0.0 <= q && p * p == q * q
    ensures p == q
  {
    if p < q {
      SquareMonoStrict(p, q);
    } else if q < p {
      SquareMonoStrict(q, p);
    }
  }

  /** The root of `y == b * b * x` is `b` times the root of `x`, for non-negative `b` and `x`. */
  lemma RootScale(root: real -> real, b: real, x: real, y: real)
    requires IsSqrt(root) && 0.0 <= b && 0.0 <= x && y == b * b * x
    ensures root(y) == b * root(x)
  {
    var r := root(x);
    assert 0.0 <= r && r * r == x;
    assert 0.0 <= y by {
      assert 0.0 <= b * b;
    }
    var q := root(y);
    assert 0.0 <= q && q * q == y;
    assert (b * r) * (b * r) == b * b * (r * r);
    assert 0.0 <= b * r;
    SqrtUnique(q, b * r);
  }

  /** Thickness is proportional to the base: every node is `base` times as thick as it is for a base of one. */
  lemma {:induction false} ThickScale(nodes: seq<GrowerNode>, base: real, root: real -> real, i: nat)
    requires WellFormed(nodes) && IsSqrt(root) && 0.0 <= base && i < |nodes|
    ensures Thick(nodes, base, root, i) == base * Thick(nodes, 1.0, root, i)
    decreases |nodes| - i, |nodes[i].children| + 1
  {
    if nodes[i].children != [] && !nodes[i].trimmed {
      var n := |nodes[i].children|;
      SumSqScale(nodes, base, root, i, n);
      SumSqAtLeast(nodes, 1.0, root, i, n);
      ThickScaleStep(nodes, base, root, i);
    }
  }

  /** A joint whose sum of squares is in proportion is itself in proportion. */
  lemma ThickScaleStep(nodes: seq<GrowerNode>, base: real, root: real -> real, i: nat)
    requires WellFormed(nodes) && IsSqrt(root) && 0.0 <= base && i < |nodes|
    requires nodes[i].children != [] && !nodes[i].trimmed
    requires 0.0 <= SumSq(nodes, 1.0, root, i, |nodes[i].children|)
    requires SumSq(nodes, base, root, i, |nodes[i].children|) == base * base * SumSq(nodes, 1.0, root, i, |nodes[i].children|)
    ensures Thick(nodes, base, root, i) == base * Thick(nodes, 1.0, root, i)
  {
    var n := |nodes[i].children|;
    var s := SumSq(nodes, 1.0, root, i, n);
    RootScale(root, base, s, SumSq(nodes, base, root, i, n));
    assert Thick(nodes, base, root, i) == root(SumSq(nodes, base, root, i, n));
    assert Thick(nodes, 1.0, root, i) == root(s);
  }

  /** One more child keeps the sums in proportion. */
  lemma ScaleStep(b: real, s: real, sb: real, t: real, tb: real)
    requires sb == b * b * s && tb == b * t
    ensures sb + tb * tb == b * b * (s + t * t)
  {
    assert tb * tb == b * b * (t * t);
  }

  /** Adding a child whose thickness is in proportion keeps a partial sum in proportion. */
  lemma SumSqScaleStep(nodes: seq<GrowerNode>, base: real, root: real -> real, i: nat, j: nat)
    requires WellFormed(nodes) && i < |nodes| && 0 < j <= |nodes[i].children|
    requires nodes[i].children[j - 1] < |nodes|
    requires SumSq(nodes, base, root, i, j - 1) == base * base * SumSq(nodes, 1.0, root, i, j - 1)
    requires Thick(nodes, base, root, nodes[i].children[j - 1]) == base * Thick(nodes, 1.0, root, nodes[i].children[j - 1])
    ensures SumSq(nodes, base, root, i, j) == base * base * SumSq(nodes, 1.0, root, i, j)
  {
    var c := nodes[i].children[j - 1];
    var s := SumSq(nodes, 1.0, root, i, j - 1);
    var sb := SumSq(nodes, base, root, i, j - 1);
    var t := Thick(nodes, 1.0, root, c);
    var tb := Thick(nodes, base, root, c);
    calc {
      SumSq(nodes, base, root, i, j);
      sb + tb * tb;
      { ScaleStep(base, s, sb, t, tb); }
      base * base * (s + t * t);
      base * base * SumSq(nodes, 1.0, root, i, j);
    }
  }

  /** The partial sums of squares scale with the square of the base. */
  lemma {:induction false} SumSqScale(nodes: seq<GrowerNode>, base: real, root: real -> real, i: nat, j: nat)
    requires WellFormed(nodes) && IsSqrt(root) && 0.0 <= base && i < |nodes| && j <= |nodes[i].children|
    ensures SumSq(nodes, base, root, i, j) == base * base * SumSq(nodes, 1.0, root, i, j)
    decreases |nodes| - i, j
  {
    if 0 < j {
      ChildAfterParent(nodes, i, j - 1);
      SumSqScale(nodes, base, root, i, j - 1);
      ThickScale(nodes, base, root, nodes[i].children[j - 1]);
      SumSqScaleStep(nodes, base, root, i, j);
    }
  }

  /** Every value after the walk and the forcing, branch ends apart, is `base` times its value for a base of one. */
  lemma ForcedScale(nodes: seq<GrowerNode>, base: real, root: real -> real, i: nat)
    requires WellFormed(nodes) && IsSqrt(root) && 0.0 <= base && i < |nodes|
    ensures Forced(nodes, base, root, i) ==
      if Visited(nodes, i) && Terminates(nodes, i) then TERMINATOR_THICKNESS else base * Forced(nodes, 1.0, root, i)
  {
    ThickScale(nodes, base, root, i);
  }
}
