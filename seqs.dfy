/**
  Index lists as the growth engine keeps them: `std::vector`s of indices that
  are appended to without duplicates, swap-removed, and bounded by the number
  of nodes or attraction points.
 */
module Seqs {

  predicate Distinct(s: seq<nat>)
  {
    forall a, b :: 0 <= a < b < |s| ==> s[a] != s[b]
  }

  predicate AllBelow(s: seq<nat>, n: nat)
  {
    forall k :: 0 <= k < |s| ==> s[k] < n
  }

  /** What `insertUnique(v, s)` leaves in `v`. */
  function Inserted(v: seq<nat>, s: nat): seq<nat>
  {
    if s in v then v else v + [s]
  }

  /** `insertUnique`: a linear scan for `s`, appended only if the scan runs off the end. */
  method InsertUnique(v: seq<nat>, s: nat) returns (r: seq<nat>)
    ensures r == Inserted(v, s)
  {
    var it := 0;
    while it < |v|
      invariant 0 <= it <= |v|
      invariant s !in v[..it]
    {
      if v[it] == s {
        break;
      }
      it := it + 1;
    }
    if it == |v| {
      assert v[..it] == v;
      r := v + [s];
    } else {
      r := v;
    }
  }

  /** Inserting keeps the old order, adds exactly `s` to the contents, and keeps a list duplicate-free. */
  lemma InsertedFacts(v: seq<nat>, s: nat)
    ensures Inserted(v, s)[..|v|] == v
    ensures s in Inserted(v, s)
    ensures forall x :: x in Inserted(v, s) <==> x in v || x == s
    ensures |Inserted(v, s)| == if s in v then |v| else |v| + 1
    ensures Distinct(v) ==> Distinct(Inserted(v, s))
  {
  }

  /** The result of inserting every element of `s`, in order, into `acc`. */
  function InsertAll(acc: seq<nat>, s: seq<nat>): seq<nat>
    decreases |s|
  {
    if s == [] then acc else InsertAll(Inserted(acc, s[0]), s[1..])
  }

  /**
    Inserting a whole list keeps `acc` as a prefix, leaves a duplicate-free
    list duplicate-free, and yields exactly the elements of both.
   */
  lemma {:induction false} InsertAllFacts(acc: seq<nat>, s: seq<nat>)
    ensures |acc| <= |InsertAll(acc, s)| && InsertAll(acc, s)[..|acc|] == acc
    ensures forall x :: x in InsertAll(acc, s) <==> x in acc || x in s
    ensures Distinct(acc) ==> Distinct(InsertAll(acc, s))
    decreases |s|
  {
    if s != [] {
      var acc' := Inserted(acc, s[0]);
      InsertedFacts(acc, s[0]);
      InsertAllFacts(acc', s[1..]);
      var r := InsertAll(acc', s[1..]);
      assert r[..|acc|] == r[..|acc'|][..|acc|];
      forall x ensures x in r <==> x in acc || x in s {
        assert x in s <==> x == s[0] || x in s[1..] by {
          assert s == [s[0]] + s[1..];
        }
      }
    }
  }

  /** First-seen order is kept: `InsertAll` of one more element is one more `Inserted`. */
  lemma {:induction false} InsertAllSnoc(acc: seq<nat>, s: seq<nat>, x: nat)
    ensures InsertAll(acc, s + [x]) == Inserted(InsertAll(acc, s), x)
    decreases |s|
  {
    if s == [] {
      assert [x][1..] == [];
    } else {
      assert (s + [x])[1..] == s[1..] + [x];
      InsertAllSnoc(Inserted(acc, s[0]), s[1..], x);
    }
  }

  /** The elements of a list as a set. */
  function Elements(s: seq<nat>): set<nat>
  {
    set k | 0 <= k < |s| :: s[k]
  }

  /** The indices below `n`. */
  function Range(n: nat): (r: set<nat>)
    ensures forall x: nat :: x in r <==> x < n
    ensures |r| == n
  {
    if n == 0 then {} else Range(n - 1) + {n - 1}
  }

  lemma {:induction false} SubsetSize(a: set<nat>, b: set<nat>)
    requires a <= b
    ensures |a| <= |b|
  {
    if a != {} {
      var x :| x in a;
      SubsetSize(a - {x}, b - {x});
    }
  }

  lemma {:induction false} DistinctElementsSize(s: seq<nat>)
    requires Distinct(s)
    ensures |Elements(s)| == |s|
  {
    if s != [] {
      var t := s[..|s| - 1];
      assert Distinct(t);
      DistinctElementsSize(t);
      assert Elements(s) == Elements(t) + {s[|s| - 1]};
      assert s[|s| - 1] !in Elements(t);
    }
  }

  /** A duplicate-free list of indices below `n` has at most `n` entries. */
  lemma Pigeonhole(s: seq<nat>, n: nat)
    requires Distinct(s) && AllBelow(s, n)
    ensures |s| <= n
  {
    DistinctElementsSize(s);
    SubsetSize(Elements(s), Range(n));
  }

  /** `v[i] = v.back(); v.resize(size - 1)`. */
  function SwapRemove(s: seq<nat>, i: nat): (r: seq<nat>)
    requires i < |s|
  {
    s[i := s[|s| - 1]][..|s| - 1]
  }

  /** Swap-removal drops exactly `s[i]` from a duplicate-free list and keeps the rest. */
  lemma SwapRemoveFacts(s: seq<nat>, i: nat)
    requires i < |s| && Distinct(s)
    ensures |SwapRemove(s, i)| == |s| - 1
    ensures Distinct(SwapRemove(s, i))
    ensures forall x :: x in SwapRemove(s, i) <==> x in s && x != s[i]
    ensures SwapRemove(s, i)[..i] == s[..i]
  {
    var r := SwapRemove(s, i);
    forall x ensures x in r <==> x in s && x != s[i] {
      if x in s && x != s[i] {
        var k :| 0 <= k < |s| && s[k] == x;
        if k == |s| - 1 {
          assert r[i] == x;
        } else {
          assert r[k] == x;
        }
      }
    }
  }

  /** The part of the list from `i` on loses exactly `s[i]`. */
  lemma SwapRemoveSuffix(s: seq<nat>, i: nat)
    requires i < |s| && Distinct(s)
    ensures forall x :: x in SwapRemove(s, i)[i..] <==> x in s[i..] && x != s[i]
  {
    var r := SwapRemove(s, i);
    var last := |s| - 1;
    forall x ensures x in r[i..] <==> x in s[i..] && x != s[i]
    {
      if x in r[i..] {
        var k :| i <= k < |r| && r[k] == x;
        if k == i {
          assert s[last] == x && s[i..][last - i] == x;
        } else {
          assert s[k] == x && s[i..][k - i] == x;
        }
      }
      if x in s[i..] && x != s[i] {
        var n :| i <= n < |s| && s[n] == x;
        if n == last {
          assert r[i] == x && r[i..][0] == x;
        } else {
          assert r[n] == x && r[i..][n - i] == x;
        }
      }
    }
  }

  /** A duplicate-free suffix from `j` is its first element followed by the suffix from `j + 1`, which lacks it. */
  lemma SuffixStep(s: seq<nat>, j: nat)
    requires j < |s| && Distinct(s)
    ensures forall x :: x in s[j..] <==> x == s[j] || x in s[j + 1..]
    ensures s[j] !in s[j + 1..]
  {
    assert s[j..] == [s[j]] + s[j + 1..];
  }
}
