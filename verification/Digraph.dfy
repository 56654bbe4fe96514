/**
 Finite directed graphs over the numbers below `n`: a graph has no cycle exactly when its
 nodes can be ranked so that every edge goes down.
 */
module Digraph {

  type Edges = (nat, nat) -> bool

  ghost predicate IsWalk(n: nat, e: Edges, p: seq<nat>) {
    && (forall k :: 0 <= k < |p| ==> p[k] < n)
    && (forall k :: 0 <= k < |p| - 1 ==> e(p[k], p[k + 1]))
  }

  ghost predicate Acyclic(n: nat, e: Edges) {
    forall p :: IsWalk(n, e, p) && |p| >= 2 ==> p[0] != p[|p| - 1]
  }

  ghost predicate Ranks(n: nat, e: Edges, rank: seq<nat>) {
    |rank| == n && forall u: nat, v: nat :: u < n && v < n && e(u, v) ==> rank[v] < rank[u]
  }

  /** The edges between different nodes. */
  function Proper(e: Edges): Edges {
    (u: nat, v: nat) => e(u, v) && u != v
  }

  /** A walk without its steps from a node to itself. */
  lemma {:induction false} Unstutter(n: nat, e: Edges, p: seq<nat>) returns (q: seq<nat>)
    requires IsWalk(n, e, p) && p != []
    ensures IsWalk(n, Proper(e), q) && q != [] && q[0] == p[0] && q[|q| - 1] == p[|p| - 1]
  {
    if |p| == 1 {
      q := p;
    } else {
      var front, last := p[..|p| - 1], p[|p| - 1];
      q := Unstutter(n, e, front);
      if q[|q| - 1] != last {
        q := q + [last];
      }
    }
  }

  ghost predicate HasWalk(n: nat, e: Edges, u: nat, length: nat) {
    exists p :: IsWalk(n, e, p) && |p| == length + 1 && p[0] == u
  }

  /** The longest walk from `u` with at most `limit` edges. */
  ghost function Longest(n: nat, e: Edges, u: nat, limit: nat): (length: nat)
    requires u < n
    ensures length <= limit && HasWalk(n, e, u, length)
    ensures forall k: nat :: length < k <= limit ==> !HasWalk(n, e, u, k)
  {
    if limit == 0 then assert IsWalk(n, e, [u]); 0
    else if HasWalk(n, e, u, limit) then limit
    else Longest(n, e, u, limit - 1)
  }

  /** More entries than values: two are equal. */
  lemma {:induction false} Pigeonhole(n: nat, p: seq<nat>) returns (i: nat, j: nat)
    requires |p| > n && forall k :: 0 <= k < |p| ==> p[k] < n
    ensures i < j < |p| && p[i] == p[j]
  {
    var last := p[|p| - 1];
    if k :| 0 <= k < |p| - 1 && p[k] == last {
      i, j := k, |p| - 1;
    } else {
      // rename the top value to the unused one
      var q := seq(|p| - 1, k requires 0 <= k < |p| - 1 => if p[k] == n - 1 then last else p[k]);
      i, j := Pigeonhole(n - 1, q);
    }
  }

  lemma LongWalkHasCycle(n: nat, e: Edges, p: seq<nat>) returns (cycle: seq<nat>)
    requires IsWalk(n, e, p) && |p| == n + 1
    ensures IsWalk(n, e, cycle) && |cycle| >= 2 && cycle[0] == cycle[|cycle| - 1]
  {
    var i, j := Pigeonhole(n, p);
    cycle := p[i..j + 1];
  }

  lemma LongWalkRepeats(n: nat, e: Edges, u: nat)
    requires Acyclic(n, e)
    ensures !HasWalk(n, e, u, n)
  {
    if HasWalk(n, e, u, n) {
      var p :| IsWalk(n, e, p) && |p| == n + 1 && p[0] == u;
      var _ := LongWalkHasCycle(n, e, p);
    }
  }

  lemma WalkExtends(n: nat, e: Edges, u: nat, v: nat, length: nat)
    requires u < n && e(u, v) && HasWalk(n, e, v, length)
    ensures HasWalk(n, e, u, length + 1)
  {
    var p :| IsWalk(n, e, p) && |p| == length + 1 && p[0] == v;
    var q := [u] + p;
    assert forall k :: 0 < k < |q| ==> q[k] == p[k - 1];
    assert IsWalk(n, e, q);
  }

  /** Ranking by the longest walk. */
  lemma AcyclicIsRanked(n: nat, e: Edges) returns (rank: seq<nat>)
    requires Acyclic(n, e)
    ensures Ranks(n, e, rank)
  {
    rank := seq(n, u requires 0 <= u < n => Longest(n, e, u, n));
    forall u: nat, v: nat | u < n && v < n && e(u, v) ensures rank[v] < rank[u] {
      LongWalkRepeats(n, e, v);
      WalkExtends(n, e, u, v, rank[v]);
    }
  }

  lemma {:induction false} WalkDescends(n: nat, e: Edges, rank: seq<nat>, p: seq<nat>)
    requires Ranks(n, e, rank) && IsWalk(n, e, p) && |p| >= 2
    ensures rank[p[|p| - 1]] < rank[p[0]]
  {
    var q := p[1..];
    assert forall k :: 0 <= k < |q| ==> q[k] == p[k + 1];
    assert e(p[0], p[1]);
    if |p| > 2 {
      WalkDescends(n, e, rank, q);
    }
  }

  /** A ranked graph has no cycle. */
  lemma RankedIsAcyclic(n: nat, e: Edges, rank: seq<nat>)
    requires Ranks(n, e, rank)
    ensures Acyclic(n, e)
  {
    forall p | IsWalk(n, e, p) && |p| >= 2 ensures p[0] != p[|p| - 1] {
      WalkDescends(n, e, rank, p);
    }
  }
}
