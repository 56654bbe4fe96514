/**
 Branch threading (pheta_optimise_transitive_branch, dynarec/pheta.c): branches into
 blocks without instructions are redirected past them, until nothing changes.
 */
module BranchThreading {
  import Digraph

  // ---------- condition codes ----------

  const AL := 14

  /** A predicate with its low bit flipped: the opposite condition. */
  function Opposite(p: nat): nat {
    if p % 2 == 0 then p + 1 else p - 1
  }

  /** What the flags say about each predicate at one moment. */
  type Conditions = nat -> bool

  ghost predicate Consistent(cc: Conditions) {
    cc(AL) && forall p :: cc(Opposite(p)) == !cc(p)
  }

  // ---------- the block graph ----------

  /** No block: control leaves the chunk. */
  const NULL := -1

  /** Blocks by number: whether each is empty, its predicate, and its two successors. */
  datatype Graph = Graph(empty: seq<bool>, predicates: seq<nat>, trueblk: seq<int>, falseblk: seq<int>)

  ghost predicate WellFormed(g: Graph) {
    && |g.predicates| == |g.trueblk| == |g.falseblk| == |g.empty|
    && (forall b :: 0 <= b < |g.empty| ==> NULL <= g.trueblk[b] < |g.empty|)
    && (forall b :: 0 <= b < |g.empty| ==> NULL <= g.falseblk[b] < |g.empty|)
  }

  predicate IsEmpty(g: Graph, b: int) {
    0 <= b < |g.empty| && g.empty[b]
  }

  predicate EmptyEdge(g: Graph, u: nat, v: nat) {
    IsEmpty(g, u) && IsEmpty(g, v) && u < |g.trueblk| && u < |g.falseblk| && (g.trueblk[u] == v || g.falseblk[u] == v)
  }

  function EmptyEdges(g: Graph): Digraph.Edges {
    (u: nat, v: nat) => EmptyEdge(g, u, v)
  }

  /** No cycle consists of empty blocks only. */
  ghost predicate NoEmptyCycle(g: Graph) {
    Digraph.Acyclic(|g.empty|, EmptyEdges(g))
  }

  ghost predicate Ranked(g: Graph, rank: seq<nat>) {
    |rank| == |g.empty| && forall u: nat, v: nat :: EmptyEdge(g, u, v) ==> rank[v] < rank[u]
  }

  lemma RankExists(g: Graph) returns (rank: seq<nat>)
    requires NoEmptyCycle(g)
    ensures Ranked(g, rank)
  {
    rank := Digraph.AcyclicIsRanked(|g.empty|, EmptyEdges(g));
    forall u: nat, v: nat | EmptyEdge(g, u, v) ensures rank[v] < rank[u] {
      assert EmptyEdges(g)(u, v);
    }
  }

  lemma RankedHasNoEmptyCycle(g: Graph, rank: seq<nat>)
    requires Ranked(g, rank)
    ensures NoEmptyCycle(g)
  {
    Digraph.RankedIsAcyclic(|g.empty|, EmptyEdges(g), rank);
  }

  // ---------- meaning ----------

  function Exit(g: Graph, b: nat, cc: Conditions): (s: int)
    requires b < |g.predicates| && b < |g.trueblk| && b < |g.falseblk|
  {
    if cc(g.predicates[b]) then g.trueblk[b] else g.falseblk[b]
  }

  /** Where control that reaches `b` is after passing up to `n` empty blocks. */
  function Walk(g: Graph, b: int, cc: Conditions, n: nat): (s: int)
    requires WellFormed(g) && NULL <= b < |g.empty|
    ensures NULL <= s < |g.empty|
    decreases n
  {
    if n == 0 || !IsEmpty(g, b) then b else Walk(g, Exit(g, b, cc), cc, n - 1)
  }

  /** Control that reaches `b` does its next work in `s`, or leaves the chunk. */
  ghost predicate LandsAt(g: Graph, b: int, cc: Conditions, s: int)
    requires WellFormed(g) && NULL <= b < |g.empty|
  {
    !IsEmpty(g, s) && exists n: nat :: Walk(g, b, cc, n) == s
  }

  /** Control goes round empty blocks for ever. */
  const SPIN := -2

  /** Where control that reaches `b` does its next work: the first block that is not empty, none, or nowhere ever. */
  ghost function Land(g: Graph, b: int, cc: Conditions): (s: int)
    requires WellFormed(g) && NULL <= b < |g.empty|
    ensures SPIN <= s < |g.empty|
    ensures s == SPIN || LandsAt(g, b, cc, s)
  {
    if exists s: int, n: nat :: Walk(g, b, cc, n) == s && !IsEmpty(g, s) then
      var s: int, n: nat :| Walk(g, b, cc, n) == s && !IsEmpty(g, s);
      s
    else SPIN
  }

  lemma {:induction false} LandedStays(g: Graph, b: int, cc: Conditions, n: nat, m: nat)
    requires WellFormed(g) && NULL <= b < |g.empty| && n <= m && !IsEmpty(g, Walk(g, b, cc, n))
    ensures Walk(g, b, cc, m) == Walk(g, b, cc, n)
    decreases n
  {
    if n > 0 && IsEmpty(g, b) { LandedStays(g, Exit(g, b, cc), cc, n - 1, m - 1); }
  }

  lemma LandIs(g: Graph, b: int, cc: Conditions, s: int)
    requires WellFormed(g) && NULL <= b < |g.empty| && LandsAt(g, b, cc, s)
    ensures Land(g, b, cc) == s
  {
    var n: nat :| Walk(g, b, cc, n) == s;
    var s' := Land(g, b, cc);
    var n': nat :| Walk(g, b, cc, n') == s';
    if n <= n' { LandedStays(g, b, cc, n, n'); } else { LandedStays(g, b, cc, n', n); }
  }

  /**
   The blocks that do work, in order, when `b` is entered with conditions `cc`, and each
   executed block leaves the conditions of the next element of `ccs`.
   */
  ghost function Trace(g: Graph, b: int, cc: Conditions, ccs: seq<Conditions>): seq<int>
    requires WellFormed(g) && NULL <= b < |g.empty|
    decreases |ccs|
  {
    var s := Land(g, b, cc);
    if s < 0 || ccs == [] then [s]
    else [s] + Trace(g, Exit(g, s, ccs[0]), ccs[0], ccs[1..])
  }

  /** Where control comes to work it does it and goes on; where it comes to none, or the conditions end, the trace ends. */
  lemma TraceExactly(g: Graph, b: int, cc: Conditions, ccs: seq<Conditions>)
    requires WellFormed(g) && NULL <= b < |g.empty|
    ensures var s := Land(g, b, cc);
            Trace(g, b, cc, ccs) ==
            if 0 <= s && |ccs| > 0 then [s] + Trace(g, Exit(g, s, ccs[0]), ccs[0], ccs[1..]) else [s]
  {
  }

  /** The same work from every block under all conditions. */
  ghost predicate SameMeaning(g: Graph, h: Graph)
    requires WellFormed(g) && WellFormed(h)
  {
    && h.empty == g.empty
    && (forall b, cc :: NULL <= b < |g.empty| && Consistent(cc) ==> Land(h, b, cc) == Land(g, b, cc))
    && (forall b, cc :: 0 <= b < |g.empty| && Consistent(cc) ==>
          Land(h, Exit(h, b, cc), cc) == Land(g, Exit(g, b, cc), cc))
  }

  /** Hence the same work over whole runs. */
  lemma {:induction false} SameTrace(g: Graph, h: Graph, b: int, b': int, cc: Conditions, ccs: seq<Conditions>)
    requires WellFormed(g) && WellFormed(h) && SameMeaning(g, h)
    requires NULL <= b < |g.empty| && NULL <= b' < |g.empty|
    requires Consistent(cc) && forall k :: 0 <= k < |ccs| ==> Consistent(ccs[k])
    requires Land(h, b', cc) == Land(g, b, cc)
    ensures Trace(h, b', cc, ccs) == Trace(g, b, cc, ccs)
    decreases |ccs|
  {
    var s := Land(g, b, cc);
    if s >= 0 && ccs != [] {
      SameTrace(g, h, Exit(g, s, ccs[0]), Exit(h, s, ccs[0]), ccs[0], ccs[1..]);
    }
  }

  // ---------- the rewrites ----------

  /** An unconditional branch into an empty block takes over the block's branch. */
  predicate TakesOver(g: Graph, b: nat)
    requires WellFormed(g) && b < |g.empty|
  {
    IsEmpty(g, g.trueblk[b]) && g.predicates[b] == AL && g.falseblk[b] == NULL
  }

  predicate TrueSame(g: Graph, b: nat)
    requires WellFormed(g) && b < |g.empty|
  {
    IsEmpty(g, g.trueblk[b]) && !TakesOver(g, b)
    && g.predicates[b] == g.predicates[g.trueblk[b]] && b != g.trueblk[b]
  }

  predicate TrueOpposite(g: Graph, b: nat)
    requires WellFormed(g) && b < |g.empty|
  {
    IsEmpty(g, g.trueblk[b]) && !TakesOver(g, b) && !TrueSame(g, b)
    && g.predicates[b] == Opposite(g.predicates[g.trueblk[b]])
  }

  predicate FalseSame(g: Graph, b: nat)
    requires WellFormed(g) && b < |g.empty|
  {
    IsEmpty(g, g.falseblk[b]) && g.predicates[b] == g.predicates[g.falseblk[b]] && b != g.falseblk[b]
  }

  predicate FalseOpposite(g: Graph, b: nat)
    requires WellFormed(g) && b < |g.empty|
  {
    IsEmpty(g, g.falseblk[b]) && !FalseSame(g, b) && g.predicates[b] == Opposite(g.predicates[g.falseblk[b]])
  }

  predicate Applies(g: Graph, b: nat)
    requires WellFormed(g) && b < |g.empty|
  {
    TakesOver(g, b) || TrueSame(g, b) || TrueOpposite(g, b) || FalseSame(g, b) || FalseOpposite(g, b)
  }

  /** The branch on the true side of `b`, rewritten if a rule applies. */
  function RewriteTrue(g: Graph, b: nat): (h: Graph)
    requires WellFormed(g) && b < |g.empty|
    ensures WellFormed(h) && h.empty == g.empty
  {
    var t := g.trueblk[b];
    if TakesOver(g, b) then
      g.(predicates := g.predicates[b := g.predicates[t]],
         falseblk := g.falseblk[b := g.falseblk[t]],
         trueblk := g.trueblk[b := g.trueblk[t]])
    else if TrueSame(g, b) then g.(trueblk := g.trueblk[b := g.trueblk[t]])
    else if TrueOpposite(g, b) then g.(trueblk := g.trueblk[b := g.falseblk[t]])
    else g
  }

  function RewriteFalse(g: Graph, b: nat): (h: Graph)
    requires WellFormed(g) && b < |g.empty|
    ensures WellFormed(h) && h.empty == g.empty
  {
    var f := g.falseblk[b];
    if FalseSame(g, b) then g.(falseblk := g.falseblk[b := g.falseblk[f]])
    else if FalseOpposite(g, b) then g.(falseblk := g.falseblk[b := g.trueblk[f]])
    else g
  }

  // ---------- each rewrite keeps the meaning ----------

  /** `h` is `g` but for the branch of `b`. */
  ghost predicate DiffersAt(g: Graph, h: Graph, b: nat)
    requires WellFormed(g) && WellFormed(h)
  {
    h.empty == g.empty &&
    forall k :: 0 <= k < |g.empty| && k != b ==>
      h.predicates[k] == g.predicates[k] && h.trueblk[k] == g.trueblk[k] && h.falseblk[k] == g.falseblk[k]
  }

  /** From `b`, `h` goes where `g` goes, or one empty block further. */
  ghost predicate SkipsAt(g: Graph, h: Graph, b: nat, cc: Conditions)
    requires WellFormed(g) && WellFormed(h) && b < |g.empty| == |h.empty|
  {
    var t := Exit(g, b, cc);
    Exit(h, b, cc) == t || (IsEmpty(g, t) && Exit(h, b, cc) == Exit(g, t, cc))
  }

  lemma {:induction false} LandsAfter(g: Graph, h: Graph, b: nat, x: int, cc: Conditions, n: nat)
    requires WellFormed(g) && WellFormed(h) && b < |g.empty| && DiffersAt(g, h, b) && SkipsAt(g, h, b, cc)
    requires NULL <= x < |g.empty| && !IsEmpty(g, Walk(g, x, cc, n))
    ensures LandsAt(h, x, cc, Walk(g, x, cc, n))
    decreases n
  {
    var s := Walk(g, x, cc, n);
    if !IsEmpty(g, x) {
      assert Walk(h, x, cc, 0) == s;
    } else {
      var t := Exit(g, x, cc);
      assert Walk(g, t, cc, n - 1) == s;
      if Exit(h, x, cc) != t {
        assert Walk(g, Exit(g, t, cc), cc, n - 2) == s;
        LandsAfter(g, h, b, Exit(g, t, cc), cc, n - 2);
      } else {
        LandsAfter(g, h, b, t, cc, n - 1);
      }
      OneMore(h, x, cc, s);
    }
  }

  lemma {:induction false} LandsBefore(g: Graph, h: Graph, b: nat, x: int, cc: Conditions, n: nat)
    requires WellFormed(g) && WellFormed(h) && b < |g.empty| && DiffersAt(g, h, b) && SkipsAt(g, h, b, cc)
    requires NULL <= x < |g.empty| && !IsEmpty(h, Walk(h, x, cc, n))
    ensures LandsAt(g, x, cc, Walk(h, x, cc, n))
    decreases n
  {
    var s := Walk(h, x, cc, n);
    if !IsEmpty(g, x) {
      assert Walk(g, x, cc, 0) == s;
    } else {
      var t := Exit(g, x, cc);
      LandsBefore(g, h, b, Exit(h, x, cc), cc, n - 1);
      if Exit(h, x, cc) != t { OneMore(g, t, cc, s); }
      OneMore(g, x, cc, s);
    }
  }

  /** An empty block lands where its exit does. */
  lemma OneMore(g: Graph, x: int, cc: Conditions, s: int)
    requires WellFormed(g) && IsEmpty(g, x) && LandsAt(g, Exit(g, x, cc), cc, s)
    ensures LandsAt(g, x, cc, s)
  {
    var n: nat :| Walk(g, Exit(g, x, cc), cc, n) == s;
    assert Walk(g, x, cc, n + 1) == s;
  }

  lemma LandSame(g: Graph, h: Graph, b: nat, x: int, cc: Conditions)
    requires WellFormed(g) && WellFormed(h) && b < |g.empty| && DiffersAt(g, h, b) && SkipsAt(g, h, b, cc)
    requires NULL <= x < |g.empty|
    ensures Land(h, x, cc) == Land(g, x, cc)
  {
    var s, s' := Land(g, x, cc), Land(h, x, cc);
    if s != SPIN {
      var n: nat :| Walk(g, x, cc, n) == s;
      LandsAfter(g, h, b, x, cc, n);
      LandIs(h, x, cc, s);
    } else if s' != SPIN {
      var n: nat :| Walk(h, x, cc, n) == s';
      LandsBefore(g, h, b, x, cc, n);
      LandIs(g, x, cc, s');
      assert false;
    }
  }

  lemma LandStep(g: Graph, x: int, cc: Conditions)
    requires WellFormed(g) && IsEmpty(g, x)
    ensures Land(g, x, cc) == Land(g, Exit(g, x, cc), cc)
  {
    var s, s' := Land(g, x, cc), Land(g, Exit(g, x, cc), cc);
    if s' != SPIN {
      OneMore(g, x, cc, s');
      LandIs(g, x, cc, s');
    } else if s != SPIN {
      var n: nat :| Walk(g, x, cc, n) == s;
      assert Walk(g, Exit(g, x, cc), cc, n - 1) == s;
      LandIs(g, Exit(g, x, cc), cc, s);
      assert false;
    }
  }

  lemma DiffersAtKeepsMeaning(g: Graph, h: Graph, b: nat)
    requires WellFormed(g) && WellFormed(h) && b < |g.empty| && DiffersAt(g, h, b)
    requires forall cc :: Consistent(cc) ==> SkipsAt(g, h, b, cc)
    ensures SameMeaning(g, h)
  {
    hide Land;
    forall x, cc | NULL <= x < |g.empty| && Consistent(cc) ensures Land(h, x, cc) == Land(g, x, cc) {
      LandSame(g, h, b, x, cc);
    }
    forall x, cc | 0 <= x < |g.empty| && Consistent(cc)
      ensures Land(h, Exit(h, x, cc), cc) == Land(g, Exit(g, x, cc), cc)
    {
      LandSame(g, h, b, Exit(h, x, cc), cc);
      if x == b && Exit(h, x, cc) != Exit(g, x, cc) { LandStep(g, Exit(g, x, cc), cc); }
    }
  }

  lemma RewriteTrueKeeps(g: Graph, b: nat)
    requires WellFormed(g) && b < |g.empty|
    ensures SameMeaning(g, RewriteTrue(g, b))
  {
    DiffersAtKeepsMeaning(g, RewriteTrue(g, b), b);
  }

  lemma RewriteFalseKeeps(g: Graph, b: nat)
    requires WellFormed(g) && b < |g.empty|
    ensures SameMeaning(g, RewriteFalse(g, b))
  {
    DiffersAtKeepsMeaning(g, RewriteFalse(g, b), b);
  }

  lemma SameMeaningTransitive(g: Graph, h: Graph, k: Graph)
    requires WellFormed(g) && WellFormed(h) && WellFormed(k)
    requires SameMeaning(g, h) && SameMeaning(h, k)
    ensures SameMeaning(g, k)
  {
    hide Land;
  }

  lemma RewriteTrueKeepsRank(g: Graph, rank: seq<nat>, b: nat)
    requires WellFormed(g) && Ranked(g, rank) && b < |g.empty|
    ensures Ranked(RewriteTrue(g, b), rank)
  {
    var h, t := RewriteTrue(g, b), g.trueblk[b];
    forall u: nat, v: nat | EmptyEdge(h, u, v) ensures rank[v] < rank[u] {
      if !EmptyEdge(g, u, v) {
        assert EmptyEdge(g, b, t) && EmptyEdge(g, t, v);
      }
    }
  }

  lemma RewriteFalseKeepsRank(g: Graph, rank: seq<nat>, b: nat)
    requires WellFormed(g) && Ranked(g, rank) && b < |g.empty|
    ensures Ranked(RewriteFalse(g, b), rank)
  {
    var h, f := RewriteFalse(g, b), g.falseblk[b];
    forall u: nat, v: nat | EmptyEdge(h, u, v) ensures rank[v] < rank[u] {
      if !EmptyEdge(g, u, v) {
        assert EmptyEdge(g, b, f) && EmptyEdge(g, f, v);
      }
    }
  }

  // ---------- each rewrite shrinks the graph's weight ----------

  ghost function Power3(k: nat): (w: nat)
    ensures w >= 1
  {
    if k == 0 then 1 else 3 * Power3(k - 1)
  }

  lemma {:induction false} Power3Grows(j: nat, k: nat)
    requires j < k
    ensures 3 * Power3(j) <= Power3(k)
    decreases k
  {
    if j < k - 1 { Power3Grows(j, k - 1); }
  }

  /** An edge weighs more the more empty blocks lie ahead of it. */
  ghost function EdgeWeight(g: Graph, rank: seq<nat>, s: int): nat
    requires |rank| == |g.empty|
  {
    if IsEmpty(g, s) then Power3(rank[s]) else 0
  }

  ghost function BlockWeight(g: Graph, rank: seq<nat>, b: nat): nat
    requires WellFormed(g) && |rank| == |g.empty| && b < |g.empty|
  {
    EdgeWeight(g, rank, g.trueblk[b]) + EdgeWeight(g, rank, g.falseblk[b])
  }

  ghost function Weight(g: Graph, rank: seq<nat>, n: nat): nat
    requires WellFormed(g) && |rank| == |g.empty| && n <= |g.empty|
  {
    if n == 0 then 0 else Weight(g, rank, n - 1) + BlockWeight(g, rank, n - 1)
  }

  lemma {:induction false} WeightDiffers(g: Graph, h: Graph, rank: seq<nat>, b: nat, n: nat)
    requires WellFormed(g) && WellFormed(h) && |rank| == |g.empty| && DiffersAt(g, h, b) && b < |g.empty|
    requires n <= |g.empty|
    ensures Weight(h, rank, n) - Weight(g, rank, n) ==
            if b < n then BlockWeight(h, rank, b) - BlockWeight(g, rank, b) else 0
  {
    if n > 0 {
      WeightDiffers(g, h, rank, b, n - 1);
    }
  }

  /** The successors of an empty block weigh less together than the edge into it. */
  lemma SuccessorsWeighLess(g: Graph, rank: seq<nat>, t: nat, s: int)
    requires WellFormed(g) && Ranked(g, rank) && IsEmpty(g, t)
    requires s == g.trueblk[t] || s == g.falseblk[t]
    ensures 3 * EdgeWeight(g, rank, s) <= EdgeWeight(g, rank, t)
  {
    if IsEmpty(g, s) {
      assert EmptyEdge(g, t, s);
      Power3Grows(rank[s], rank[t]);
    }
  }

  lemma RewriteTrueShrinks(g: Graph, rank: seq<nat>, b: nat)
    requires WellFormed(g) && Ranked(g, rank) && b < |g.empty|
    requires TakesOver(g, b) || TrueSame(g, b) || TrueOpposite(g, b)
    ensures Weight(RewriteTrue(g, b), rank, |g.empty|) < Weight(g, rank, |g.empty|)
  {
    var t := g.trueblk[b];
    SuccessorsWeighLess(g, rank, t, g.trueblk[t]);
    SuccessorsWeighLess(g, rank, t, g.falseblk[t]);
    WeightDiffers(g, RewriteTrue(g, b), rank, b, |g.empty|);
  }

  lemma RewriteFalseShrinks(g: Graph, rank: seq<nat>, b: nat)
    requires WellFormed(g) && Ranked(g, rank) && b < |g.empty|
    requires FalseSame(g, b) || FalseOpposite(g, b)
    ensures Weight(RewriteFalse(g, b), rank, |g.empty|) < Weight(g, rank, |g.empty|)
  {
    var f := g.falseblk[b];
    SuccessorsWeighLess(g, rank, f, g.trueblk[f]);
    SuccessorsWeighLess(g, rank, f, g.falseblk[f]);
    WeightDiffers(g, RewriteFalse(g, b), rank, b, |g.empty|);
  }

  // ---------- passes ----------

  /** Both sides of one block. */
  function RewriteBlock(g: Graph, b: nat): (h: Graph)
    requires WellFormed(g) && b < |g.empty|
    ensures WellFormed(h) && h.empty == g.empty
  {
    RewriteFalse(RewriteTrue(g, b), b)
  }

  predicate BlockReports(g: Graph, b: nat)
    requires WellFormed(g) && b < |g.empty|
  {
    TakesOver(g, b) || TrueSame(g, b) || TrueOpposite(g, b)
    || FalseSame(RewriteTrue(g, b), b) || FalseOpposite(RewriteTrue(g, b), b)
  }

  /** One pass over the blocks below `n`, the last first. */
  function Pass(g: Graph, n: nat): (h: Graph)
    requires WellFormed(g) && n <= |g.empty|
    ensures WellFormed(h) && h.empty == g.empty
    decreases n
  {
    if n == 0 then g else Pass(RewriteBlock(g, n - 1), n - 1)
  }

  /** Whether it reports a change. */
  predicate Reports(g: Graph, n: nat)
    requires WellFormed(g) && n <= |g.empty|
    decreases n
  {
    n != 0 && (BlockReports(g, n - 1) || Reports(RewriteBlock(g, n - 1), n - 1))
  }

  function Passes(g: Graph, k: nat): (h: Graph)
    requires WellFormed(g)
    ensures WellFormed(h) && h.empty == g.empty
    decreases k
  {
    if k == 0 then g else Passes(Pass(g, |g.empty|), k - 1)
  }

  /** The loop ends within `k` passes that report a change. */
  predicate EndsWithin(g: Graph, k: nat)
    requires WellFormed(g)
  {
    !Reports(Passes(g, k), |g.empty|)
  }

  /** A pass that reports nothing changes nothing, and no rule applies. */
  lemma {:induction false} QuietPass(g: Graph, n: nat)
    requires WellFormed(g) && n <= |g.empty| && !Reports(g, n)
    ensures Pass(g, n) == g && forall b: nat :: b < n ==> !Applies(g, b)
    decreases n
  {
    if n > 0 {
      assert RewriteTrue(g, n - 1) == g && RewriteBlock(g, n - 1) == g;
      QuietPass(g, n - 1);
    }
  }

  lemma {:induction false} PassKeeps(g: Graph, n: nat)
    requires WellFormed(g) && n <= |g.empty|
    ensures SameMeaning(g, Pass(g, n))
    decreases n
  {
    hide SameMeaning, RewriteTrue, RewriteFalse;
    SameMeaningReflexive(g);
    if n > 0 {
      var g1, g2 := RewriteTrue(g, n - 1), RewriteBlock(g, n - 1);
      RewriteTrueKeeps(g, n - 1);
      RewriteFalseKeeps(g1, n - 1);
      SameMeaningTransitive(g, g1, g2);
      PassKeeps(g2, n - 1);
      SameMeaningTransitive(g, g2, Pass(g, n));
    }
  }

  lemma SameMeaningReflexive(g: Graph)
    requires WellFormed(g)
    ensures SameMeaning(g, g)
  {
  }

  // ---------- when the passes end ----------

  /** In a ranked graph a reported change makes the weight less. */
  lemma {:induction false} PassShrinks(g: Graph, rank: seq<nat>, n: nat)
    requires WellFormed(g) && Ranked(g, rank) && n <= |g.empty|
    ensures Ranked(Pass(g, n), rank)
    ensures Weight(Pass(g, n), rank, |g.empty|) + (if Reports(g, n) then 1 else 0) <= Weight(g, rank, |g.empty|)
    decreases n
  {
    hide Ranked, Weight, TakesOver, TrueSame, TrueOpposite, FalseSame, FalseOpposite;
    if n > 0 {
      BlockShrinks(g, rank, n - 1);
      PassShrinks(RewriteBlock(g, n - 1), rank, n - 1);
    }
  }

  lemma BlockShrinks(g: Graph, rank: seq<nat>, b: nat)
    requires WellFormed(g) && Ranked(g, rank) && b < |g.empty|
    ensures Ranked(RewriteBlock(g, b), rank)
    ensures Weight(RewriteBlock(g, b), rank, |g.empty|) + (if BlockReports(g, b) then 1 else 0) <= Weight(g, rank, |g.empty|)
  {
    hide Ranked, Weight;
    var h := RewriteTrue(g, b);
    RewriteTrueKeepsRank(g, rank, b);
    if TakesOver(g, b) || TrueSame(g, b) || TrueOpposite(g, b) { RewriteTrueShrinks(g, rank, b); }
    RewriteFalseKeepsRank(h, rank, b);
    if FalseSame(h, b) || FalseOpposite(h, b) { RewriteFalseShrinks(h, rank, b); }
  }

  /** Hence without a cycle of empty blocks the loop ends. */
  lemma {:induction false} RankedEnds(g: Graph, rank: seq<nat>) returns (k: nat)
    requires WellFormed(g) && Ranked(g, rank)
    ensures EndsWithin(g, k)
    decreases Weight(g, rank, |g.empty|)
  {
    hide Ranked, Weight, Reports, Pass;
    if !Reports(g, |g.empty|) {
      k := 0;
    } else {
      PassShrinks(g, rank, |g.empty|);
      var j := RankedEnds(Pass(g, |g.empty|), rank);
      k := j + 1;
    }
  }

  lemma NoEmptyCycleEnds(g: Graph) returns (k: nat)
    requires WellFormed(g) && NoEmptyCycle(g)
    ensures EndsWithin(g, k)
  {
    var rank := RankExists(g);
    k := RankedEnds(g, rank);
  }

  /** An empty block that branches to itself whatever the flags. */
  predicate EmptyLoop(g: Graph, b: nat)
    requires WellFormed(g) && b < |g.empty|
  {
    TakesOver(g, b) && g.trueblk[b] == b
  }

  /** It takes over its own branch: a change is reported, and nothing changes. */
  lemma EmptyLoopIsIdle(g: Graph, b: nat)
    requires WellFormed(g) && b < |g.empty| && EmptyLoop(g, b)
    ensures BlockReports(g, b) && RewriteTrue(g, b) == g
  {
  }

  lemma EmptyLoopStays(g: Graph, b: nat, c: nat)
    requires WellFormed(g) && b < |g.empty| && EmptyLoop(g, b) && c < |g.empty|
    ensures EmptyLoop(RewriteBlock(g, c), b)
  {
    EmptyLoopIsIdle(g, b);
  }

  lemma {:induction false} EmptyLoopReports(g: Graph, b: nat, n: nat)
    requires WellFormed(g) && b < |g.empty| && EmptyLoop(g, b) && n <= |g.empty|
    ensures EmptyLoop(Pass(g, n), b) && (b < n ==> Reports(g, n))
    decreases n
  {
    hide BlockReports, RewriteBlock, EmptyLoop;
    if n > 0 {
      EmptyLoopStays(g, b, n - 1);
      EmptyLoopReports(RewriteBlock(g, n - 1), b, n - 1);
      EmptyLoopIsIdle(g, b);
    }
  }

  /** So with one of them among the blocks every pass asks for another. */
  lemma {:induction false} EmptyLoopNeverEnds(g: Graph, b: nat, k: nat)
    requires WellFormed(g) && b < |g.empty| && EmptyLoop(g, b)
    ensures !EndsWithin(g, k)
    decreases k
  {
    hide Pass, Reports, EmptyLoop;
    EmptyLoopReports(g, b, |g.empty|);
    if k > 0 {
      EmptyLoopNeverEnds(Pass(g, |g.empty|), b, k - 1);
    }
  }

  // ---------- the pass ----------

  /** The branches of a chunk's blocks, rewritten in place. */
  class Branches {
    const empty: seq<bool>
    const predicates: array<nat>
    const trueblk: array<int>
    const falseblk: array<int>

    ghost function State(): (g: Graph)
      reads predicates, trueblk, falseblk
    {
      Graph(empty, predicates[..], trueblk[..], falseblk[..])
    }

    ghost predicate Valid()
      reads predicates, trueblk, falseblk
    {
      && trueblk != falseblk
      && WellFormed(State())
    }

    constructor (g: Graph)
      requires WellFormed(g)
      ensures Valid() && State() == g
      ensures fresh(predicates) && fresh(trueblk) && fresh(falseblk)
    {
      empty := g.empty;
      predicates := new nat[|g.predicates|](k requires 0 <= k < |g.predicates| => g.predicates[k]);
      trueblk := new int[|g.trueblk|](k requires 0 <= k < |g.trueblk| => g.trueblk[k]);
      falseblk := new int[|g.falseblk|](k requires 0 <= k < |g.falseblk| => g.falseblk[k]);
      new;
      assert predicates[..] == g.predicates && trueblk[..] == g.trueblk && falseblk[..] == g.falseblk;
    }

    /** The true side of one block. */
    method ThreadTrue(b: nat) returns (change: bool)
      requires Valid() && b < |empty|
      modifies predicates, trueblk, falseblk
      ensures Valid() && State() == RewriteTrue(old(State()), b)
      ensures change == old(TakesOver(State(), b) || TrueSame(State(), b) || TrueOpposite(State(), b))
    {
      change := false;
      var t := trueblk[b];
      if t != NULL && empty[t] {
        if predicates[b] == AL && falseblk[b] == NULL {
          predicates[b] := predicates[t];
          falseblk[b] := falseblk[t];
          trueblk[b] := trueblk[t];
          change := true;
        } else if predicates[b] == predicates[t] && b != t {
          trueblk[b] := trueblk[t];
          change := true;
        } else if predicates[b] == Opposite(predicates[t]) {
          trueblk[b] := falseblk[t];
          change := true;
        }
      }
    }

    method ThreadFalse(b: nat) returns (change: bool)
      requires Valid() && b < |empty|
      modifies falseblk
      ensures Valid() && State() == RewriteFalse(old(State()), b)
      ensures change == old(FalseSame(State(), b) || FalseOpposite(State(), b))
    {
      change := false;
      var f := falseblk[b];
      if f != NULL && empty[f] {
        if predicates[b] == predicates[f] && b != f {
          falseblk[b] := falseblk[f];
          change := true;
        } else if predicates[b] == Opposite(predicates[f]) {
          falseblk[b] := trueblk[f];
          change := true;
        }
      }
    }

    /** One block: its true side, then its false side. */
    method ThreadBlock(b: nat) returns (change: bool)
      requires Valid() && b < |empty|
      modifies predicates, trueblk, falseblk
      ensures Valid() && State() == RewriteBlock(old(State()), b) && change == BlockReports(old(State()), b)
    {
      var onTrue := ThreadTrue(b);
      var onFalse := ThreadFalse(b);
      change := onTrue || onFalse;
    }

    /** One pass over all blocks. */
    method ThreadAll() returns (change: bool)
      requires Valid()
      modifies predicates, trueblk, falseblk
      ensures Valid() && State() == Pass(old(State()), |empty|) && change == Reports(old(State()), |empty|)
    {
      hide RewriteBlock, BlockReports, WellFormed;
      ghost var g := State();
      change := false;
      for scanblock := |empty| downto 0
        invariant Valid() && Pass(State(), scanblock) == Pass(g, |empty|)
        invariant change || Reports(State(), scanblock) <==> Reports(g, |empty|)
      {
        var blockChange := ThreadBlock(scanblock);
        change := change || blockChange;
      }
    }

    /** pheta_optimise_transitive_branch, on the graphs on which its loop ends. */
    method OptimiseTransitiveBranch(ghost limit: nat)
      requires Valid() && EndsWithin(State(), limit)
      modifies predicates, trueblk, falseblk
      ensures Valid() && SameMeaning(old(State()), State())
      ensures forall b: nat :: b < |empty| ==> !Applies(State(), b)
    {
      hide SameMeaning, Pass, Reports, Applies;
      ghost var left := limit;
      SameMeaningReflexive(State());
      var change := true;
      while change
        invariant Valid() && SameMeaning(old(State()), State())
        invariant change ==> EndsWithin(State(), left)
        invariant !change ==> forall b: nat :: b < |empty| ==> !Applies(State(), b)
        decreases change, left
      {
        ghost var g := State();
        PassKeeps(g, |empty|);
        SameMeaningTransitive(old(State()), g, Pass(g, |empty|));
        if !Reports(g, |empty|) { QuietPass(g, |empty|); }
        change := ThreadAll();
        left := if left > 0 then left - 1 else 0;
      }
    }
  }
}
