/**
 What the order of the passes over a chunk gives: the depth-first numbering
 and the predecessor lists are what the backward flag pass needs to be sound.
 */
module BlockOrder {
  import Digraph
  import DepthFirst
  import FlagDemand
  import FlagCycles

  /** How early a block finishes, as a number that grows along edges. */
  function Earliness(s: DepthFirst.Search): (rank: seq<nat>)
    requires forall b :: 0 <= b < |s.finish| ==> s.finish[b] <= s.time
    ensures |rank| == |s.finish|
  {
    seq(|s.finish|, b requires 0 <= b < |s.finish| => s.time - s.finish[b])
  }

  /**
   On a chunk whose only cycles are blocks that branch to themselves, and whose predecessor
   lists come from pheta_predecessor, finishing times rank the flag pass's graph, so
   the pass ends.
   */
  lemma FlagPassIsRanked(g: DepthFirst.Blocks, s: DepthFirst.Search, fg: FlagDemand.Graph)
    requires DepthFirst.Inv(g, s) && DepthFirst.Finished(s)
    requires Digraph.Acyclic(|g.trueblk|, Digraph.Proper(DepthFirst.Edges(g)))
    requires |fg.base| == |fg.predicates| == |fg.predecessors| == |g.trueblk|
    requires forall v :: 0 <= v < |g.trueblk| ==> fg.predecessors[v] == DepthFirst.PredecessorsFrom(g, 0, v)
    ensures forall b :: 0 <= b < |s.finish| ==> s.finish[b] <= s.time
    ensures FlagDemand.WellFormed(fg) && FlagCycles.Ranked(fg, Earliness(s))
    ensures FlagDemand.SoundCommits(fg) ==> !FlagDemand.PassFrom(fg, 0, FlagCycles.Bound(fg)).Deeper?
    ensures forall p: nat, b: nat :: FlagDemand.Edge(fg, p, b) <==> b < |g.trueblk| && DepthFirst.Edge(g, p, b)
  {
    FinishBounded(g, s);
    hide DepthFirst.PredecessorsFrom, DepthFirst.Finished, Digraph.Acyclic;
    DepthFirst.FinishRanksButLoopsExactly(g, s);
    forall v, k | 0 <= v < |fg.base| && 0 <= k < |fg.predecessors[v]|
      ensures fg.predecessors[v][k] < |g.trueblk| && DepthFirst.Edge(g, fg.predecessors[v][k], v)
    {
      PredecessorIsEdge(g, v, k);
    }
    forall p: nat, b: nat ensures FlagDemand.Edge(fg, p, b) <==> b < |g.trueblk| && DepthFirst.Edge(g, p, b) {
      if p < |g.trueblk| && b < |g.trueblk| { DepthFirst.PredecessorsAreEdges(g, p, b); }
    }
    var rank := Earliness(s);
    forall b, k | 0 <= b < |fg.base| && 0 <= k < |fg.predecessors[b]|
      ensures fg.predecessors[b][k] == b || rank[fg.predecessors[b][k]] < rank[b]
    {
      assert DepthFirst.Edges(g)(fg.predecessors[b][k], b);
      assert fg.predecessors[b][k] != b ==> Digraph.Proper(DepthFirst.Edges(g))(fg.predecessors[b][k], b);
    }
    if FlagDemand.SoundCommits(fg) { FlagCycles.RankedEnds(fg, rank); }
  }

  lemma FinishBounded(g: DepthFirst.Blocks, s: DepthFirst.Search)
    requires DepthFirst.Inv(g, s) && DepthFirst.Finished(s)
    ensures |s.finish| == |g.trueblk| && forall b :: 0 <= b < |s.finish| ==> s.finish[b] <= s.time
  {
    forall b | 0 <= b < |s.finish| ensures s.finish[b] <= s.time {
      assert DepthFirst.Is(s, b, DepthFirst.Black);
    }
  }

  lemma PredecessorIsEdge(g: DepthFirst.Blocks, v: nat, k: nat)
    requires DepthFirst.WellFormed(g) && k < |DepthFirst.PredecessorsFrom(g, 0, v)|
    ensures var u := DepthFirst.PredecessorsFrom(g, 0, v)[k]; u < |g.trueblk| && DepthFirst.Edge(g, u, v)
  {
    DepthFirst.PredecessorsInRange(g, 0, v);
    DepthFirst.PredecessorsAreEdges(g, DepthFirst.PredecessorsFrom(g, 0, v)[k], v);
  }
}
