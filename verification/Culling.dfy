/**
 Removing blocks that nothing branches to (pheta_cull_unused_nodes, dynarec/pheta.c).
 */
module Culling {
  import opened DepthFirst
  import Digraph
  import LinkedList

  /** The root, or a successor of some block in the list. */
  ghost predicate Marked(g: Blocks, list: seq<nat>, root: nat, b: nat) {
    b == root || exists u :: u in list && Edge(g, u, b)
  }

  /** The elements of `s` in `keep`, in their order. */
  ghost function Kept(s: seq<nat>, keep: iset<nat>): seq<nat> {
    if s == [] then [] else Kept(s[..|s| - 1], keep) + if s[|s| - 1] in keep then [s[|s| - 1]] else []
  }

  ghost function MarkedSet(g: Blocks, list: seq<nat>, root: nat): iset<nat> {
    iset b: nat | Marked(g, list, root, b)
  }

  ghost function Survivors(g: Blocks, list: seq<nat>, root: nat): seq<nat> {
    Kept(list, MarkedSet(g, list, root))
  }

  lemma {:induction false} KeptExactly(s: seq<nat>, keep: iset<nat>, b: nat)
    ensures b in Kept(s, keep) <==> b in s && b in keep
  {
    if s != [] {
      KeptExactly(s[..|s| - 1], keep, b);
      assert s == s[..|s| - 1] + [s[|s| - 1]];
    }
  }

  /** Every block in the list that is reachable from the root survives. */
  lemma {:induction false} ReachableSurvives(g: Blocks, list: seq<nat>, root: nat, p: seq<nat>)
    requires Digraph.IsWalk(|g.trueblk|, Edges(g), p) && p != [] && p[0] == root
    requires forall b :: b in p ==> b in list
    ensures p[|p| - 1] in Survivors(g, list, root)
  {
    var last := p[|p| - 1];
    if |p| > 1 {
      var before := p[|p| - 2];
      assert before in list && Edges(g)(before, last);
    }
    KeptExactly(list, MarkedSet(g, list, root), last);
  }

  /** Every listed successor of a surviving block survives. */
  lemma SuccessorsSurvive(g: Blocks, list: seq<nat>, root: nat, u: nat, v: nat)
    requires u in Survivors(g, list, root) && Edge(g, u, v) && v in list
    ensures v in Survivors(g, list, root)
  {
    var marked := MarkedSet(g, list, root);
    KeptExactly(list, marked, u);
    KeptExactly(list, marked, v);
  }

  /** What survives branches only to what survives, so culling again with no new blocks keeps the successors. */
  lemma SurvivorsClosed(g: Blocks, list: seq<nat>, root: nat)
    requires root in list && forall u, v :: u in list && Edge(g, u, v) ==> v in list
    ensures root in Survivors(g, list, root)
    ensures forall u, v :: u in Survivors(g, list, root) && Edge(g, u, v) ==> v in Survivors(g, list, root)
  {
    var marked := MarkedSet(g, list, root);
    KeptExactly(list, marked, root);
    forall u, v | u in Survivors(g, list, root) && Edge(g, u, v) ensures v in Survivors(g, list, root) {
      KeptExactly(list, marked, u);
      SuccessorsSurvive(g, list, root, u, v);
    }
  }

  class Chunk {
    const g: Blocks
    const root: nat
    const blocks: LinkedList.List<nat>
    const marker: array<Colour>

    ghost predicate Valid()
      reads blocks, blocks.nodes
    {
      && WellFormed(g) && marker.Length == |g.trueblk| && root < marker.Length
      && blocks.Valid()
      && forall k :: 0 <= k < |blocks.Contents()| ==> blocks.Contents()[k] < marker.Length
    }

    constructor (g: Blocks, root: nat)
      requires WellFormed(g) && root < |g.trueblk|
      ensures Valid() && this.g == g && this.root == root && fresh(blocks) && fresh(marker) && blocks.nodes == []
    {
      this.g, this.root := g, root;
      blocks := new LinkedList.List();
      marker := new Colour[|g.trueblk|];
    }

    /** The marks: the root and the successors of the first `k` blocks of the list are black, other listed blocks white. */
    ghost predicate MarkedSoFar(list: seq<nat>, k: nat)
      requires WellFormed(g) && root < marker.Length == |g.trueblk| && k <= |list|
      reads marker
    {
      forall b: nat :: b < marker.Length && b in list ==>
        marker[b] == if Marked(g, list[..k], root, b) then Black else White
    }

    /** palloc_clearmarkers. */
    method ClearMarkers()
      requires Valid()
      modifies marker
      ensures forall b: nat :: b < marker.Length && b in blocks.Contents() ==> marker[b] == White
    {
      var scanblock := blocks.head;
      ghost var k, list := 0, blocks.Contents();
      while scanblock != null
        invariant 0 <= k <= |list| && scanblock == blocks.From(k)
        invariant forall b: nat :: b < marker.Length && b in list[..k] ==> marker[b] == White
        decreases |list| - k
      {
        blocks.Neighbours(k);
        LinkedList.DataAt(blocks.nodes, k);
        marker[scanblock.data] := White;
        scanblock := scanblock.prev;
        assert list[..k + 1] == list[..k] + [list[k]];
        k := k + 1;
      }
      assert list[..k] == list;
    }

    /** Mark the root and every successor. */
    method MarkSuccessors()
      requires Valid()
      modifies marker
      ensures MarkedSoFar(blocks.Contents(), |blocks.Contents()|)
    {
      hide LinkedList.Joined, LinkedList.Distinct, LinkedList.Data;
      ClearMarkers();
      marker[root] := Black;
      var scanblock := blocks.head;
      ghost var k, list := 0, blocks.Contents();
      while scanblock != null
        invariant 0 <= k <= |list| && scanblock == blocks.From(k) && MarkedSoFar(list, k)
        decreases |list| - k
      {
        blocks.Neighbours(k);
        LinkedList.DataAt(blocks.nodes, k);
        var b := scanblock.data;
        MarkOne(b, list, k);
        scanblock := scanblock.prev;
        k := k + 1;
      }
    }

    method MarkOne(b: nat, ghost list: seq<nat>, ghost k: nat)
      requires WellFormed(g) && root < marker.Length == |g.trueblk| && k < |list| && list[k] == b < marker.Length
      requires MarkedSoFar(list, k)
      modifies marker
      ensures MarkedSoFar(list, k + 1)
    {
      hide Marked;
      if g.trueblk[b] != NULL { marker[g.trueblk[b]] := Black; }
      if g.falseblk[b] != NULL { marker[g.falseblk[b]] := Black; }
      OneMoreMarked(list, k);
    }

    lemma OneMoreMarked(list: seq<nat>, k: nat)
      requires k < |list|
      ensures forall b: nat :: Marked(g, list[..k + 1], root, b) <==> Marked(g, list[..k], root, b) || Edge(g, list[k], b)
    {
      assert list[..k + 1] == list[..k] + [list[k]];
      forall b: nat | Marked(g, list[..k], root, b) && b != root ensures Marked(g, list[..k + 1], root, b) {
        var u :| u in list[..k] && Edge(g, u, b);
        assert u in list[..k + 1];
      }
      assert list[k] in list[..k + 1];
    }

    /** How far culling has come: `j` items of `list` scanned, `k` of them kept. */
    ghost predicate Culled(list: seq<nat>, keep: iset<nat>, j: nat, k: nat)
      requires j <= |list|
      reads blocks, blocks.nodes
    {
      && blocks.Valid()
      && k == |Kept(list[..j], keep)| && blocks.Contents() == Kept(list[..j], keep) + list[j..]
    }

    /** Look at one item: delink it if its block is white. */
    method CullItem(item: LinkedList.Node<nat>, ghost list: seq<nat>, ghost keep: iset<nat>, ghost j: nat, ghost k: nat)
      returns (prev: LinkedList.Node?<nat>, ghost k': nat)
      requires j < |list| && Culled(list, keep, j, k) && k < |blocks.nodes| && item == blocks.nodes[k]
      requires list[j] < marker.Length && (marker[list[j]] == White <==> list[j] !in keep)
      modifies blocks, blocks.nodes
      ensures Culled(list, keep, j + 1, k') && prev == blocks.From(k')
      ensures blocks.nodes == old(blocks.nodes) || blocks.nodes == LinkedList.Without(old(blocks.nodes), k)
    {
      hide LinkedList.Joined, LinkedList.Distinct, LinkedList.Data, Kept;
      blocks.Neighbours(k);
      LinkedList.DataAt(blocks.nodes, k);
      KeptNext(list, keep, j);
      prev, k' := item.prev, k;
      if marker[item.data] == White {
        DroppedNext(Kept(list[..j], keep), list, j);
        blocks.DelinkItem(item, k);
      } else {
        k' := k + 1;
      }
    }

    /** Look at every item. */
    method CullWhite(ghost list: seq<nat>, ghost keep: iset<nat>)
      requires blocks.Valid() && list == blocks.Contents()
      requires forall i :: 0 <= i < |list| ==> list[i] < marker.Length && (marker[list[i]] == White <==> list[i] !in keep)
      modifies blocks, blocks.nodes
      ensures blocks.Valid() && blocks.Contents() == Kept(list, keep)
    {
      hide LinkedList.Joined, LinkedList.Distinct, LinkedList.Data, Kept;
      ghost var j, k := 0, 0;
      NothingCulled(list, keep);
      var scanblock := blocks.head;
      while scanblock != null
        invariant 0 <= j <= |list| && Culled(list, keep, j, k) && scanblock == blocks.From(k)
        invariant forall i :: 0 <= i < |blocks.nodes| ==> blocks.nodes[i] in old(blocks.nodes)
        decreases |list| - j
      {
        scanblock, k := CullItem(scanblock, list, keep, j, k);
        j := j + 1;
      }
      assert list[..j] == list;
    }

    /** pheta_cull_unused_nodes. */
    method CullUnusedNodes()
      requires Valid()
      modifies marker, blocks, blocks.nodes
      ensures Valid()
      ensures blocks.Contents() == Survivors(g, old(blocks.Contents()), root)
    {
      hide LinkedList.Joined, LinkedList.Distinct, LinkedList.Data, Kept;
      MarkSuccessors();
      ghost var list, keep := blocks.Contents(), MarkedSet(g, blocks.Contents(), root);
      assert list[..|list|] == list;
      assert forall i :: 0 <= i < |list| ==> (marker[list[i]] == White <==> list[i] !in keep);
      CullWhite(list, keep);
      KeptInRange(list, keep, marker.Length);
    }

    lemma NothingCulled(list: seq<nat>, keep: iset<nat>)
      requires blocks.Valid() && list == blocks.Contents()
      ensures Culled(list, keep, 0, 0)
    {
      assert list[..0] == [] && list[0..] == list;
    }
  }

  lemma {:induction false} KeptInRange(s: seq<nat>, keep: iset<nat>, n: nat)
    requires forall k :: 0 <= k < |s| ==> s[k] < n
    ensures forall k :: 0 <= k < |Kept(s, keep)| ==> Kept(s, keep)[k] < n
  {
    if s != [] { KeptInRange(s[..|s| - 1], keep, n); }
  }

  lemma KeptNext(list: seq<nat>, keep: iset<nat>, j: nat)
    requires j < |list|
    ensures Kept(list[..j + 1], keep) == Kept(list[..j], keep) + if list[j] in keep then [list[j]] else []
    ensures list[j..] == [list[j]] + list[j + 1..]
  {
    assert list[..j + 1][..j] == list[..j];
  }

  lemma DroppedNext(kept: seq<nat>, list: seq<nat>, j: nat)
    requires j < |list|
    ensures LinkedList.Without(kept + list[j..], |kept|) == kept + list[j + 1..]
  {
  }
}
