/**
 Depth-first numbering of a chunk's blocks (pheta_dfs) and the predecessor lists built
 from it (pheta_predecessor, dynarec/pheta.c).
 */
module DepthFirst {
  import Digraph

  const NULL := -1

  /** Successors of blocks by number. */
  datatype Blocks = Blocks(trueblk: seq<int>, falseblk: seq<int>)

  ghost predicate WellFormed(g: Blocks) {
    && |g.trueblk| == |g.falseblk|
    && (forall b :: 0 <= b < |g.trueblk| ==> NULL <= g.trueblk[b] < |g.trueblk|)
    && (forall b :: 0 <= b < |g.trueblk| ==> NULL <= g.falseblk[b] < |g.trueblk|)
  }

  predicate Edge(g: Blocks, u: nat, v: nat) {
    u < |g.trueblk| && u < |g.falseblk| && (g.trueblk[u] == v || g.falseblk[u] == v)
  }

  function Edges(g: Blocks): Digraph.Edges {
    (u: nat, v: nat) => Edge(g, u, v)
  }

  datatype Colour = White | Grey | Black

  /** A search under way.  `roots` are the blocks the outer loop started from. */
  datatype Search = Search(marker: seq<Colour>, discover: seq<nat>, finish: seq<nat>, parent: seq<int>,
                           time: nat, roots: set<nat>)

  ghost predicate Shaped(g: Blocks, s: Search) {
    |s.marker| == |s.discover| == |s.finish| == |s.parent| == |g.trueblk|
  }

  predicate Is(s: Search, b: nat, c: Colour) {
    b < |s.marker| && s.marker[b] == c
  }

  predicate Seen(s: Search, b: nat) {
    b < |s.marker| && s.marker[b] != White
  }

  // ---------- the invariant, part by part ----------

  /** Times lie within 1..time, and finishing comes after discovery. */
  ghost predicate Bounded(g: Blocks, s: Search)
    requires Shaped(g, s)
  {
    && (forall b: nat :: Seen(s, b) ==> 1 <= s.discover[b] <= s.time)
    && (forall b: nat :: Is(s, b, Black) ==> s.discover[b] < s.finish[b] <= s.time)
  }

  /** Times are distinct. */
  ghost predicate Separate(g: Blocks, s: Search)
    requires Shaped(g, s)
  {
    && (forall b: nat, c: nat :: Seen(s, b) && Seen(s, c) && b != c ==> s.discover[b] != s.discover[c])
    && (forall b: nat, c: nat :: Is(s, b, Black) && Is(s, c, Black) && b != c ==> s.finish[b] != s.finish[c])
    && (forall b: nat, c: nat :: Seen(s, b) && Is(s, c, Black) ==> s.discover[b] != s.finish[c])
  }

  ghost predicate Timed(g: Blocks, s: Search)
    requires Shaped(g, s)
  {
    Bounded(g, s) && Separate(g, s) && s.time == Events(s.marker)
  }

  ghost predicate Used(s: Search, k: int) {
    exists b: nat :: TimeOf(s, b, k)
  }

  /** Each of 1..time is the discovery or finishing time of some block. */
  ghost predicate Full(s: Search) {
    forall k :: 1 <= k <= s.time ==> Used(s, k)
  }

  /** `k` is the discovery or finishing time of `b`. */
  ghost predicate TimeOf(s: Search, b: nat, k: int) {
    b < |s.marker| && b < |s.discover| && b < |s.finish| &&
    ((s.marker[b] != White && s.discover[b] == k) || (s.marker[b] == Black && s.finish[b] == k))
  }

  /** One event for each block discovered and one for each finished. */
  ghost function Events(marker: seq<Colour>): nat {
    if marker == [] then 0
    else Events(marker[..|marker| - 1]) +
         match marker[|marker| - 1]
         case White => 0
         case Grey => 1
         case Black => 2
  }

  /** A block discovered after `b` while `b` was open is finished before it. */
  ghost predicate Nested(g: Blocks, s: Search)
    requires Shaped(g, s)
  {
    forall b: nat, c: nat :: Is(s, b, Black) && Seen(s, c) && s.discover[b] < s.discover[c] < s.finish[b] ==>
      Is(s, c, Black) && s.finish[c] < s.finish[b]
  }

  /** The successors of a finished block were discovered before it finished. */
  ghost predicate Explored(g: Blocks, s: Search)
    requires Shaped(g, s) && WellFormed(g)
  {
    forall b: nat, c: nat :: Is(s, b, Black) && Edge(g, b, c) ==> Seen(s, c) && s.discover[c] < s.finish[b]
  }

  /** `b` was open when `c` was discovered. */
  ghost predicate Open(g: Blocks, s: Search, b: nat, c: nat)
    requires Shaped(g, s)
  {
    Seen(s, b) && Seen(s, c) && s.discover[b] < s.discover[c] && (Is(s, b, Grey) || s.discover[c] < s.finish[b])
  }

  /** A block's parent is the innermost open block when it was discovered; a root had none. */
  ghost predicate Treed(g: Blocks, s: Search)
    requires Shaped(g, s)
  {
    && (forall c: nat :: c in s.roots ==> Seen(s, c))
    && (forall c: nat :: Seen(s, c) && c !in s.roots ==> ParentOf(g, s, c))
    && (forall b: nat, c: nat {:trigger Open(g, s, b, c)} :: c in s.roots ==> !Open(g, s, b, c))
  }

  ghost predicate ParentOf(g: Blocks, s: Search, c: nat)
    requires Shaped(g, s) && c < |s.parent|
  {
    var p := s.parent[c];
    && 0 <= p < |s.marker| && Seen(s, p) && Edge(g, p, c) && s.discover[p] < s.discover[c]
    && forall b: nat {:trigger Open(g, s, b, c)} :: Open(g, s, b, c) ==> s.discover[b] <= s.discover[p]
  }

  ghost predicate Inv(g: Blocks, s: Search) {
    Shaped(g, s) && WellFormed(g) && Timed(g, s) && Full(s) && Nested(g, s) && Explored(g, s) && Treed(g, s)
  }

  // ---------- the two events ----------

  ghost predicate NoneOpen(s: Search) {
    forall c: nat :: !Is(s, c, Grey)
  }

  /** A block discovered while none is open is a root. */
  ghost function Discover(s: Search, b: nat): Search
    requires b < |s.marker| && b < |s.discover|
  {
    s.(marker := s.marker[b := Grey], discover := s.discover[b := s.time + 1], time := s.time + 1,
       roots := if NoneOpen(s) then s.roots + {b} else s.roots)
  }

  function Finish(s: Search, b: nat): Search
    requires b < |s.marker| && b < |s.finish|
  {
    s.(marker := s.marker[b := Black], finish := s.finish[b := s.time + 1], time := s.time + 1)
  }

  /** `b` may be discovered: with nothing open, or from the innermost open block. */
  ghost predicate MayStart(g: Blocks, s: Search, b: nat)
    requires Shaped(g, s)
  {
    && Is(s, b, White)
    && (NoneOpen(s) ||
        var p := s.parent[b];
        && 0 <= p < |s.marker| && Is(s, p, Grey) && Edge(g, p, b)
        && forall c: nat :: Is(s, c, Grey) ==> s.discover[c] <= s.discover[p])
  }

  lemma {:induction false} EventsUpdate(marker: seq<Colour>, b: nat, c: Colour)
    requires b < |marker|
    requires (marker[b] == White && c == Grey) || (marker[b] == Grey && c == Black)
    ensures Events(marker[b := c]) == Events(marker) + 1
    decreases |marker|
  {
    var n, m := |marker| - 1, marker[b := c];
    if b < n {
      EventsUpdate(marker[..n], b, c);
      assert m[..n] == marker[..n][b := c];
    } else {
      assert m[..n] == marker[..n];
    }
  }

  lemma DiscoverTimed(g: Blocks, s: Search, b: nat)
    requires Inv(g, s) && Is(s, b, White)
    ensures Shaped(g, Discover(s, b)) && Timed(g, Discover(s, b))
  {
    hide Full, Treed, Nested, Explored, Separate;
    EventsUpdate(s.marker, b, Grey);
    DiscoverSeparate(g, s, b);
  }

  lemma DiscoverSeparate(g: Blocks, s: Search, b: nat)
    requires Inv(g, s) && Is(s, b, White)
    ensures Shaped(g, Discover(s, b)) && Separate(g, Discover(s, b))
  {
    hide Full, Treed, Nested, Explored, Events;
  }

  lemma DiscoverFull(g: Blocks, s: Search, b: nat)
    requires Inv(g, s) && Is(s, b, White)
    ensures Full(Discover(s, b))
  {
    hide Timed, Treed, Nested, Explored;
    var s' := Discover(s, b);
    forall k | 1 <= k <= s'.time ensures Used(s', k) {
      if k == s'.time {
        assert TimeOf(s', b, k);
      } else {
        assert Used(s, k);
        var c: nat :| TimeOf(s, c, k);
        assert TimeOf(s', c, k);
      }
    }
  }

  lemma DiscoverOpens(g: Blocks, s: Search, b: nat)
    requires Inv(g, s) && Is(s, b, White)
    ensures Shaped(g, Discover(s, b))
    ensures forall x: nat, c: nat {:trigger Open(g, Discover(s, b), x, c)} ::
              Open(g, Discover(s, b), x, c) ==> Seen(s, x) && if c == b then Is(s, x, Grey) else Open(g, s, x, c)
  {
    hide Nested, Explored, Treed, Full, Events;
  }

  lemma DiscoverTreed(g: Blocks, s: Search, b: nat)
    requires Inv(g, s) && MayStart(g, s, b)
    ensures Shaped(g, Discover(s, b)) && Treed(g, Discover(s, b))
  {
    hide Nested, Explored, Full, Timed, Open;
    var s' := Discover(s, b);
    DiscoverOpens(g, s, b);
    EarlierTimes(g, s);
    forall c: nat | Seen(s', c) && c !in s'.roots ensures ParentOf(g, s', c) {
      if c != b { assert ParentOf(g, s, c); }
    }
  }

  lemma EarlierTimes(g: Blocks, s: Search)
    requires Inv(g, s)
    ensures forall c: nat :: Seen(s, c) ==> s.discover[c] <= s.time
  {
  }

  lemma DiscoverKeeps(g: Blocks, s: Search, b: nat)
    requires Inv(g, s) && MayStart(g, s, b)
    ensures Inv(g, Discover(s, b))
    ensures forall c: nat :: Is(Discover(s, b), c, Grey) ==> Discover(s, b).discover[c] <= Discover(s, b).discover[b]
  {
    hide Full, Treed, Separate, Events;
    DiscoverTimed(g, s, b);
    DiscoverFull(g, s, b);
    DiscoverTreed(g, s, b);
  }

  lemma FinishTimed(g: Blocks, s: Search, b: nat)
    requires Inv(g, s) && Is(s, b, Grey)
    ensures Shaped(g, Finish(s, b)) && Timed(g, Finish(s, b))
  {
    hide Full, Treed, Nested, Explored, Separate;
    EventsUpdate(s.marker, b, Black);
    FinishSeparate(g, s, b);
  }

  lemma FinishSeparate(g: Blocks, s: Search, b: nat)
    requires Inv(g, s) && Is(s, b, Grey)
    ensures Shaped(g, Finish(s, b)) && Separate(g, Finish(s, b))
  {
    hide Full, Treed, Nested, Explored, Events;
  }

  lemma FinishFull(g: Blocks, s: Search, b: nat)
    requires Inv(g, s) && Is(s, b, Grey)
    ensures Full(Finish(s, b))
  {
    hide Timed, Treed, Nested, Explored;
    var s' := Finish(s, b);
    forall k | 1 <= k <= s'.time ensures Used(s', k) {
      if k == s'.time {
        assert TimeOf(s', b, k);
      } else {
        assert Used(s, k);
        var c: nat :| TimeOf(s, c, k);
        assert TimeOf(s', c, k);
      }
    }
  }

  lemma FinishTreed(g: Blocks, s: Search, b: nat)
    requires Inv(g, s) && Is(s, b, Grey)
    ensures Shaped(g, Finish(s, b)) && Treed(g, Finish(s, b))
  {
    var s' := Finish(s, b);
    forall x: nat, c: nat | Open(g, s', x, c) ensures Open(g, s, x, c) {}
    forall c: nat | Seen(s', c) && c !in s'.roots ensures ParentOf(g, s', c) {
      assert ParentOf(g, s, c);
    }
  }

  lemma FinishKeeps(g: Blocks, s: Search, b: nat)
    requires Inv(g, s) && Is(s, b, Grey)
    requires forall c: nat :: Seen(s, c) && s.discover[b] < s.discover[c] ==> Is(s, c, Black)
    requires forall c: nat :: Edge(g, b, c) ==> Seen(s, c)
    ensures Inv(g, Finish(s, b))
  {
    hide Full, Treed, Separate, Events;
    FinishTimed(g, s, b);
    FinishFull(g, s, b);
    FinishTreed(g, s, b);
  }

  // ---------- what a visit leaves alone ----------

  /** Seen blocks are untouched, and blocks seen since are finished. */
  ghost predicate Extends(s: Search, s': Search) {
    && |s'.marker| == |s.marker| == |s.discover| == |s.finish| == |s.parent|
    && |s'.discover| == |s.discover| && |s'.finish| == |s.finish| && |s'.parent| == |s.parent|
    && s.time <= s'.time && (!NoneOpen(s) ==> s'.roots == s.roots)
    && (forall c: nat :: Seen(s, c) ==>
          s'.marker[c] == s.marker[c] && s'.discover[c] == s.discover[c] && s'.finish[c] == s.finish[c]
          && s'.parent[c] == s.parent[c])
    && (forall c: nat :: Is(s, c, White) && Seen(s', c) ==> Is(s', c, Black) && s.time < s'.discover[c])
  }

  ghost function Whites(marker: seq<Colour>): nat {
    if marker == [] then 0
    else Whites(marker[..|marker| - 1]) + if marker[|marker| - 1] == White then 1 else 0
  }

  lemma {:induction false} FewerWhites(m: seq<Colour>, m': seq<Colour>)
    requires |m| == |m'| && forall c :: 0 <= c < |m| && m'[c] == White ==> m[c] == White
    ensures Whites(m') <= Whites(m)
    ensures (exists c :: 0 <= c < |m| && m[c] == White && m'[c] != White) ==> Whites(m') < Whites(m)
  {
    if m != [] {
      FewerWhites(m[..|m| - 1], m'[..|m| - 1]);
      forall c | 0 <= c < |m| && m[c] == White && m'[c] != White
        ensures c == |m| - 1 || (m[..|m| - 1][c] == White && m'[..|m| - 1][c] != White) {}
    }
  }

  lemma {:induction false} AllBlackEvents(m: seq<Colour>)
    requires forall c :: 0 <= c < |m| ==> m[c] == Black
    ensures Events(m) == 2 * |m|
  {
    if m != [] { AllBlackEvents(m[..|m| - 1]); }
  }

  lemma {:induction false} AllWhiteEvents(m: seq<Colour>)
    requires forall c :: 0 <= c < |m| ==> m[c] == White
    ensures Events(m) == 0
  {
    if m != [] { AllWhiteEvents(m[..|m| - 1]); }
  }

  /** The parent of a white block plays no part yet. */
  lemma NewParentKeeps(g: Blocks, s: Search, b: nat, p: int)
    requires Inv(g, s) && Is(s, b, White)
    ensures Inv(g, s.(parent := s.parent[b := p]))
  {
    hide Timed, Nested, Explored, Treed, Full;
    NewParentTimed(g, s, b, p);
    NewParentNested(g, s, b, p);
    NewParentTreed(g, s, b, p);
    NewParentFull(s, b, p);
  }

  lemma NewParentTimed(g: Blocks, s: Search, b: nat, p: int)
    requires Shaped(g, s) && Timed(g, s) && b < |s.parent|
    ensures Timed(g, s.(parent := s.parent[b := p]))
  {
  }

  lemma NewParentNested(g: Blocks, s: Search, b: nat, p: int)
    requires Shaped(g, s) && WellFormed(g) && Nested(g, s) && Explored(g, s) && b < |s.parent|
    ensures Nested(g, s.(parent := s.parent[b := p])) && Explored(g, s.(parent := s.parent[b := p]))
  {
  }

  lemma NewParentTreed(g: Blocks, s: Search, b: nat, p: int)
    requires Shaped(g, s) && Treed(g, s) && Is(s, b, White)
    ensures Treed(g, s.(parent := s.parent[b := p]))
  {
    var s' := s.(parent := s.parent[b := p]);
    forall x: nat, c: nat | Open(g, s', x, c) ensures Open(g, s, x, c) {}
    forall c: nat | Seen(s', c) && c !in s'.roots ensures ParentOf(g, s', c) {
      assert ParentOf(g, s, c);
    }
  }

  lemma NewParentFull(s: Search, b: nat, p: int)
    requires Full(s) && b < |s.parent|
    ensures Full(s.(parent := s.parent[b := p]))
  {
    var s' := s.(parent := s.parent[b := p]);
    forall k | 1 <= k <= s'.time ensures Used(s', k) {
      assert Used(s, k);
      var c: nat :| TimeOf(s, c, k);
      assert TimeOf(s', c, k);
    }
  }

  /** Every block black: the search is over. */
  ghost predicate Finished(s: Search) {
    forall b: nat :: b < |s.marker| ==> Is(s, b, Black)
  }

  // ---------- one visit ----------

  ghost predicate Innermost(s: Search, b: nat) {
    && |s.discover| == |s.marker| && Is(s, b, Grey)
    && forall c: nat :: Is(s, c, Grey) ==> s.discover[c] <= s.discover[b]
  }

  lemma Starts(g: Blocks, s: Search, b: nat)
    requires Inv(g, s) && MayStart(g, s, b)
    ensures Inv(g, Discover(s, b)) && Innermost(Discover(s, b), b) && Is(s, b, White)
  {
    DiscoverKeeps(g, s, b);
  }

  lemma Shrinks(s: Search, s': Search, b: nat)
    requires Is(s, b, White) && |s.discover| == |s.marker| && s' == Discover(s, b)
    ensures Whites(s'.marker) < Whites(s.marker)
  {
    FewerWhites(s.marker, s'.marker);
  }

  lemma StaysOpen(s1: Search, s2: Search, b: nat)
    requires Innermost(s1, b) && Extends(s1, s2)
    ensures Innermost(s2, b) && Whites(s2.marker) <= Whites(s1.marker)
  {
    FewerWhites(s1.marker, s2.marker);
    forall c: nat | Is(s2, c, Grey) ensures Is(s1, c, Grey) {
      assert Seen(s2, c) && !Is(s1, c, White);
    }
  }

  lemma VisitFinishes(g: Blocks, s0: Search, s1: Search, s2: Search, s3: Search, b: nat)
    requires Inv(g, s0) && MayStart(g, s0, b) && s1 == Discover(s0, b)
    requires Extends(s1, s2) && Extends(s2, s3) && Inv(g, s3)
    requires g.trueblk[b] != NULL ==> Seen(s2, g.trueblk[b])
    requires g.falseblk[b] != NULL ==> Seen(s3, g.falseblk[b])
    ensures Inv(g, Finish(s3, b)) && Extends(s0, Finish(s3, b))
  {
    hide Timed, Full, Nested, Explored, Treed;
    forall c: nat | Seen(s3, c) && s3.discover[b] < s3.discover[c] ensures Is(s3, c, Black) {
      DiscoveredBefore(g, s0, c);
    }
    FinishKeeps(g, s3, b);
    VisitExtends(g, s0, s1, s2, s3, b);
  }

  lemma ExtendsTransitive(s1: Search, s2: Search, s3: Search)
    requires Extends(s1, s2) && Extends(s2, s3)
    ensures Extends(s1, s3)
  {
    forall c: nat | Is(s1, c, White) && Seen(s3, c) ensures Is(s3, c, Black) && s1.time < s3.discover[c] {
      assert Is(s2, c, White) || Seen(s2, c);
    }
    if !NoneOpen(s1) {
      var c: nat :| Is(s1, c, Grey);
      assert Seen(s1, c) && Is(s2, c, Grey);
    }
  }

  lemma VisitExtends(g: Blocks, s0: Search, s1: Search, s2: Search, s3: Search, b: nat)
    requires Shaped(g, s0) && Is(s0, b, White) && s1 == Discover(s0, b) && Extends(s1, s2) && Extends(s2, s3)
    ensures Extends(s0, Finish(s3, b))
  {
    ExtendsTransitive(s1, s2, s3);
    var s := Finish(s3, b);
    assert Is(s1, b, Grey) && !NoneOpen(s1);
    forall c: nat | Seen(s0, c) ensures c != b && Seen(s1, c) {}
    forall c: nat | Is(s0, c, White) && Seen(s, c) ensures Is(s, c, Black) && s0.time < s.discover[c] {
      assert c == b || (Is(s1, c, White) && Seen(s3, c));
      assert Seen(s1, b);
    }
  }

  lemma DiscoveredBefore(g: Blocks, s: Search, c: nat)
    requires Inv(g, s)
    ensures Seen(s, c) ==> s.discover[c] <= s.time
  {
  }

  lemma ExtendsSelf(g: Blocks, s: Search)
    requires Shaped(g, s)
    ensures Extends(s, s)
  {
  }

  lemma MayDescend(g: Blocks, s: Search, next: nat, b: nat)
    requires Shaped(g, s) && Innermost(s, b) && Is(s, next, White) && Edge(g, b, next)
    ensures MayStart(g, s.(parent := s.parent[next := b]), next) && Is(s, b, Grey)
  {
  }

  lemma NewParentExtends(g: Blocks, s: Search, s': Search, next: nat, b: nat)
    requires Shaped(g, s) && Is(s, next, White) && Is(s, b, Grey)
    requires Extends(s.(parent := s.parent[next := b]), s')
    ensures Extends(s, s')
  {
    var s1 := s.(parent := s.parent[next := b]);
    assert Is(s1, b, Grey);
  }

  lemma StaysDone(s: Search, s': Search)
    requires Extends(s, s') && NoneOpen(s)
    ensures NoneOpen(s') && forall c: nat :: Is(s, c, Black) ==> Is(s', c, Black)
  {
    forall c: nat ensures !Is(s', c, Grey) {
      assert !Is(s, c, Grey);
      assert Is(s, c, Black) ==> Seen(s, c);
      assert Is(s', c, Grey) ==> Seen(s', c);
    }
    forall c: nat | Is(s, c, Black) ensures Is(s', c, Black) {
      assert Seen(s, c);
    }
  }

  // ---------- what a finished search shows ----------

  /** Discovery and finishing times are a permutation of 1..2n. */
  lemma TimesArePermutation(g: Blocks, s: Search)
    requires Inv(g, s) && Finished(s)
    ensures s.time == 2 * |g.trueblk|
    ensures forall k :: 1 <= k <= 2 * |g.trueblk| ==> Used(s, k)
    ensures forall b: nat, c: nat, k :: TimeOf(s, b, k) && TimeOf(s, c, k) ==>
              b == c && 1 <= k <= 2 * |g.trueblk| && (s.discover[b] == k) != (s.finish[b] == k)
  {
    forall c | 0 <= c < |s.marker| ensures s.marker[c] == Black {
      assert Is(s, c, Black);
    }
    AllBlackEvents(s.marker);
  }

  /** The intervals of any two blocks are disjoint or one lies inside the other. */
  lemma NestedOrDisjoint(g: Blocks, s: Search, b: nat, c: nat)
    requires Inv(g, s) && Finished(s) && b < |g.trueblk| && c < |g.trueblk| && b != c
    ensures s.finish[b] < s.discover[c] || s.finish[c] < s.discover[b]
         || s.discover[b] < s.discover[c] < s.finish[c] < s.finish[b]
         || s.discover[c] < s.discover[b] < s.finish[b] < s.finish[c]
  {
    assert Is(s, b, Black) && Is(s, c, Black) && Seen(s, b) && Seen(s, c);
  }

  /** A block open when `c` was discovered reaches it. */
  lemma {:induction false} OpenReaches(g: Blocks, s: Search, b: nat, c: nat) returns (p: seq<nat>)
    requires Inv(g, s) && Open(g, s, b, c)
    ensures Digraph.IsWalk(|g.trueblk|, Edges(g), p) && |p| >= 2 && p[0] == b && p[|p| - 1] == c
    decreases s.discover[c]
  {
    assert c !in s.roots && ParentOf(g, s, c);
    var q := s.parent[c];
    assert Edges(g)(q, c);
    if q == b {
      p := [b, c];
    } else {
      assert Open(g, s, b, q) by {
        assert s.discover[b] != s.discover[q];
      }
      p := OpenReaches(g, s, b, q);
      p := p + [c];
    }
  }

  /** Finishing times go down along every edge exactly when the graph has no cycle. */
  lemma FinishRanksExactly(g: Blocks, s: Search)
    requires Inv(g, s) && Finished(s)
    ensures Digraph.Acyclic(|g.trueblk|, Edges(g)) <==> Digraph.Ranks(|g.trueblk|, Edges(g), s.finish)
  {
    if Digraph.Ranks(|g.trueblk|, Edges(g), s.finish) {
      Digraph.RankedIsAcyclic(|g.trueblk|, Edges(g), s.finish);
    }
    if Digraph.Acyclic(|g.trueblk|, Edges(g)) {
      forall b: nat, c: nat | b < |g.trueblk| && c < |g.trueblk| && Edges(g)(b, c) ensures s.finish[c] < s.finish[b] {
        if s.finish[c] >= s.finish[b] {
          var _ := BackEdgeCycle(g, s, b, c);
        }
      }
    }
  }

  /** The same but for blocks that branch to themselves. */
  lemma FinishRanksButLoopsExactly(g: Blocks, s: Search)
    requires Inv(g, s) && Finished(s)
    ensures var proper := Digraph.Proper(Edges(g));
            Digraph.Acyclic(|g.trueblk|, proper) <==> Digraph.Ranks(|g.trueblk|, proper, s.finish)
  {
    var n, proper := |g.trueblk|, Digraph.Proper(Edges(g));
    if Digraph.Ranks(n, proper, s.finish) {
      Digraph.RankedIsAcyclic(n, proper, s.finish);
    }
    if Digraph.Acyclic(n, proper) {
      forall b: nat, c: nat | b < n && c < n && proper(b, c) ensures s.finish[c] < s.finish[b] {
        if s.finish[c] >= s.finish[b] {
          var p := BackEdgeWalk(g, s, b, c);
          var q := Digraph.Unstutter(n, Edges(g), p);
          assert Digraph.IsWalk(n, proper, q + [c]);
        }
      }
    }
  }

  /** An edge along which the finishing time does not drop closes a cycle. */
  lemma BackEdgeCycle(g: Blocks, s: Search, b: nat, c: nat) returns (p: seq<nat>)
    requires Inv(g, s) && Finished(s) && b < |g.trueblk| && c < |g.trueblk| && Edge(g, b, c)
    requires s.finish[c] >= s.finish[b]
    ensures Digraph.IsWalk(|g.trueblk|, Edges(g), p) && |p| >= 2 && p[0] == p[|p| - 1]
  {
    assert Edges(g)(b, c);
    if b == c {
      p := [b, b];
    } else {
      p := BackEdgeWalk(g, s, b, c);
      p := p + [c];
    }
  }

  lemma BackEdgeWalk(g: Blocks, s: Search, b: nat, c: nat) returns (p: seq<nat>)
    requires Inv(g, s) && Finished(s) && b < |g.trueblk| && c < |g.trueblk| && b != c && Edge(g, b, c)
    requires s.finish[c] >= s.finish[b]
    ensures Digraph.IsWalk(|g.trueblk|, Edges(g), p) && |p| >= 2 && p[0] == c && p[|p| - 1] == b
  {
    assert Is(s, b, Black) && Is(s, c, Black) && Seen(s, b) && Seen(s, c);
    NestedOrDisjoint(g, s, b, c);
    assert Open(g, s, c, b);
    p := OpenReaches(g, s, c, b);
  }

  // ---------- the search ----------

  class DepthFirstSearch {
    const g: Blocks
    const marker: array<Colour>
    const discovertime: array<nat>
    const finishtime: array<nat>
    const parent: array<int>
    var time: nat
    ghost var roots: set<nat>

    ghost function State(): Search
      reads this, marker, discovertime, finishtime, parent
    {
      Search(marker[..], discovertime[..], finishtime[..], parent[..], time, roots)
    }

    ghost predicate Valid()
      reads this, marker, discovertime, finishtime, parent
    {
      && discovertime != finishtime
      && WellFormed(g) && Shaped(g, State()) && Inv(g, State())
    }

    /** Every block white, as pheta_dfs starts. */
    constructor (g: Blocks)
      requires WellFormed(g)
      ensures Valid() && this.g == g && forall b: nat :: b < |g.trueblk| ==> marker[b] == White
      ensures fresh(marker) && fresh(discovertime) && fresh(finishtime) && fresh(parent)
    {
      var n := |g.trueblk|;
      this.g := g;
      marker := new Colour[n](_ => White);
      discovertime := new nat[n];
      finishtime := new nat[n];
      parent := new int[n](_ => NULL);
      time := 0;
      roots := {};
      new;
      AllWhiteEvents(marker[..]);
    }

    /** pheta_dfs_visit. */
    method Visit(blk: nat)
      requires Valid() && blk < marker.Length && MayStart(g, State(), blk)
      modifies this`time, this`roots, marker, discovertime, finishtime, parent
      ensures Valid() && Extends(old(State()), State()) && marker[blk] == Black
      decreases Whites(marker[..]), 1
    {
      hide Inv, Extends, MayStart, Innermost, NoneOpen, Whites;
      ghost var s0 := State();
      DiscoverKeeps(g, s0, blk);
      Starts(g, s0, blk);
      Shrinks(s0, Discover(s0, blk), blk);
      marker[blk] := Grey;
      time := time + 1;
      discovertime[blk] := time;
      roots := Discover(s0, blk).roots;
      assert State() == Discover(s0, blk);
      ghost var s1 := State();
      Descend(blk, g.trueblk[blk]);
      ghost var s2 := State();
      StaysOpen(s1, s2, blk);
      Descend(blk, g.falseblk[blk]);
      ghost var s3 := State();
      VisitFinishes(g, s0, s1, s2, s3, blk);
      marker[blk] := Black;
      time := time + 1;
      finishtime[blk] := time;
      assert State() == Finish(s3, blk);
    }

    /** Visit one successor of the open block `blk`, if it is white. */
    method Descend(blk: nat, next: int)
      requires Valid() && blk < marker.Length && Innermost(State(), blk)
      requires next == g.trueblk[blk] || next == g.falseblk[blk]
      modifies this`time, this`roots, marker, discovertime, finishtime, parent
      ensures Valid() && Extends(old(State()), State())
      ensures next != NULL ==> Seen(State(), next)
      decreases Whites(marker[..]), 2
    {
      hide Inv, Extends, Innermost;
      ghost var s := State();
      ExtendsSelf(g, s);
      if next != NULL && marker[next] == White {
        NewParentKeeps(g, s, next, blk);
        parent[next] := blk;
        assert State() == s.(parent := s.parent[next := blk]);
        MayDescend(g, s, next, blk);
        Visit(next);
        NewParentExtends(g, s, State(), next, blk);
      }
    }

    /** pheta_dfs. */
    method VisitAll()
      requires Valid() && NoneOpen(State())
      modifies this`time, this`roots, marker, discovertime, finishtime, parent
      ensures Valid() && Finished(State())
    {
      hide Inv, Extends, Events, Whites;
      for scanblock := marker.Length downto 0
        invariant Valid() && NoneOpen(State())
        invariant forall b: nat :: scanblock <= b < marker.Length ==> Is(State(), b, Black)
      {
        ghost var s := State();
        if marker[scanblock] == White {
          Visit(scanblock);
          StaysDone(s, State());
        }
        assert !Is(s, scanblock, Grey) && Is(State(), scanblock, Black);
      }
    }
  }

  // ---------- predecessor lists ----------

  /** The predecessors that the first `n` blocks, scanned from the newest down to `n`, give to `v`. */
  ghost function PredecessorsFrom(g: Blocks, n: nat, v: nat): seq<nat>
    requires WellFormed(g) && n <= |g.trueblk|
    decreases |g.trueblk| - n
  {
    if n == |g.trueblk| then []
    else PredecessorsFrom(g, n + 1, v) + Once(g.trueblk[n] == v, n) + Once(g.falseblk[n] == v, n)
  }

  function Once(b: bool, n: nat): seq<nat> {
    if b then [n] else []
  }

  lemma OnceCount(b: bool, n: nat, u: nat)
    ensures multiset(Once(b, n))[u] == if b && u == n then 1 else 0
  {
  }

  /** Each edge is listed exactly once at its target, and nothing else is. */
  lemma {:induction false} PredecessorsExact(g: Blocks, n: nat, u: nat, v: nat)
    requires WellFormed(g) && n <= |g.trueblk| && u < |g.trueblk|
    ensures multiset(PredecessorsFrom(g, n, v))[u] ==
            if u < n then 0 else (if g.trueblk[u] == v then 1 else 0) + (if g.falseblk[u] == v then 1 else 0)
    decreases |g.trueblk| - n
  {
    hide Once;
    if n < |g.trueblk| {
      PredecessorsExact(g, n + 1, u, v);
      OnceCount(g.trueblk[n] == v, n, u);
      OnceCount(g.falseblk[n] == v, n, u);
    }
  }

  lemma {:induction false} PredecessorsInRange(g: Blocks, n: nat, v: nat)
    requires WellFormed(g) && n <= |g.trueblk|
    ensures forall k :: 0 <= k < |PredecessorsFrom(g, n, v)| ==> PredecessorsFrom(g, n, v)[k] < |g.trueblk|
    decreases |g.trueblk| - n
  {
    if n < |g.trueblk| { PredecessorsInRange(g, n + 1, v); }
  }

  lemma PredecessorsAreEdges(g: Blocks, u: nat, v: nat)
    requires WellFormed(g) && u < |g.trueblk|
    ensures u in PredecessorsFrom(g, 0, v) <==> Edge(g, u, v)
  {
    PredecessorsExact(g, 0, u, v);
    assert u in PredecessorsFrom(g, 0, v) <==> u in multiset(PredecessorsFrom(g, 0, v));
  }

  /** Signed times: what pheta_predecessor compares with its unchanging -1. */
  const LIMIT := 0x8000_0000

  class PredecessorLists {
    const g: Blocks
    const finishtime: seq<nat>
    const predecessor: array<seq<nat>>

    ghost predicate Valid() {
      && WellFormed(g) && |finishtime| == predecessor.Length == |g.trueblk|
      && forall k :: 0 <= k < |finishtime| ==> finishtime[k] < LIMIT
    }

    constructor (g: Blocks, finishtime: seq<nat>)
      requires WellFormed(g) && |finishtime| == |g.trueblk|
      requires forall k :: 0 <= k < |finishtime| ==> finishtime[k] < LIMIT
      ensures Valid() && this.g == g && this.finishtime == finishtime && fresh(predecessor)
      ensures forall v :: 0 <= v < predecessor.Length ==> predecessor[v] == []
    {
      this.g := g;
      this.finishtime := finishtime;
      predecessor := new seq<nat>[|g.trueblk|](_ => []);
    }

    ghost predicate Listed()
      requires Valid()
      reads predecessor
    {
      forall v, k :: 0 <= v < predecessor.Length && 0 <= k < |predecessor[v]| ==> predecessor[v][k] < |finishtime|
    }

    /** Record `blk` at a successor, if it has one: the search for a place always ends at the last item. */
    method Record(blk: nat, succ: int)
      requires Valid() && blk < predecessor.Length && NULL <= succ < predecessor.Length && Listed()
      modifies predecessor
      ensures Listed()
      ensures forall v :: 0 <= v < predecessor.Length ==> predecessor[v] == old(predecessor[v]) + Once(succ == v, blk)
    {
      if succ != NULL {
        var stime: int := -1;
        var list := predecessor[succ];
        var insertat := 0;
        for seek := 0 to |list|
          invariant insertat == seek
        {
          if finishtime[list[seek]] > stime { insertat := seek + 1; }
        }
        predecessor[succ] := list[..insertat] + [blk] + list[insertat..];
      }
    }

    /** pheta_predecessor. */
    method Predecessor()
      requires Valid() && forall v :: 0 <= v < predecessor.Length ==> predecessor[v] == []
      modifies predecessor
      ensures forall v :: 0 <= v < predecessor.Length ==> predecessor[v] == PredecessorsFrom(g, 0, v)
    {
      hide Once;
      for scanblock := predecessor.Length downto 0
        invariant Listed()
        invariant forall v :: 0 <= v < predecessor.Length ==> predecessor[v] == PredecessorsFrom(g, scanblock, v)
      {
        Record(scanblock, g.trueblk[scanblock]);
        Record(scanblock, g.falseblk[scanblock]);
      }
    }
  }
}
