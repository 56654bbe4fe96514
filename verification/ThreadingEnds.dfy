/**
 When pheta_optimise_transitive_branch ends (dynarec/pheta.c).  A branch with one outcome of
 its condition decided is threaded through empty blocks for as long as they are decided too;
 the loop never ends exactly when some such walk goes round for ever.
 */
module ThreadingEnds {
  import Digraph
  import opened BranchThreading

  const NV := 15

  // ---------- decided walks ----------

  /** An unconditional branch with no other way out. */
  predicate Jump(g: Graph, b: nat)
    requires WellFormed(g) && b < |g.empty|
  {
    g.predicates[b] == AL && g.falseblk[b] == NULL
  }

  /** When predicate `l` is known to hold, the block's own is known. */
  predicate Follows(g: Graph, b: nat, l: nat)
    requires WellFormed(g) && b < |g.empty|
  {
    g.predicates[b] == l || g.predicates[b] == Opposite(l)
  }

  /** The side of the block that is taken when `l` holds. */
  function Side(g: Graph, b: nat, l: nat): (s: int)
    requires WellFormed(g) && b < |g.empty|
    ensures NULL <= s < |g.empty|
  {
    if g.predicates[b] == l then g.trueblk[b] else g.falseblk[b]
  }

  /** An empty block whose exit is known when `l` holds. */
  predicate Decided(g: Graph, l: nat, t: int)
    requires WellFormed(g)
  {
    IsEmpty(g, t) && (Jump(g, t) || Follows(g, t, l))
  }

  function Next(g: Graph, l: nat, t: int): (s: int)
    requires WellFormed(g) && Decided(g, l, t)
    ensures NULL <= s < |g.empty|
  {
    if Jump(g, t) then g.trueblk[t] else Side(g, t, l)
  }

  /** How many of the first `n` steps of the walk from `t` are decided. */
  function Steps(g: Graph, l: nat, t: int, n: nat): (k: nat)
    requires WellFormed(g)
    ensures k <= n
    decreases n
  {
    if n == 0 || !Decided(g, l, t) then 0 else 1 + Steps(g, l, Next(g, l, t), n - 1)
  }

  /** The walk goes through empty blocks for ever. */
  ghost predicate Forever(g: Graph, l: nat, t: int)
    requires WellFormed(g)
  {
    forall n: nat :: Steps(g, l, t, n) == n
  }

  lemma ForeverStep(g: Graph, l: nat, t: int)
    requires WellFormed(g)
    ensures Forever(g, l, t) <==> Decided(g, l, t) && Forever(g, l, Next(g, l, t))
  {
    if Forever(g, l, t) {
      assert Steps(g, l, t, 1) == 1;
      forall n: nat ensures Steps(g, l, Next(g, l, t), n) == n {
        assert Steps(g, l, t, n + 1) == n + 1;
      }
    } else if Decided(g, l, t) && Forever(g, l, Next(g, l, t)) {
      forall n: nat ensures Steps(g, l, t, n) == n {
        if n > 0 { assert Steps(g, l, Next(g, l, t), n - 1) == n - 1; }
      }
      assert false;
    }
  }

  lemma {:induction false} StepsBy(g: Graph, l: nat, t: int, n: nat, m: nat)
    requires WellFormed(g) && n <= m
    ensures Steps(g, l, t, n) <= Steps(g, l, t, m) <= Steps(g, l, t, n) + (m - n)
    ensures Steps(g, l, t, n) < n ==> Steps(g, l, t, m) == Steps(g, l, t, n)
    decreases n
  {
    if n > 0 && Decided(g, l, t) { StepsBy(g, l, Next(g, l, t), n - 1, m - 1); }
  }

  // ---------- for ever is soon known ----------

  /** Where the walk is after `n` decided steps. */
  function After(g: Graph, l: nat, t: int, n: nat): (s: int)
    requires WellFormed(g) && Steps(g, l, t, n) == n
    decreases n
  {
    if n == 0 then t else After(g, l, Next(g, l, t), n - 1)
  }

  lemma {:induction false} StepsAdd(g: Graph, l: nat, t: int, n: nat, m: nat)
    requires WellFormed(g) && Steps(g, l, t, n) == n
    ensures Steps(g, l, t, n + m) == n + Steps(g, l, After(g, l, t, n), m)
    decreases n
  {
    if n > 0 { StepsAdd(g, l, Next(g, l, t), n - 1, m); }
  }

  lemma {:induction false} AfterAdd(g: Graph, l: nat, t: int, n: nat, m: nat)
    requires WellFormed(g) && Steps(g, l, t, n) == n && Steps(g, l, After(g, l, t, n), m) == m
    ensures Steps(g, l, t, n + m) == n + m && After(g, l, t, n + m) == After(g, l, After(g, l, t, n), m)
    decreases n
  {
    StepsAdd(g, l, t, n, m);
    if n > 0 { AfterAdd(g, l, Next(g, l, t), n - 1, m); }
  }

  lemma {:induction false} RoundIsForever(g: Graph, l: nat, t: int, p: nat, n: nat)
    requires WellFormed(g) && p > 0 && Steps(g, l, t, p) == p && After(g, l, t, p) == t
    ensures Steps(g, l, t, n) == n
    decreases n
  {
    if n <= p {
      StepsBy(g, l, t, n, p);
    } else {
      StepsAdd(g, l, t, p, n - p);
      RoundIsForever(g, l, t, p, n - p);
    }
  }

  lemma OnTheWay(g: Graph, l: nat, t: int, k: nat, n: nat)
    requires WellFormed(g) && Steps(g, l, t, n) == n && k < n
    ensures Steps(g, l, t, k) == k && IsEmpty(g, After(g, l, t, k))
  {
    hide After, IsEmpty;
    StepsBy(g, l, t, k, n);
    StepsAdd(g, l, t, k, n - k);
    DecidedIsEmpty(g, l, After(g, l, t, k));
  }

  lemma DecidedIsEmpty(g: Graph, l: nat, t: int)
    requires WellFormed(g) && Decided(g, l, t)
    ensures IsEmpty(g, t)
  {
  }

  /** One step more than there are blocks: the walk has come round. */
  lemma ComesRound(g: Graph, l: nat, t: int) returns (i: nat, j: nat)
    requires WellFormed(g) && Steps(g, l, t, |g.empty| + 1) == |g.empty| + 1
    ensures i < j && Steps(g, l, t, i) == i && Steps(g, l, t, j) == j && After(g, l, t, i) == After(g, l, t, j)
  {
    hide After, Steps;
    var count := |g.empty| + 1;
    forall k: nat | k < count ensures Steps(g, l, t, k) == k && IsEmpty(g, After(g, l, t, k)) {
      OnTheWay(g, l, t, k, count);
    }
    var visited: seq<nat> := seq(count, k requires 0 <= k < count => After(g, l, t, k));
    i, j := Digraph.Pigeonhole(|g.empty|, visited);
    assert visited[i] == visited[j];
  }

  /** And then it goes on for ever, which is therefore soon known. */
  lemma ForeverExactly(g: Graph, l: nat, t: int)
    requires WellFormed(g)
    ensures Forever(g, l, t) <==> Steps(g, l, t, |g.empty| + 1) == |g.empty| + 1
  {
    hide Steps, After;
    if Steps(g, l, t, |g.empty| + 1) == |g.empty| + 1 {
      var i, j := ComesRound(g, l, t);
      StepsAdd(g, l, t, i, j - i);
      AfterAdd(g, l, t, i, j - i);
      forall n: nat ensures Steps(g, l, t, n) == n {
        RoundIsForever(g, l, After(g, l, t, i), j - i, n);
        StepsAdd(g, l, t, i, n);
        StepsBy(g, l, t, n, i + n);
      }
    }
  }

  // ---------- rewriting shortens walks ----------

  /** `h` takes the steps of `g`, or two of them at once, and stops where `g` does or one step before. */
  ghost predicate Skips(g: Graph, h: Graph, l: nat)
    requires WellFormed(g) && WellFormed(h)
  {
    forall y: int {:trigger Decided(g, l, y)} {:trigger Decided(h, l, y)} ::
      && (Decided(h, l, y) ==> Decided(g, l, y))
      && (Decided(g, l, y) ==> SkipsFrom(g, h, l, y))
  }

  ghost predicate SkipsFrom(g: Graph, h: Graph, l: nat, y: int)
    requires WellFormed(g) && WellFormed(h) && Decided(g, l, y)
  {
    var t := Next(g, l, y);
    if Decided(h, l, y) then Next(h, l, y) == t || (Decided(g, l, t) && Next(h, l, y) == Next(g, l, t))
    else !Decided(g, l, t)
  }

  lemma {:induction false} StepsShrink(g: Graph, h: Graph, l: nat, y: int, n: nat)
    requires WellFormed(g) && WellFormed(h) && Skips(g, h, l)
    ensures Steps(h, l, y, n) <= Steps(g, l, y, n)
    decreases n
  {
    if n > 0 && Decided(h, l, y) {
      var t := Next(g, l, y);
      StepsShrink(g, h, l, Next(h, l, y), n - 1);
      if Next(h, l, y) != t && n > 1 {
        StepsBy(g, l, Next(g, l, t), n - 2, n - 1);
      }
    }
  }

  lemma {:induction false} ForeverGoesOn(g: Graph, h: Graph, l: nat, y: int, n: nat)
    requires WellFormed(g) && WellFormed(h) && Skips(g, h, l) && Forever(g, l, y)
    ensures Steps(h, l, y, n) == n
    decreases n
  {
    ForeverStep(g, l, y);
    ForeverStep(g, l, Next(g, l, y));
    if n > 0 { ForeverGoesOn(g, h, l, Next(h, l, y), n - 1); }
  }

  lemma {:induction false} ForeverWentOn(g: Graph, h: Graph, l: nat, y: int, n: nat)
    requires WellFormed(g) && WellFormed(h) && Skips(g, h, l) && Forever(h, l, y)
    ensures Steps(g, l, y, n) == n
    decreases n
  {
    ForeverStep(h, l, y);
    if n > 0 {
      var t := Next(g, l, y);
      if Next(h, l, y) == t {
        ForeverWentOn(g, h, l, t, n - 1);
      } else if n > 1 {
        ForeverWentOn(g, h, l, Next(h, l, y), n - 2);
      }
    }
  }

  lemma ForeverSame(g: Graph, h: Graph, l: nat, y: int)
    requires WellFormed(g) && WellFormed(h) && Skips(g, h, l)
    ensures Forever(h, l, y) <==> Forever(g, l, y)
  {
    if Forever(g, l, y) {
      forall n: nat ensures Steps(h, l, y, n) == n { ForeverGoesOn(g, h, l, y, n); }
    }
    if Forever(h, l, y) {
      forall n: nat ensures Steps(g, l, y, n) == n { ForeverWentOn(g, h, l, y, n); }
    }
  }

  // ---------- the two kinds of rewrite ----------

  /** An unconditional branch into an empty block becomes a copy of that block's. */
  ghost predicate Copies(g: Graph, h: Graph, b: nat)
    requires WellFormed(g) && WellFormed(h) && b < |g.empty|
  {
    DiffersAt(g, h, b) && Jump(g, b) && IsEmpty(g, g.trueblk[b]) &&
    var t := g.trueblk[b];
    h.predicates[b] == g.predicates[t] && h.trueblk[b] == g.trueblk[t] && h.falseblk[b] == g.falseblk[t]
  }

  /** The side for `l` of any other branch moves past a decided block. */
  ghost predicate Moves(g: Graph, h: Graph, b: nat, l: nat)
    requires WellFormed(g) && WellFormed(h) && b < |g.empty|
  {
    DiffersAt(g, h, b) && !Jump(g, b) && !Jump(h, b) && Follows(g, b, l) && h.predicates[b] == g.predicates[b] &&
    var t := Side(g, b, l);
    t != b && Decided(g, l, t) && Side(h, b, l) == Next(g, l, t) && Side(h, b, Opposite(l)) == Side(g, b, Opposite(l))
  }

  lemma CopiesSkips(g: Graph, h: Graph, b: nat, l: nat)
    requires WellFormed(g) && WellFormed(h) && b < |g.empty| && Copies(g, h, b)
    ensures Skips(g, h, l)
  {
  }

  lemma MovesSkips(g: Graph, h: Graph, b: nat, m: nat, l: nat)
    requires WellFormed(g) && WellFormed(h) && b < |g.empty| && Moves(g, h, b, m)
    ensures Skips(g, h, l)
  {
  }

  // ---------- going round for ever ----------

  /**
   The walk out of block `b`, taken when `l` holds, goes round empty blocks for ever; a
   branch of a conditional block straight to itself does not count.
   */
  ghost predicate RoundFrom(g: Graph, b: nat, l: nat)
    requires WellFormed(g)
  {
    b < |g.empty| &&
    if Jump(g, b) then Forever(g, l, g.trueblk[b])
    else Follows(g, b, l) && Side(g, b, l) != b && Forever(g, l, Side(g, b, l))
  }

  ghost predicate Round(g: Graph)
    requires WellFormed(g)
  {
    exists b: nat, l: nat :: RoundFrom(g, b, l)
  }

  /** If the walk from `t` comes straight back to `b`, it is one out of `t`. */
  lemma RoundBack(h: Graph, b: nat, t: nat, l: nat)
    requires WellFormed(h) && t < |h.empty| && t != b && Decided(h, l, t) && Next(h, l, t) == b && Forever(h, l, b)
    ensures RoundFrom(h, t, l)
  {
  }

  lemma CopyKeepsRound(g: Graph, h: Graph, c: nat, b: nat, l: nat)
    requires WellFormed(g) && WellFormed(h) && c < |g.empty| && Copies(g, h, c) && RoundFrom(g, b, l)
    ensures Round(h)
  {
    hide Forever, Skips;
    CopiesSkips(g, h, c, l);
    if b != c {
      ForeverSame(g, h, l, if Jump(g, b) then g.trueblk[b] else Side(g, b, l));
      assert RoundFrom(h, b, l);
    } else {
      var t := g.trueblk[b];
      ForeverStep(g, l, t);
      var s := Next(g, l, t);
      ForeverSame(g, h, l, s);
      if Jump(g, t) || s != b {
        assert RoundFrom(h, b, l);
      } else {
        RoundBack(h, b, t, l);
      }
    }
  }

  lemma MoveKeepsRound(g: Graph, h: Graph, c: nat, m: nat, b: nat, l: nat)
    requires WellFormed(g) && WellFormed(h) && c < |g.empty| && Moves(g, h, c, m) && RoundFrom(g, b, l)
    ensures Round(h)
  {
    hide Forever, Skips;
    MovesSkips(g, h, c, m, l);
    if b != c || l != m {
      ForeverSame(g, h, l, if Jump(g, b) then g.trueblk[b] else Side(g, b, l));
      assert RoundFrom(h, b, l);
    } else {
      var t := Side(g, b, l);
      ForeverStep(g, l, t);
      var s := Next(g, l, t);
      ForeverSame(g, h, l, s);
      if s != b {
        assert RoundFrom(h, b, l);
      } else {
        RoundBack(h, b, t, l);
      }
    }
  }

  lemma CopyHadRound(g: Graph, h: Graph, c: nat, b: nat, l: nat)
    requires WellFormed(g) && WellFormed(h) && c < |g.empty| && Copies(g, h, c) && RoundFrom(h, b, l)
    ensures Round(g)
  {
    hide Forever, Skips;
    CopiesSkips(g, h, c, l);
    ForeverSame(g, h, l, if Jump(h, b) then h.trueblk[b] else Side(h, b, l));
    if b == c { ForeverStep(g, l, g.trueblk[b]); }
    assert RoundFrom(g, b, l);
  }

  lemma MoveHadRound(g: Graph, h: Graph, c: nat, m: nat, b: nat, l: nat)
    requires WellFormed(g) && WellFormed(h) && c < |g.empty| && Moves(g, h, c, m) && RoundFrom(h, b, l)
    ensures Round(g)
  {
    hide Forever, Skips;
    MovesSkips(g, h, c, m, l);
    ForeverSame(g, h, l, if Jump(h, b) then h.trueblk[b] else Side(h, b, l));
    if b == c && l == m { ForeverStep(g, l, Side(g, b, l)); }
    assert RoundFrom(g, b, l);
  }

  // ---------- sides that are never taken ----------

  /** In `n` steps the walk down a side that is never taken meets no unconditional empty block, and does not leave. */
  ghost predicate ClearFor(g: Graph, t: int, n: nat)
    requires WellFormed(g)
    decreases n
  {
    && t != NULL && (IsEmpty(g, t) ==> !Jump(g, t))
    && (n > 0 && Decided(g, NV, t) ==> ClearFor(g, Next(g, NV, t), n - 1))
  }

  ghost predicate Clear(g: Graph, t: int)
    requires WellFormed(g)
  {
    forall n: nat :: ClearFor(g, t, n)
  }

  lemma ClearStep(g: Graph, t: int)
    requires WellFormed(g)
    ensures Clear(g, t) <==> t != NULL && (IsEmpty(g, t) ==> !Jump(g, t)) && (Decided(g, NV, t) ==> Clear(g, Next(g, NV, t)))
  {
    if Clear(g, t) {
      assert ClearFor(g, t, 0);
      if Decided(g, NV, t) {
        forall n: nat ensures ClearFor(g, Next(g, NV, t), n) { assert ClearFor(g, t, n + 1); }
      }
    } else if t != NULL && (IsEmpty(g, t) ==> !Jump(g, t)) && (Decided(g, NV, t) ==> Clear(g, Next(g, NV, t))) {
      forall n: nat ensures ClearFor(g, t, n) {
        if n > 0 && Decided(g, NV, t) { assert ClearFor(g, Next(g, NV, t), n - 1); }
      }
      assert false;
    }
  }

  /** The side an AL or NV block never takes leads nowhere, or to such a walk. */
  ghost predicate QuietAt(g: Graph, b: nat)
    requires WellFormed(g) && b < |g.empty|
  {
    Follows(g, b, NV) ==> Side(g, b, NV) == NULL || Clear(g, Side(g, b, NV))
  }

  /** On such graphs the order in which blocks are visited does not matter. */
  ghost predicate Quiet(g: Graph)
    requires WellFormed(g)
  {
    forall b: nat :: b < |g.empty| ==> QuietAt(g, b)
  }

  /** Graphs without NV whose AL blocks have no second way out are quiet. */
  lemma PlainIsQuiet(g: Graph)
    requires WellFormed(g)
    requires forall b: nat :: b < |g.empty| ==> g.predicates[b] != NV && (g.predicates[b] == AL ==> g.falseblk[b] == NULL)
    ensures Quiet(g)
  {
  }

  lemma {:induction false} CopyKeepsClear(g: Graph, h: Graph, c: nat, t: int, n: nat)
    requires WellFormed(g) && WellFormed(h) && c < |g.empty| && Copies(g, h, c) && NULL <= t < |g.empty| && Clear(g, t)
    ensures ClearFor(h, t, n)
    decreases n
  {
    hide Clear;
    ClearStep(g, t);
    if n > 0 && Decided(h, NV, t) { CopyKeepsClear(g, h, c, Next(h, NV, t), n - 1); }
  }

  lemma {:induction false} MoveKeepsClear(g: Graph, h: Graph, c: nat, m: nat, t: int, n: nat)
    requires WellFormed(g) && WellFormed(h) && c < |g.empty| && Moves(g, h, c, m) && NULL <= t < |g.empty| && Clear(g, t)
    ensures ClearFor(h, t, n)
    decreases n
  {
    hide Clear;
    ClearStep(g, t);
    if n > 0 && Decided(h, NV, t) {
      ClearStep(g, Next(g, NV, t));
      MoveKeepsClear(g, h, c, m, Next(h, NV, t), n - 1);
    }
  }

  lemma CopyKeepsQuiet(g: Graph, h: Graph, c: nat)
    requires WellFormed(g) && WellFormed(h) && c < |g.empty| && Copies(g, h, c) && Quiet(g)
    ensures Quiet(h)
  {
    hide Clear;
    forall b: nat | b < |h.empty| ensures QuietAt(h, b) {
      assert QuietAt(g, b) && QuietAt(g, g.trueblk[c]);
      if Follows(h, b, NV) && Side(h, b, NV) != NULL {
        forall n: nat ensures ClearFor(h, Side(h, b, NV), n) { CopyKeepsClear(g, h, c, Side(h, b, NV), n); }
        ClearIs(h, Side(h, b, NV));
      }
    }
  }

  lemma MoveKeepsQuiet(g: Graph, h: Graph, c: nat, m: nat)
    requires WellFormed(g) && WellFormed(h) && c < |g.empty| && Moves(g, h, c, m) && Quiet(g)
    ensures Quiet(h)
  {
    hide Clear;
    forall b: nat | b < |h.empty| ensures QuietAt(h, b) {
      assert QuietAt(g, b);
      if Follows(h, b, NV) && Side(h, b, NV) != NULL {
        ClearStep(g, Side(g, b, NV));
        forall n: nat ensures ClearFor(h, Side(h, b, NV), n) { MoveKeepsClear(g, h, c, m, Side(h, b, NV), n); }
        ClearIs(h, Side(h, b, NV));
      }
    }
  }

  lemma ClearIs(g: Graph, t: int)
    requires WellFormed(g) && forall n: nat :: ClearFor(g, t, n)
    ensures Clear(g, t)
  {
  }

  // ---------- the source's rules ----------

  lemma TrueRule(g: Graph, b: nat)
    requires WellFormed(g) && b < |g.empty| && QuietAt(g, b)
    ensures TakesOver(g, b) ==> Copies(g, RewriteTrue(g, b), b)
    ensures TrueSame(g, b) || TrueOpposite(g, b) ==> Moves(g, RewriteTrue(g, b), b, g.predicates[b])
    ensures !TakesOver(g, b) && !TrueSame(g, b) && !TrueOpposite(g, b) ==> RewriteTrue(g, b) == g
  {
    hide Clear;
    ClearStep(g, Side(g, b, NV));
  }

  lemma FalseRule(g: Graph, b: nat)
    requires WellFormed(g) && b < |g.empty| && QuietAt(g, b)
    ensures FalseSame(g, b) || FalseOpposite(g, b) ==> Moves(g, RewriteFalse(g, b), b, Opposite(g.predicates[b]))
    ensures !FalseSame(g, b) && !FalseOpposite(g, b) ==> RewriteFalse(g, b) == g
  {
    hide Clear;
    ClearStep(g, Side(g, b, NV));
    if FalseSame(g, b) || FalseOpposite(g, b) {
      if g.predicates[b] == AL { ClearStep(g, Next(g, NV, Side(g, b, NV))); }
    }
  }

  /** Both sides of a block keep what is quiet, and whether anything goes round. */
  lemma BlockKeepsRound(g: Graph, b: nat)
    requires WellFormed(g) && b < |g.empty| && Quiet(g)
    ensures Quiet(RewriteBlock(g, b)) && (Round(RewriteBlock(g, b)) <==> Round(g))
  {
    hide Quiet, Round;
    assert QuietAt(g, b) by { QuietOne(g, b); }
    var h := RewriteTrue(g, b);
    TrueRule(g, b);
    if TakesOver(g, b) {
      CopyKeepsBoth(g, h, b);
    } else if TrueSame(g, b) || TrueOpposite(g, b) {
      MoveKeepsBoth(g, h, b, g.predicates[b]);
    }
    assert QuietAt(h, b) by { QuietOne(h, b); }
    FalseRule(h, b);
    if FalseSame(h, b) || FalseOpposite(h, b) {
      MoveKeepsBoth(h, RewriteFalse(h, b), b, Opposite(h.predicates[b]));
    }
  }

  lemma QuietOne(g: Graph, b: nat)
    requires WellFormed(g) && b < |g.empty| && Quiet(g)
    ensures QuietAt(g, b)
  {
  }

  lemma CopyKeepsBoth(g: Graph, h: Graph, c: nat)
    requires WellFormed(g) && WellFormed(h) && c < |g.empty| && Copies(g, h, c) && Quiet(g)
    ensures Quiet(h) && (Round(h) <==> Round(g))
  {
    hide RoundFrom, Copies;
    CopyKeepsQuiet(g, h, c);
    if b: nat, l: nat :| RoundFrom(g, b, l) { CopyKeepsRound(g, h, c, b, l); }
    if b: nat, l: nat :| RoundFrom(h, b, l) { CopyHadRound(g, h, c, b, l); }
  }

  lemma MoveKeepsBoth(g: Graph, h: Graph, c: nat, m: nat)
    requires WellFormed(g) && WellFormed(h) && c < |g.empty| && Moves(g, h, c, m) && Quiet(g)
    ensures Quiet(h) && (Round(h) <==> Round(g))
  {
    hide RoundFrom, Moves;
    MoveKeepsQuiet(g, h, c, m);
    if b: nat, l: nat :| RoundFrom(g, b, l) { MoveKeepsRound(g, h, c, m, b, l); }
    if b: nat, l: nat :| RoundFrom(h, b, l) { MoveHadRound(g, h, c, m, b, l); }
  }

  lemma {:induction false} PassKeepsRound(g: Graph, n: nat)
    requires WellFormed(g) && n <= |g.empty| && Quiet(g)
    ensures Quiet(Pass(g, n)) && (Round(Pass(g, n)) <==> Round(g))
    decreases n
  {
    hide Quiet, Round, RewriteBlock;
    if n > 0 {
      BlockKeepsRound(g, n - 1);
      PassKeepsRound(RewriteBlock(g, n - 1), n - 1);
    }
  }

  // ---------- going round, it never ends ----------

  /** Where something goes round, a rule applies. */
  lemma RoundApplies(g: Graph, b: nat, l: nat) returns (c: nat)
    requires WellFormed(g) && RoundFrom(g, b, l)
    ensures c < |g.empty| && Applies(g, c)
  {
    hide Forever;
    c := b;
    if Jump(g, b) {
      ForeverStep(g, l, g.trueblk[b]);
    } else {
      var t := Side(g, b, l);
      ForeverStep(g, l, t);
      if Jump(g, t) {
        ForeverStep(g, l, Next(g, l, t));
        c := t;
      }
    }
  }

  lemma {:induction false} RoundNeverEnds(g: Graph, k: nat)
    requires WellFormed(g) && Quiet(g) && Round(g)
    ensures !EndsWithin(g, k)
    decreases k
  {
    hide Quiet, RoundFrom, Pass, Reports, Applies;
    if k == 0 {
      if !Reports(g, |g.empty|) {
        QuietPass(g, |g.empty|);
        var b: nat, l: nat :| RoundFrom(g, b, l);
        var c := RoundApplies(g, b, l);
        assert false;
      }
    } else {
      PassKeepsRound(g, |g.empty|);
      RoundNeverEnds(Pass(g, |g.empty|), k - 1);
    }
  }

  // ---------- otherwise it ends ----------

  /** The decided steps ahead of a block, cut off where a walk must have come round. */
  function Load(g: Graph, b: nat): nat
    requires WellFormed(g) && b < |g.empty|
  {
    var p, n := g.predicates[b], |g.empty| + 1;
    Steps(g, p, g.trueblk[b], n) + Steps(g, Opposite(p), g.falseblk[b], n)
    + if Jump(g, b) then 2 * n + 1 else 0
  }

  function TotalLoad(g: Graph, k: nat): nat
    requires WellFormed(g) && k <= |g.empty|
  {
    if k == 0 then 0 else TotalLoad(g, k - 1) + Load(g, k - 1)
  }

  lemma {:induction false} TotalDrops(g: Graph, h: Graph, b: nat, k: nat)
    requires WellFormed(g) && WellFormed(h) && |h.empty| == |g.empty| && k <= |g.empty| && b < |g.empty|
    requires forall c: nat :: c < |g.empty| && c != b ==> Load(h, c) <= Load(g, c)
    requires Load(h, b) < Load(g, b)
    ensures TotalLoad(h, k) + (if b < k then 1 else 0) <= TotalLoad(g, k)
    decreases k
  {
    hide Load;
    if k > 0 { TotalDrops(g, h, b, k - 1); }
  }

  /** A walk that stops is one step longer than what is left of it. */
  lemma StepLess(g: Graph, l: nat, t: int)
    requires WellFormed(g) && Decided(g, l, t) && !Forever(g, l, t)
    ensures Steps(g, l, Next(g, l, t), |g.empty| + 1) < Steps(g, l, t, |g.empty| + 1)
  {
    ForeverExactly(g, l, t);
    StepsBy(g, l, Next(g, l, t), |g.empty|, |g.empty| + 1);
  }

  lemma OthersNoHeavier(g: Graph, h: Graph, b: nat, c: nat)
    requires WellFormed(g) && WellFormed(h) && DiffersAt(g, h, b) && c < |g.empty| && c != b
    requires forall l: nat :: Skips(g, h, l)
    ensures Load(h, c) <= Load(g, c)
  {
    hide Skips, Steps;
    var p := g.predicates[c];
    StepsShrink(g, h, p, g.trueblk[c], |g.empty| + 1);
    StepsShrink(g, h, Opposite(p), g.falseblk[c], |g.empty| + 1);
  }

  lemma CopyDrops(g: Graph, h: Graph, b: nat)
    requires WellFormed(g) && WellFormed(h) && b < |g.empty| && Copies(g, h, b) && !Round(g)
    ensures TotalLoad(h, |g.empty|) < TotalLoad(g, |g.empty|)
  {
    hide Forever, Skips, Steps;
    forall l: nat ensures Skips(g, h, l) { CopiesSkips(g, h, b, l); }
    forall c: nat | c < |g.empty| && c != b ensures Load(h, c) <= Load(g, c) { OthersNoHeavier(g, h, b, c); }
    var t, n := g.trueblk[b], |g.empty| + 1;
    if Jump(g, t) {
      assert !RoundFrom(g, b, AL);
      StepLess(g, AL, t);
      StepsShrink(g, h, AL, g.trueblk[t], n);
      NullStops(h, Opposite(AL), n);
    }
    TotalDrops(g, h, b, |g.empty|);
  }

  lemma NullStops(g: Graph, l: nat, n: nat)
    requires WellFormed(g)
    ensures Steps(g, l, NULL, n) == 0
  {
  }

  lemma MoveDrops(g: Graph, h: Graph, b: nat, m: nat)
    requires WellFormed(g) && WellFormed(h) && b < |g.empty| && Moves(g, h, b, m) && !Round(g)
    ensures TotalLoad(h, |g.empty|) < TotalLoad(g, |g.empty|)
  {
    hide Forever, Skips, Steps;
    forall l: nat ensures Skips(g, h, l) { MovesSkips(g, h, b, m, l); }
    forall c: nat | c < |g.empty| && c != b ensures Load(h, c) <= Load(g, c) { OthersNoHeavier(g, h, b, c); }
    var t, n, o := Side(g, b, m), |g.empty| + 1, Opposite(m);
    assert !RoundFrom(g, b, m);
    StepLess(g, m, t);
    StepsShrink(g, h, m, Next(g, m, t), n);
    StepsShrink(g, h, o, Side(g, b, o), n);
    TotalDrops(g, h, b, |g.empty|);
  }

  lemma BlockDrops(g: Graph, b: nat)
    requires WellFormed(g) && b < |g.empty| && Quiet(g) && !Round(g)
    ensures TotalLoad(RewriteBlock(g, b), |g.empty|) + (if BlockReports(g, b) then 1 else 0) <= TotalLoad(g, |g.empty|)
  {
    hide Quiet, Round, TotalLoad;
    QuietOne(g, b);
    var h := RewriteTrue(g, b);
    TrueRule(g, b);
    if TakesOver(g, b) {
      CopyDrops(g, h, b);
      CopyKeepsBoth(g, h, b);
    } else if TrueSame(g, b) || TrueOpposite(g, b) {
      MoveDrops(g, h, b, g.predicates[b]);
      MoveKeepsBoth(g, h, b, g.predicates[b]);
    }
    QuietOne(h, b);
    FalseRule(h, b);
    if FalseSame(h, b) || FalseOpposite(h, b) {
      MoveDrops(h, RewriteFalse(h, b), b, Opposite(h.predicates[b]));
    }
  }

  lemma {:induction false} PassDrops(g: Graph, n: nat)
    requires WellFormed(g) && n <= |g.empty| && Quiet(g) && !Round(g)
    ensures TotalLoad(Pass(g, n), |g.empty|) + (if Reports(g, n) then 1 else 0) <= TotalLoad(g, |g.empty|)
    decreases n
  {
    hide Quiet, Round, TotalLoad, RewriteBlock, BlockReports;
    if n > 0 {
      BlockDrops(g, n - 1);
      BlockKeepsRound(g, n - 1);
      PassDrops(RewriteBlock(g, n - 1), n - 1);
    }
  }

  lemma {:induction false} RoundlessEnds(g: Graph) returns (k: nat)
    requires WellFormed(g) && Quiet(g) && !Round(g)
    ensures EndsWithin(g, k) && k <= TotalLoad(g, |g.empty|)
    decreases TotalLoad(g, |g.empty|)
  {
    hide Quiet, Round, TotalLoad, Pass, Reports;
    if !Reports(g, |g.empty|) {
      k := 0;
    } else {
      PassDrops(g, |g.empty|);
      PassKeepsRound(g, |g.empty|);
      var j := RoundlessEnds(Pass(g, |g.empty|));
      k := j + 1;
    }
  }

  lemma {:induction false} PassesAdd(g: Graph, j: nat, k: nat)
    requires WellFormed(g)
    ensures Passes(g, j + k) == Passes(Passes(g, j), k)
    decreases j
  {
    hide Pass;
    if j > 0 { PassesAdd(Pass(g, |g.empty|), j - 1, k); }
  }

  lemma {:induction false} EndedStays(g: Graph, k: nat)
    requires WellFormed(g) && EndsWithin(g, 0)
    ensures Passes(g, k) == g
    decreases k
  {
    QuietPass(g, |g.empty|);
    if k > 0 { EndedStays(g, k - 1); }
  }

  lemma EndsAfter(g: Graph, j: nat)
    requires WellFormed(g)
    ensures (exists k: nat :: EndsWithin(g, k)) <==> exists k: nat :: EndsWithin(Passes(g, j), k)
  {
    hide Passes, Reports;
    if k: nat :| EndsWithin(g, k) {
      if k < j {
        PassesAdd(g, k, j - k);
        PassesAdd(g, k, 0);
        NoPasses(Passes(g, k));
        EndedStays(Passes(g, k), j - k);
        assert EndsWithin(Passes(g, j), 0);
      } else {
        PassesAdd(g, j, k - j);
        assert EndsWithin(Passes(g, j), k - j);
      }
    }
    if k: nat :| EndsWithin(Passes(g, j), k) {
      PassesAdd(g, j, k);
      assert EndsWithin(g, j + k);
    }
  }

  lemma NoPasses(g: Graph)
    requires WellFormed(g)
    ensures Passes(g, 0) == g
  {
  }

  /** The loop never ends exactly when some decided walk goes round for ever. */
  lemma LoopEndsExactly(g: Graph)
    requires WellFormed(g) && Quiet(g)
    ensures (exists k: nat :: EndsWithin(g, k)) <==> !Round(g)
  {
    hide Quiet, Round, EndsWithin;
    if Round(g) {
      forall k: nat ensures !EndsWithin(g, k) { RoundNeverEnds(g, k); }
    } else {
      var k := RoundlessEnds(g);
    }
  }

  /** The same of a graph that some passes make quiet. */
  lemma LoopEndsExactlyAfter(g: Graph, j: nat)
    requires WellFormed(g) && Quiet(Passes(g, j))
    ensures (exists k: nat :: EndsWithin(g, k)) <==> !Round(Passes(g, j))
  {
    hide Quiet, Round, EndsWithin;
    EndsAfter(g, j);
    LoopEndsExactly(Passes(g, j));
  }

  lemma {:induction false} SelfIsClear(g: Graph, b: nat, n: nat)
    requires WellFormed(g) && b < |g.empty| && Follows(g, b, NV) && Side(g, b, NV) == b
    ensures ClearFor(g, b, n)
    decreases n
  {
    if n > 0 { SelfIsClear(g, b, n - 1); }
  }

  /** Where no rule applies the graph is quiet, and nothing goes round. */
  lemma StableIsQuiet(g: Graph)
    requires WellFormed(g) && forall b: nat :: b < |g.empty| ==> !Applies(g, b)
    ensures Quiet(g) && !Round(g)
  {
    hide Clear, RoundFrom;
    forall b: nat | b < |g.empty| ensures QuietAt(g, b) {
      if Follows(g, b, NV) && Side(g, b, NV) != NULL {
        if Side(g, b, NV) == b {
          forall n: nat ensures ClearFor(g, b, n) { SelfIsClear(g, b, n); }
          ClearIs(g, b);
        } else {
          assert !Applies(g, b);
          ClearStep(g, Side(g, b, NV));
        }
      }
    }
    if b: nat, l: nat :| RoundFrom(g, b, l) {
      var c := RoundApplies(g, b, l);
      assert false;
    }
  }

  /** On every graph: the loop ends exactly if some passes make it quiet with nothing going round. */
  lemma LoopEndsExactlyEverywhere(g: Graph)
    requires WellFormed(g)
    ensures (exists k: nat :: EndsWithin(g, k)) <==> exists j: nat :: Quiet(Passes(g, j)) && !Round(Passes(g, j))
  {
    hide Quiet, Round, Reports, Passes, Applies;
    if k: nat :| EndsWithin(g, k) {
      QuietPass(Passes(g, k), |g.empty|);
      StableIsQuiet(Passes(g, k));
    }
    if j: nat :| Quiet(Passes(g, j)) && !Round(Passes(g, j)) { LoopEndsExactlyAfter(g, j); }
  }

  // ---------- rewrites that leave the graph as it was ----------

  /** `b` is threaded into the empty block `t`, and so is `t` itself. */
  ghost predicate Caught(g: Graph, b: nat, t: nat, l: nat)
    requires WellFormed(g)
  {
    b < |g.empty| && IsEmpty(g, t) && b != t && Follows(g, b, l) && Side(g, b, l) == t && Follows(g, t, l) && Side(g, t, l) == t
  }

  lemma CaughtStaysTrue(g: Graph, b: nat, t: nat, l: nat, c: nat)
    requires WellFormed(g) && Caught(g, b, t, l) && c < |g.empty|
    ensures Caught(RewriteTrue(g, c), b, t, l)
  {
  }

  lemma CaughtStaysFalse(g: Graph, b: nat, t: nat, l: nat, c: nat)
    requires WellFormed(g) && Caught(g, b, t, l) && c < |g.empty|
    ensures Caught(RewriteFalse(g, c), b, t, l)
  {
  }

  lemma CaughtStays(g: Graph, b: nat, t: nat, l: nat, c: nat)
    requires WellFormed(g) && Caught(g, b, t, l) && c < |g.empty|
    ensures Caught(RewriteBlock(g, c), b, t, l)
  {
    hide Caught, RewriteTrue, RewriteFalse;
    CaughtStaysTrue(g, b, t, l, c);
    CaughtStaysFalse(RewriteTrue(g, c), b, t, l, c);
  }

  lemma {:induction false} CaughtReports(g: Graph, b: nat, t: nat, l: nat, n: nat)
    requires WellFormed(g) && Caught(g, b, t, l) && n <= |g.empty|
    ensures Caught(Pass(g, n), b, t, l) && (b < n ==> Reports(g, n))
    decreases n
  {
    hide Caught, RewriteBlock, BlockReports, WellFormed;
    if n > 0 {
      CaughtApplies(g, b, t, l);
      CaughtStays(g, b, t, l, n - 1);
      CaughtReports(RewriteBlock(g, n - 1), b, t, l, n - 1);
    }
  }

  lemma CaughtApplies(g: Graph, b: nat, t: nat, l: nat)
    requires WellFormed(g) && Caught(g, b, t, l)
    ensures b < |g.empty| && BlockReports(g, b)
  {
    CaughtStaysTrue(g, b, t, l, b);
  }

  lemma {:induction false} CaughtNeverEnds(g: Graph, b: nat, t: nat, l: nat, k: nat)
    requires WellFormed(g) && Caught(g, b, t, l)
    ensures !EndsWithin(g, k)
    decreases k
  {
    hide Caught, Pass, Reports;
    assert b < |g.empty| by { CaughtApplies(g, b, t, l); }
    CaughtReports(g, b, t, l, |g.empty|);
    if k > 0 { CaughtNeverEnds(Pass(g, |g.empty|), b, t, l, k - 1); }
  }

  /** A rewrite of `b` is reported, and leaves the graph as it was. */
  ghost predicate Idle(g: Graph, b: nat)
    requires WellFormed(g) && b < |g.empty|
  {
    || ((TakesOver(g, b) || TrueSame(g, b) || TrueOpposite(g, b)) && RewriteTrue(g, b) == g)
    || ((FalseSame(g, b) || FalseOpposite(g, b)) && RewriteFalse(g, b) == g)
  }

  /** On any graph at all, with one such rewrite the loop never ends. */
  lemma IdleNeverEnds(g: Graph, b: nat, k: nat)
    requires WellFormed(g) && b < |g.empty| && Idle(g, b)
    ensures !EndsWithin(g, k)
  {
    hide EndsWithin;
    var p, t, f := g.predicates[b], g.trueblk[b], g.falseblk[b];
    if TakesOver(g, b) && RewriteTrue(g, b) == g {
      assert g.predicates[b := g.predicates[t]][b] == AL && g.falseblk[b := g.falseblk[t]][b] == NULL;
      assert g.trueblk[b := g.trueblk[t]][b] == t;
      EmptyLoopNeverEnds(g, t, k);
    } else if (TrueSame(g, b) || TrueOpposite(g, b)) && RewriteTrue(g, b) == g {
      assert RewriteTrue(g, b).trueblk[b] == t;
      CaughtNeverEnds(g, b, t, p, k);
    } else {
      assert RewriteFalse(g, b).falseblk[b] == f;
      CaughtNeverEnds(g, b, f, Opposite(p), k);
    }
  }

  // ---------- without quiet the order of visits counts ----------

  /** Two AL blocks: the dead side of one leads to the other, an unconditional empty block. */
  const LATE := Graph([true, true], [AL, AL], [NULL, 1], [NULL, 0])

  const EARLY := Graph([true, true], [AL, AL], [1, NULL], [NULL, 0])

  /** What a pass makes of each: the dead side is gone. */
  lemma PassOfEach()
    ensures WellFormed(LATE) && Passes(LATE, 1) == LATE.(falseblk := [NULL, NULL])
    ensures WellFormed(EARLY) && Passes(EARLY, 1) == EARLY.(trueblk := [NULL, NULL], falseblk := [NULL, NULL])
  {
    var late := RewriteBlock(LATE, 1);
    assert late == LATE.(falseblk := [NULL, NULL]) && RewriteBlock(late, 0) == late;
    assert Pass(late, 1) == Pass(RewriteBlock(late, 0), 0) == late;
    assert Pass(LATE, 2) == late && Passes(late, 0) == late;
    var early := RewriteBlock(EARLY, 1);
    assert early == EARLY.(falseblk := [NULL, NULL]);
    var none := RewriteBlock(early, 0);
    assert none == EARLY.(trueblk := [NULL, NULL], falseblk := [NULL, NULL]);
    assert Pass(early, 1) == Pass(none, 0) == none;
    assert Pass(EARLY, 2) == none && Passes(none, 0) == none;
  }

  /** Nothing goes round at first, but the loop never ends: in what one pass leaves something does. */
  lemma LateGoesRound()
    ensures WellFormed(LATE) && !Round(LATE) && Quiet(Passes(LATE, 1)) && Round(Passes(LATE, 1))
  {
    hide Forever, Passes;
    PassOfEach();
    var next := Passes(LATE, 1);
    forall b: nat, l: nat ensures !RoundFrom(LATE, b, l) {
      ForeverStep(LATE, l, 0);
      ForeverStep(LATE, l, NULL);
    }
    forall n: nat ensures Steps(next, AL, 1, n) == n { RoundIsForever(next, AL, 1, 1, n); }
    assert Forever(next, AL, 1) by { SoForever(next, AL, 1); }
    assert RoundFrom(next, 1, AL);
  }

  lemma SoForever(g: Graph, l: nat, t: int)
    requires WellFormed(g) && forall n: nat :: Steps(g, l, t, n) == n
    ensures Forever(g, l, t)
  {
  }

  /** And the other way about: something goes round at first, but the loop ends. */
  lemma EarlyComesToRest()
    ensures WellFormed(EARLY) && Round(EARLY) && Quiet(Passes(EARLY, 1)) && !Round(Passes(EARLY, 1))
  {
    hide Forever, Passes;
    PassOfEach();
    var next := Passes(EARLY, 1);
    assert Steps(EARLY, NV, 0, 2) == 2 && After(EARLY, NV, 0, 2) == 0;
    forall n: nat ensures Steps(EARLY, NV, 0, n) == n { RoundIsForever(EARLY, NV, 0, 2, n); }
    SoForever(EARLY, NV, 0);
    assert RoundFrom(EARLY, 1, NV);
    forall b: nat, l: nat ensures !RoundFrom(next, b, l) {
      ForeverStep(next, l, NULL);
    }
  }
}
