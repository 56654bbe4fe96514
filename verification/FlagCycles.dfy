/**
 When pheta_fixup_flags ends (dynarec/pheta.c).  The recursion goes from block to predecessor
 for as long as anything is pending, and nothing marks the blocks it has been to.  It never
 ends exactly when it can go round a cycle on which every block leaves something pending.
 */
module FlagCycles {
  import opened Ph2
  import opened FlagDemand
  import Digraph

  // ---------- what is handed up ----------

  /** What can be pending: a flag, or a predicate. */
  datatype Item = AFlag(f: Flag) | APredicate(p: nat)

  predicate Holds(np: int, nf: FlagMask, it: Item) {
    match it
    case AFlag(f) => Has(nf, f)
    case APredicate(p) => np == p
  }

  /** The instruction serves it. */
  predicate Takes(i: Instr, it: Item) {
    match it
    case AFlag(f) => i.FCommit? && Has(i.have, f)
    case APredicate(p) => if p < 16 then i.FCommit? else i.NFCommit?
  }

  predicate Raises(i: Instr, it: Item) {
    it.AFlag? && Requires(i, OfFlag(it.f))
  }

  predicate Untaken(code: seq<Instr>, it: Item) {
    forall k :: 0 <= k < |code| ==> !Takes(code[k], it)
  }

  /** Something in the code raises it, and nothing above serves it. */
  predicate RaisesOut(code: seq<Instr>, it: Item) {
    exists m :: 0 <= m < |code| && Raises(code[m], it) && Untaken(code[..m], it)
  }

  /** It is pending at the top, if it `enters` at the end or not. */
  predicate Emerges(code: seq<Instr>, it: Item, enters: bool) {
    RaisesOut(code, it) || (enters && Untaken(code, it))
  }

  lemma PassedHolds(i: Instr, np: int, nf: FlagMask, it: Item)
    requires SoundCommit(i) && !Passed(i, np, nf).Aborts?
    ensures var next := Passed(i, np, nf);
            Holds(next.np, next.nf, it) <==> Raises(i, it) || (Holds(np, nf, it) && !Takes(i, it))
  {
  }

  lemma EmergesStep(front: seq<Instr>, i: Instr, it: Item, enters: bool)
    ensures Emerges(front + [i], it, enters) <==> Emerges(front, it, Raises(i, it) || (enters && !Takes(i, it)))
  {
    var code := front + [i];
    assert code[..|front|] == front && code[|front|] == i;
    assert Untaken(code, it) <==> Untaken(front, it) && !Takes(i, it) by {
      if Untaken(code, it) {
        forall k | 0 <= k < |front| ensures !Takes(front[k], it) { assert code[k] == front[k]; }
      }
    }
    if RaisesOut(code, it) {
      var m :| 0 <= m < |code| && Raises(code[m], it) && Untaken(code[..m], it);
      if m < |front| { assert code[..m] == front[..m] && Raises(front[m], it); }
    }
    if RaisesOut(front, it) {
      var m :| 0 <= m < |front| && Raises(front[m], it) && Untaken(front[..m], it);
      assert code[..m] == front[..m] && Raises(code[m], it);
    }
  }

  /** What a block hands up is what emerges from it. */
  lemma {:induction false} HandedHolds(code: seq<Instr>, np: int, nf: FlagMask, it: Item)
    requires SoundCode(code) && !Handed(code, np, nf).Aborts?
    ensures var left := Handed(code, np, nf);
            Holds(left.np, left.nf, it) <==> Emerges(code, it, Holds(np, nf, it))
    decreases |code|
  {
    hide Holds, Raises, Takes, Passed, RaisesOut, SoundCommit, Emerges;
    if code == [] {
      assert Emerges(code, it, Holds(np, nf, it)) <==> Holds(np, nf, it) by { NothingEmerges(it, Holds(np, nf, it)); }
    } else {
      var front, i := code[..|code| - 1], code[|code| - 1];
      assert code == front + [i];
      var next := Passed(i, np, nf);
      PassedHolds(i, np, nf, it);
      EmergesStep(front, i, it, Holds(np, nf, it));
      HandedHolds(front, next.np, next.nf, it);
    }
  }

  lemma NothingEmerges(it: Item, enters: bool)
    ensures Emerges([], it, enters) <==> enters
  {
  }

  lemma {:induction false} HandedPredicate(code: seq<Instr>, np: int, nf: FlagMask)
    requires !Handed(code, np, nf).Aborts?
    ensures Handed(code, np, nf).np == np || Handed(code, np, nf).np == -1
    decreases |code|
  {
    if code != [] {
      var next := Passed(code[|code| - 1], np, nf);
      HandedPredicate(code[..|code| - 1], next.np, next.nf);
    }
  }

  lemma SomeItem(np: int, nf: FlagMask) returns (it: Item)
    requires np >= -1 && (np != -1 || nf != PH_NONE)
    ensures Holds(np, nf, it)
  {
    it := if np != -1 then APredicate(np) else if nf.n then AFlag(FlagN) else if nf.z then AFlag(FlagZ)
          else if nf.c then AFlag(FlagC) else AFlag(FlagV);
  }

  lemma ItemIsSomething(np: int, nf: FlagMask, it: Item)
    requires Holds(np, nf, it)
    ensures np != -1 || nf != PH_NONE
  {
  }

  // ---------- calls ----------

  /** The call `x` makes the call `y`: something is left pending at the top, and handed to a predecessor. */
  predicate Recurs(g: Graph, x: Call, y: Call)
    requires WellFormed(g)
  {
    && x.b < |g.base| && y.b in g.predecessors[x.b] && y.b != x.b
    && var left := Handed(g.base[x.b], Normal(x.np), x.nf);
       left == Pended(y.np, y.nf) && (left.np != -1 || left.nf != PH_NONE)
  }

  /** It is pending at the top of the call's block. */
  predicate TopHolds(g: Graph, x: Call, it: Item)
    requires WellFormed(g) && x.b < |g.base|
  {
    var left := Handed(g.base[x.b], Normal(x.np), x.nf);
    !left.Aborts? && Holds(left.np, left.nf, it)
  }

  /** Each call made by the one before. */
  predicate Chain(g: Graph, s: seq<Call>)
    requires WellFormed(g)
  {
    forall k :: 0 <= k < |s| - 1 ==> Recurs(g, s[k], s[k + 1])
  }

  /** Calls that go too deep are made by calls that do. */
  lemma {:induction false} DeepRun(g: Graph, x: Call, n: nat) returns (s: seq<Call>)
    requires WellFormed(g) && x.b < |g.base| && Calls(g, x, n).Deeper?
    ensures |s| == n + 2 && s[0] == x && Chain(g, s)
    decreases n
  {
    hide Handed;
    var left := Handed(g.base[x.b], Normal(x.np), x.nf);
    var k := DeepCall(g, x.b, left.np, left.nf, 0, n);
    var y := Call(g.predecessors[x.b][k], left.np, left.nf);
    assert Recurs(g, x, y);
    if n == 0 {
      s := [x, y];
    } else {
      var rest := DeepRun(g, y, n - 1);
      s := [x] + rest;
      forall i | 0 <= i < |s| - 1 ensures Recurs(g, s[i], s[i + 1]) {
        if i > 0 { assert s[i] == rest[i - 1] && s[i + 1] == rest[i]; }
      }
    }
  }

  lemma {:induction false} DeepCall(g: Graph, b: nat, np: int, nf: FlagMask, k: nat, n: nat) returns (j: nat)
    requires WellFormed(g) && b < |g.base| && k <= |g.predecessors[b]| && CallsFrom(g, b, np, nf, k, n).Deeper?
    ensures k <= j < |g.predecessors[b]| && g.predecessors[b][j] != b
    ensures n > 0 ==> Calls(g, Call(g.predecessors[b][j], np, nf), n - 1).Deeper?
    decreases |g.predecessors[b]| - k
  {
    hide Calls;
    CallsOn(g, b, np, nf, k, n);
    var p := g.predecessors[b][k];
    if p != b && (n == 0 || Calls(g, Call(p, np, nf), n - 1).Deeper?) {
      j := k;
    } else {
      j := DeepCall(g, b, np, nf, k + 1, n);
    }
  }

  // ---------- a depth that is always enough ----------

  /** Sixteen sets of flags, with the first predicate or none, for each block. */
  function Bound(g: Graph): nat {
    32 * |g.base|
  }

  function FlagsNumber(nf: FlagMask): (n: nat)
    ensures n < 16
  {
    (if nf.n then 8 else 0) + (if nf.z then 4 else 0) + (if nf.c then 2 else 0) + (if nf.v then 1 else 0)
  }

  function Number(x: Call): nat {
    32 * x.b + FlagsNumber(x.nf) + if x.np == -1 then 0 else 16
  }

  lemma SameNumber(x: Call, y: Call, np: int)
    requires (x.np == np || x.np == -1) && (y.np == np || y.np == -1) && Number(x) == Number(y)
    ensures x == y
  {
    assert x.b == Number(x) / 32 && y.b == Number(y) / 32;
  }

  lemma NumberBound(g: Graph, x: Call)
    requires x.b < |g.base|
    ensures Number(x) < Bound(g)
  {
  }

  /** A predicate handed on is the first call's. */
  lemma {:induction false} ChainPredicate(g: Graph, s: seq<Call>, k: nat)
    requires WellFormed(g) && Chain(g, s) && 0 < k < |s|
    ensures s[k].b < |g.base| && (s[k].np == Normal(s[0].np) || s[k].np == -1)
    decreases k
  {
    hide Handed;
    assert Recurs(g, s[k - 1], s[k]);
    HandedPredicate(g.base[s[k - 1].b], Normal(s[k - 1].np), s[k - 1].nf);
    if k > 1 { ChainPredicate(g, s, k - 1); }
  }

  /** A chain longer than that comes back to one of its calls. */
  lemma LongChainRepeats(g: Graph, s: seq<Call>) returns (i: nat, j: nat)
    requires WellFormed(g) && Chain(g, s) && |s| >= Bound(g) + 2
    ensures 1 <= i < j < |s| && s[i] == s[j]
  {
    hide Number, Recurs;
    var np := Normal(s[0].np);
    forall k | 1 <= k < |s| ensures s[k].b < |g.base| && (s[k].np == np || s[k].np == -1) && Number(s[k]) < Bound(g) {
      ChainPredicate(g, s, k);
      NumberBound(g, s[k]);
    }
    var numbers: seq<nat> := seq(|s| - 1, k requires 0 <= k < |s| - 1 => Number(s[k + 1]));
    var a, b := Digraph.Pigeonhole(Bound(g), numbers);
    i, j := a + 1, b + 1;
    assert numbers[a] == numbers[b];
    SameNumber(s[i], s[j], np);
  }

  // ---------- round and round ----------

  lemma ModNext(a: nat, m: nat)
    requires m > 0
    ensures (a + 1) % m == if a % m + 1 == m then 0 else a % m + 1
  {
    var q, r := a / m, a % m;
    assert a == m * q + r;
    if r + 1 == m { ModIs(a + 1, m, q + 1, 0); } else { ModIs(a + 1, m, q, r + 1); }
  }

  lemma ModIs(a: int, m: nat, q: int, r: nat)
    requires m > 0 && a == m * q + r && r < m
    ensures a % m == r
  {
    var d := a / m - q;
    assert a == m * (a / m) + a % m;
    assert m * d == r - a % m;
    Multiples(m, d);
  }

  lemma Multiples(m: nat, d: int)
    requires m > 0
    ensures d >= 1 ==> m * d >= m
    ensures d <= -1 ==> m * d + m <= 0
  {
    if d >= 1 {
      assert m * (d - 1) >= 0;
    } else if d <= -1 {
      assert m * (-1 - d) >= 0;
    }
  }

  lemma ModShift(a: int, m: nat, k: int)
    requires m > 0
    ensures (a + m * k) % m == a % m
  {
    ModIs(a + m * k, m, a / m + k, a % m);
  }

  // ---------- a cycle that keeps something pending ----------

  /** A step back from a block to another. */
  predicate Back(g: Graph, b: nat, p: nat)
    requires WellFormed(g)
  {
    b < |g.base| && p in g.predecessors[b] && p != b
  }

  function At(c: seq<nat>, i: int): nat
    requires c != []
  {
    c[i % |c|]
  }

  predicate BackAt(g: Graph, c: seq<nat>, i: int)
    requires WellFormed(g) && c != []
  {
    Back(g, At(c, i), At(c, i + 1))
  }

  /** Blocks each of which is a predecessor of the one before, all the way round. */
  predicate Ring(g: Graph, c: seq<nat>)
    requires WellFormed(g)
  {
    |c| >= 2 && forall i: nat :: i < |c| ==> BackAt(g, c, i)
  }

  lemma RingBlock(g: Graph, c: seq<nat>, i: int)
    requires WellFormed(g) && Ring(g, c)
    ensures |c| >= 2 && At(c, i) < |g.base| && BackAt(g, c, i)
  {
    var m := |c|;
    assert BackAt(g, c, i % m);
    ModIs(i % m, m, 0, i % m);
    ModIs(i + 1, m, (i + 1) / m, (i + 1) % m);
    var q := i / m;
    assert i + 1 == i % m + 1 + m * q;
    ModShift(i % m + 1, m, q);
  }

  /** A flag raised `d` blocks before on the ring is still pending at the top of its `i`th block. */
  predicate RaisedBack(g: Graph, c: seq<nat>, i: int, f: Flag, d: nat)
    requires WellFormed(g) && Ring(g, c)
  {
    RingBlock(g, c, i - d);
    RaisesOut(g.base[At(c, i - d)], AFlag(f)) && forall k :: i - d < k <= i ==> UntakenAt(g, c, k, AFlag(f))
  }

  predicate UntakenAt(g: Graph, c: seq<nat>, i: int, it: Item)
    requires WellFormed(g) && Ring(g, c)
  {
    RingBlock(g, c, i);
    Untaken(g.base[At(c, i)], it)
  }

  /** Within the last round. */
  ghost predicate RaisedRound(g: Graph, c: seq<nat>, i: nat)
    requires WellFormed(g) && Ring(g, c)
  {
    exists f, d: nat :: d < |c| && RaisedBack(g, c, i, f, d)
  }

  /** The block raises it, or it is the predicate the block closes with. */
  predicate Starts(g: Graph, b: nat, it: Item)
    requires WellFormed(g) && b < |g.base|
  {
    RaisesOut(g.base[b], it)
    || (it.APredicate? && it.p == Normal(g.predicates[b]) && Untaken(g.base[b], it))
  }

  /** A walk back from where it starts that does not serve it. */
  ghost predicate Carried(g: Graph, v: seq<nat>, it: Item)
    requires WellFormed(g)
  {
    && v != [] && (forall k :: 0 <= k < |v| ==> v[k] < |g.base|)
    && (forall k :: 0 <= k < |v| - 1 ==> Back(g, v[k], v[k + 1]))
    && Starts(g, v[0], it) && forall k :: 0 < k < |v| ==> Untaken(g.base[v[k]], it)
  }

  /** Something no block of the ring serves arrives there. */
  ghost predicate BroughtIn(g: Graph, c: seq<nat>, it: Item)
    requires WellFormed(g) && Ring(g, c)
  {
    && (forall i: nat :: i < |c| ==> UntakenAt(g, c, i, it))
    && exists v :: Carried(g, v, it) && v[|v| - 1] in c
  }

  /** Every block of the ring leaves something pending at its top, round after round. */
  ghost predicate Leaks(g: Graph, c: seq<nat>)
    requires WellFormed(g)
  {
    Ring(g, c) && ((exists it :: BroughtIn(g, c, it)) || forall i: nat :: i < |c| ==> RaisedRound(g, c, i))
  }

  // ---------- a repeated call gives such a cycle ----------

  /** The chain, and round its end for ever. */
  function Lasso(s: seq<Call>, i: nat, j: nat, n: nat): Call
    requires i < j < |s|
  {
    if n < j then s[n] else s[i + (n - i) % (j - i)]
  }

  lemma LassoRecurs(g: Graph, s: seq<Call>, i: nat, j: nat, n: nat)
    requires WellFormed(g) && Chain(g, s) && i < j < |s| && s[i] == s[j]
    ensures Recurs(g, Lasso(s, i, j, n), Lasso(s, i, j, n + 1))
  {
    hide Recurs;
    var m := j - i;
    if n >= j {
      ModNext(n - i, m);
      var q := (n - i) % m;
      assert Recurs(g, s[i + q], s[i + q + 1]);
      if q + 1 == m { assert s[i + q + 1] == s[i]; }
    } else {
      assert Recurs(g, s[n], s[n + 1]);
      if n + 1 == j { assert (j - i) % m == 0; }
    }
  }

  /** An endless run of calls. */
  ghost predicate Run(g: Graph, r: nat -> Call)
    requires WellFormed(g)
  {
    forall n: nat :: r(n).b < |g.base| && Recurs(g, r(n), r(n + 1))
  }

  /** What is pending at the top of a call was raised by it or an earlier one, and not served since. */
  lemma {:induction false} Source(g: Graph, r: nat -> Call, t: nat, it: Item) returns (k: nat)
    requires WellFormed(g) && SoundCommits(g) && Run(g, r) && r(0) == FirstCall(g, r(0).b)
    requires TopHolds(g, r(t), it)
    ensures k <= t && Starts(g, r(k).b, it) && (k > 0 ==> RaisesOut(g.base[r(k).b], it))
    ensures forall n :: k < n <= t ==> Untaken(g.base[r(n).b], it)
    decreases t
  {
    hide RaisesOut, Untaken, Handed, SoundCommits;
    var x := r(t);
    assert Recurs(g, r(t), r(t + 1));
    assert SoundCode(g.base[x.b]) by { SoundBlock(g, x.b); }
    HandedHolds(g.base[x.b], Normal(x.np), x.nf, it);
    if RaisesOut(g.base[x.b], it) {
      k := t;
    } else if t == 0 {
      k := 0;
    } else {
      assert Recurs(g, r(t - 1), r(t));
      NormalOfHanded(g, r(t - 1), r(t));
      k := Source(g, r, t - 1, it);
    }
  }

  lemma SoundBlock(g: Graph, b: nat)
    requires SoundCommits(g) && b < |g.base|
    ensures SoundCode(g.base[b])
  {
  }

  lemma NormalOfHanded(g: Graph, x: Call, y: Call)
    requires WellFormed(g) && Recurs(g, x, y)
    ensures Normal(y.np) == y.np
  {
    HandedPredicate(g.base[x.b], Normal(x.np), x.nf);
  }

  /** The blocks of the calls between two that are the same. */
  function RingOf(s: seq<Call>, i: nat, j: nat): seq<nat>
    requires i < j < |s|
  {
    seq<nat>(j - i, q requires 0 <= q < j - i => s[i + q].b)
  }

  /** The lasso goes round its ring. */
  lemma LassoAt(s: seq<Call>, i: nat, j: nat, n: nat)
    requires i < j < |s| && s[i] == s[j] && i <= n
    ensures Lasso(s, i, j, n).b == At(RingOf(s, i, j), n - i)
  {
    if n < j { ModIs(n - i, j - i, 0, n - i); }
  }

  lemma RingOfIsRing(g: Graph, s: seq<Call>, i: nat, j: nat)
    requires WellFormed(g) && Chain(g, s) && i < j < |s| && s[i] == s[j]
    ensures Ring(g, RingOf(s, i, j))
  {
    hide Lasso, At, RingOf;
    var c := RingOf(s, i, j);
    assert |c| == j - i by { RingOfLength(s, i, j); }
    LassoRecurs(g, s, i, j, i);
    if |c| == 1 { OneApart(s, i, j); }
    forall q: nat | q < |c| ensures BackAt(g, c, q) {
      LassoRecurs(g, s, i, j, i + q);
      LassoAt(s, i, j, i + q);
      LassoAt(s, i, j, i + q + 1);
    }
  }

  lemma RingOfLength(s: seq<Call>, i: nat, j: nat)
    requires i < j < |s|
    ensures |RingOf(s, i, j)| == j - i
  {
  }

  lemma OneApart(s: seq<Call>, i: nat, j: nat)
    requires i < j < |s| && s[i] == s[j] && j - i == 1
    ensures Lasso(s, i, j, i) == Lasso(s, i, j, i + 1)
  {
  }

  /** The blocks of a run between two of its calls. */
  function Blocks(r: nat -> Call, k: nat, t: nat): (v: seq<nat>)
    requires k <= t
    ensures |v| == t - k + 1 && forall n :: 0 <= n < |v| ==> v[n] == r(k + n).b
  {
    seq<nat>(t - k + 1, n requires 0 <= n <= t - k => r(k + n).b)
  }

  lemma RunCarries(g: Graph, r: nat -> Call, k: nat, t: nat, it: Item)
    requires WellFormed(g) && Run(g, r) && k <= t && Starts(g, r(k).b, it)
    requires forall n :: k < n <= t ==> Untaken(g.base[r(n).b], it)
    ensures Carried(g, Blocks(r, k, t), it)
  {
    hide Starts, Untaken, Handed;
    var v := Blocks(r, k, t);
    forall n | 0 <= n < |v| - 1 ensures Back(g, v[n], v[n + 1]) {
      assert Recurs(g, r(k + n), r(k + n + 1));
    }
  }

  /** The run, from `i` on, goes round the ring. */
  ghost predicate Follows(r: nat -> Call, i: nat, c: seq<nat>)
    requires c != []
  {
    forall x: nat :: r(i + x).b == At(c, x)
  }

  /** Round the ring every block has something pending: from the last round, or from before and never served. */
  lemma RunLeaksAt(g: Graph, r: nat -> Call, i: nat, c: seq<nat>, q: nat)
    requires WellFormed(g) && SoundCommits(g) && Run(g, r) && r(0) == FirstCall(g, r(0).b)
    requires Ring(g, c) && i >= 1 && q < |c| && Follows(r, i, c)
    ensures RaisedRound(g, c, q) || exists it :: BroughtIn(g, c, it)
  {
    hide RaisesOut, Untaken, Handed, SoundCommits, At, Starts, Ring, Run, BroughtIn, RaisedRound, Follows;
    var t := i + q + |c|;
    var it := RunPends(g, r, t);
    var k := Source(g, r, t, it);
    if t - k < |c| {
      RaisedLately(g, r, i, c, q, k, it);
    } else {
      RaisedLongAgo(g, r, i, c, q, k, it);
    }
  }

  lemma RunPends(g: Graph, r: nat -> Call, t: nat) returns (it: Item)
    requires WellFormed(g) && Run(g, r) && r(0) == FirstCall(g, r(0).b)
    ensures r(t).b < |g.base| && TopHolds(g, r(t), it)
  {
    hide Handed;
    assert Recurs(g, r(t), r(t + 1));
    var left := Handed(g.base[r(t).b], Normal(r(t).np), r(t).nf);
    HandedPredicate(g.base[r(t).b], Normal(r(t).np), r(t).nf);
    RunFits(g, r, t);
    it := SomeItem(left.np, left.nf);
  }

  lemma RaisedLately(g: Graph, r: nat -> Call, i: nat, c: seq<nat>, q: nat, k: nat, it: Item)
    requires WellFormed(g) && Ring(g, c) && q < |c| && Follows(r, i, c) && Run(g, r)
    requires var t := i + q + |c|; k <= t && t - k < |c|
    requires RaisesOut(g.base[r(k).b], it)
    requires forall n :: k < n <= i + q + |c| ==> Untaken(g.base[r(n).b], it)
    ensures RaisedRound(g, c, q)
  {
    hide RaisesOut, Untaken, At, Ring, Recurs;
    var m := |c|;
    var d := i + q + m - k;
    forall x | q - d <= x <= q ensures r(i + m + x).b == At(c, x) {
      var y: nat := m + x;
      assert r(i + y).b == At(c, y);
      AtShift(c, x, 1);
    }
    RaisedIsFlag(g.base[r(k).b], it);
    assert i + m + (q - d) == k;
    forall x | q - d < x <= q ensures UntakenAt(g, c, x, it) {
      assert r(i + m + x).b == At(c, x) && k < i + m + x <= i + q + m;
    }
    assert RaisedBack(g, c, q, it.f, d);
  }

  lemma RaisedLongAgo(g: Graph, r: nat -> Call, i: nat, c: seq<nat>, q: nat, k: nat, it: Item)
    requires WellFormed(g) && Ring(g, c) && q < |c| && Follows(r, i, c) && Run(g, r)
    requires var t := i + q + |c|; k <= t && t - k >= |c|
    requires Starts(g, r(k).b, it) && forall n :: k < n <= i + q + |c| ==> Untaken(g.base[r(n).b], it)
    ensures BroughtIn(g, c, it)
  {
    hide Starts, Untaken, At, Ring, Recurs;
    var m, t := |c|, i + q + |c|;
    forall x: nat | x < m ensures UntakenAt(g, c, x, it) {
      var y := if x <= q then x + m else x;
      assert r(i + y).b == At(c, y) && k < i + y <= t;
      AtShift(c, x, 1);
    }
    RunCarries(g, r, k, t, it);
    var v := Blocks(r, k, t);
    assert v[|v| - 1] == r(i + (q + m)).b == At(c, q + m);
    AtIsIn(c, q + m);
  }

  lemma AtShift(c: seq<nat>, x: int, k: int)
    requires c != []
    ensures At(c, x + |c| * k) == At(c, x)
  {
    ModShift(x, |c|, k);
  }

  lemma AtIsIn(c: seq<nat>, x: int)
    requires c != []
    ensures At(c, x) in c
  {
  }

  lemma RaisedIsFlag(code: seq<Instr>, it: Item)
    requires RaisesOut(code, it)
    ensures it.AFlag?
  {
  }

  /** Predicates along a run are none or at least 0. */
  lemma {:induction false} RunFits(g: Graph, r: nat -> Call, t: nat)
    requires WellFormed(g) && Run(g, r) && r(0) == FirstCall(g, r(0).b)
    ensures Normal(r(t).np) >= -1
    decreases t
  {
    hide Handed;
    if t > 0 {
      RunFits(g, r, t - 1);
      var x := r(t - 1);
      assert Recurs(g, x, r(t - 1 + 1));
      HandedPredicate(g.base[x.b], Normal(x.np), x.nf);
    }
  }

  /** If calls go deeper than the bound, there is a leaking ring. */
  lemma DeepLeaks(g: Graph, b: nat) returns (c: seq<nat>)
    requires WellFormed(g) && SoundCommits(g) && b < |g.base| && Calls(g, FirstCall(g, b), Bound(g)).Deeper?
    ensures Leaks(g, c)
  {
    hide Calls, Ring, RaisedRound, BroughtIn, Chain, SoundCommits;
    var s := DeepRun(g, FirstCall(g, b), Bound(g));
    var i, j := LongChainRepeats(g, s);
    c := RingOf(s, i, j);
    RingOfIsRing(g, s, i, j);
    var r := (n: nat) => Lasso(s, i, j, n);
    forall n: nat ensures r(n).b < |g.base| && Recurs(g, r(n), r(n + 1)) { LassoRecurs(g, s, i, j, n); }
    forall x: nat ensures r(i + x).b == At(c, x) { LassoAt(s, i, j, i + x); }
    forall q: nat | q < |c| ensures RaisedRound(g, c, q) || exists it :: BroughtIn(g, c, it) {
      RunLeaksAt(g, r, i, c, q);
    }
  }

  // ---------- a leaking ring never ends ----------

  /** A call the pass may make: what is pending is wanted of its block. */
  ghost predicate Fit(g: Graph, x: Call)
    requires WellFormed(g)
  {
    x.b < |g.base| && CanPend(Normal(x.np)) &&
    forall d :: Pending(d, Normal(x.np), x.nf) ==> Wanted(g, x.b, |g.base[x.b]|, d)
  }

  lemma FirstIsFit(g: Graph, b: nat)
    requires WellFormed(g) && b < |g.base| && g.predicates[b] < 256
    ensures Fit(g, FirstCall(g, b))
  {
    OwnPredicateIsWanted(g, b);
  }

  /** An abort gives a condition to an operation that lacks flags of it. */
  lemma {:induction false} AbortIsStuck(code: seq<Instr>, i: nat, np0: int, nf0: FlagMask, np: int, nf: FlagMask)
    requires i <= |code| && CanPend(np0) && (np == np0 || np == -1)
    requires np == np0 && 0 <= np0 < AL ==> ClearIn(code, i, |code|, OfCondition(np0))
    requires Handed(code[..i], np, nf).Aborts?
    ensures exists j: nat :: Stuck(code, j, np0, nf0)
    decreases i
  {
    hide Needed;
    if i > 0 {
      HandedStep(code, i, np, nf);
      var next := Passed(code[i - 1], np, nf);
      if next.Aborts? {
        var d := OfCondition(np0);
        assert Needed(code, i, np0, nf0, d) by { EnteringIsNeeded(code, i, np0, nf0, d); }
        assert Stuck(code, i - 1, np0, nf0);
      } else {
        AbortIsStuck(code, i - 1, np0, nf0, next.np, next.nf);
      }
    }
  }

  lemma EnteringIsNeeded(code: seq<Instr>, i: nat, np0: int, nf0: FlagMask, d: Demand)
    requires i <= |code| && ClearIn(code, i, |code|, d) && Pending(d, np0, nf0)
    ensures Needed(code, i, np0, nf0, d)
  {
    assert Live(code, np0, nf0, |code|, d);
  }

  /** So a call that may be made does not abort, unless the pass fails. */
  lemma FitDoesNotAbort(g: Graph, x: Call)
    requires Good(g) && !Fails(g) && Fit(g, x)
    ensures !Handed(g.base[x.b], Normal(x.np), x.nf).Aborts?
  {
    hide Wanted, Fails, Stuck, Good;
    GoodParts(g);
    var code, np0 := g.base[x.b], Normal(x.np);
    HandedEnds(code, np0, x.nf);
    if Handed(code, np0, x.nf).Aborts? {
      AbortIsStuck(code, |code|, np0, x.nf, np0, x.nf);
      var j: nat :| Stuck(code, j, np0, x.nf);
      StuckFails(g, x.b, j, np0, x.nf);
      assert false;
    }
  }

  /** What is handed up is needed. */
  lemma HandedIsNeeded(code: seq<Instr>, np0: int, nf0: FlagMask, d: Demand)
    requires SoundCode(code) && !Handed(code, np0, nf0).Aborts?
    requires var left := Handed(code, np0, nf0); Pending(d, left.np, left.nf)
    ensures Needed(code, 0, np0, nf0, d)
  {
    hide Handed, SoundCode;
    var it := if d.OfFlag? then AFlag(d.f) else APredicate(d.cc);
    HandedHolds(code, np0, nf0, it);
    if RaisesOut(code, it) {
      var m :| 0 <= m < |code| && Raises(code[m], it) && Untaken(code[..m], it);
      forall k | 0 <= k < m ensures !Produces(code[k], d) { assert !Takes(code[..m][k], it); }
      assert Live(code, np0, nf0, m, d) && ClearIn(code, 0, m, d);
    } else {
      forall k | 0 <= k < |code| ensures !Produces(code[k], d) { assert !Takes(code[k], it); }
      EnteringIsNeeded(code, 0, np0, nf0, d);
    }
  }

  lemma RecursFit(g: Graph, x: Call, y: Call)
    requires Good(g) && Fit(g, x) && Recurs(g, x, y)
    ensures Fit(g, y)
  {
    hide Wanted, Handed, Needed, Good;
    GoodParts(g);
    GrowsSelf(g);
    var code, np0 := g.base[x.b], Normal(x.np);
    var left := Handed(code, np0, x.nf);
    HandedPredicate(code, np0, x.nf);
    forall d | Pending(d, left.np, left.nf) ensures Needed(code, 0, np0, x.nf, d) {
      HandedIsNeeded(code, np0, x.nf, d);
    }
    assert Edge(g, y.b, x.b);
    PendingIsWanted(g, g, x.b, y.b, np0, x.nf, left.np, left.nf);
  }

  /** Unless the pass fails, no call aborts however deep. */
  lemma {:induction false} NoneStops(g: Graph, x: Call, n: nat)
    requires Good(g) && !Fails(g) && Fit(g, x)
    ensures !Calls(g, x, n).Stops?
    decreases n, |g.predecessors[x.b]| + 1
  {
    hide Fails, Fit, Handed, Good;
    GoodParts(g);
    assert x.b < |g.base| by { FitInRange(g, x); }
    FitDoesNotAbort(g, x);
    var left := Handed(g.base[x.b], Normal(x.np), x.nf);
    CallStarts(g, x, n);
    if left.np != -1 || left.nf != PH_NONE { NoneStopsFrom(g, x, 0, n); }
  }

  lemma FitInRange(g: Graph, x: Call)
    requires WellFormed(g) && Fit(g, x)
    ensures x.b < |g.base|
  {
  }

  lemma {:induction false} NoneStopsFrom(g: Graph, x: Call, k: nat, n: nat)
    requires Good(g) && !Fails(g) && Fit(g, x) && k <= |g.predecessors[x.b]|
    requires var left := Handed(g.base[x.b], Normal(x.np), x.nf); !left.Aborts? && (left.np != -1 || left.nf != PH_NONE)
    ensures var left := Handed(g.base[x.b], Normal(x.np), x.nf); !CallsFrom(g, x.b, left.np, left.nf, k, n).Stops?
    decreases n, |g.predecessors[x.b]| - k
  {
    hide Fails, Fit, Handed, Good, Calls;
    GoodParts(g);
    assert x.b < |g.base| by { FitInRange(g, x); }
    var left := Handed(g.base[x.b], Normal(x.np), x.nf);
    if k < |g.predecessors[x.b]| {
      NoneStopsFrom(g, x, k + 1, n);
      var p := g.predecessors[x.b][k];
      if p != x.b && n > 0 {
        RecursFit(g, x, Call(p, left.np, left.nf));
        NoneStops(g, Call(p, left.np, left.nf), n - 1);
      }
    }
  }

  /** A call goes too deep if one that it makes does. */
  lemma DeepMakesDeep(g: Graph, x: Call, y: Call, n: nat)
    requires Good(g) && !Fails(g) && Fit(g, x) && Recurs(g, x, y) && (n > 0 ==> Calls(g, y, n - 1).Deeper?)
    ensures Calls(g, x, n).Deeper?
  {
    hide Fails, Fit, Handed, Good, CallsFrom;
    GoodParts(g);
    CallStarts(g, x, n);
    var j :| 0 <= j < |g.predecessors[x.b]| && g.predecessors[x.b][j] == y.b;
    DeepMakesDeepFrom(g, x, y, 0, j, n);
  }

  lemma {:induction false} DeepMakesDeepFrom(g: Graph, x: Call, y: Call, k: nat, j: nat, n: nat)
    requires Good(g) && !Fails(g) && Fit(g, x) && Recurs(g, x, y) && (n > 0 ==> Calls(g, y, n - 1).Deeper?)
    requires k <= j < |g.predecessors[x.b]| && g.predecessors[x.b][j] == y.b
    ensures CallsFrom(g, x.b, y.np, y.nf, k, n).Deeper?
    decreases j - k
  {
    hide Fails, Fit, Handed, Good, Calls;
    GoodParts(g);
    CallsOn(g, x.b, y.np, y.nf, k, n);
    if k < j {
      DeepMakesDeepFrom(g, x, y, k + 1, j, n);
      var p := g.predecessors[x.b][k];
      if p != x.b && n > 0 {
        var z := Call(p, y.np, y.nf);
        RecursFit(g, x, z);
        NoneStops(g, z, n - 1);
      }
    }
  }

  /** The next call, at a predecessor. */
  lemma NextCall(g: Graph, x: Call, p: nat, it: Item) returns (y: Call)
    requires WellFormed(g) && x.b < |g.base| && Back(g, x.b, p) && TopHolds(g, x, it)
    ensures Recurs(g, x, y) && y.b == p && Holds(Normal(y.np), y.nf, it)
  {
    var left := Handed(g.base[x.b], Normal(x.np), x.nf);
    ItemIsSomething(left.np, left.nf, it);
    y := Call(p, left.np, left.nf);
    NormalOfHanded(g, x, y);
  }

  lemma StillHolds(g: Graph, y: Call, it: Item)
    requires Good(g) && !Fails(g) && Fit(g, y) && Holds(Normal(y.np), y.nf, it) && Untaken(g.base[y.b], it)
    ensures TopHolds(g, y, it)
  {
    hide Fails, Handed, Good, Wanted;
    GoodParts(g);
    FitDoesNotAbort(g, y);
    HandedHolds(g.base[y.b], Normal(y.np), y.nf, it);
  }

  /** Something that no block of the ring serves goes round for ever. */
  lemma {:induction false} RoundAndRound(g: Graph, c: seq<nat>, q: nat, x: Call, it: Item, n: nat)
    requires Good(g) && !Fails(g) && Fit(g, x) && Ring(g, c) && x.b == At(c, q)
    requires (forall i: nat :: i < |c| ==> UntakenAt(g, c, i, it)) && TopHolds(g, x, it)
    ensures Calls(g, x, n).Deeper?
    decreases n
  {
    hide Fails, Handed, Good, Calls, Untaken, Fit, Holds, At, Recurs, TopHolds;
    GoodParts(g);
    RingBlock(g, c, q);
    RingBlock(g, c, q + 1);
    var y := NextCall(g, x, At(c, q + 1), it);
    RecursFit(g, x, y);
    if n > 0 {
      AtMod(c, q + 1);
      assert UntakenAt(g, c, (q + 1) % |c|, it);
      StillHolds(g, y, it);
      RoundAndRound(g, c, q + 1, y, it, n - 1);
    }
    DeepMakesDeep(g, x, y, n);
  }

  lemma AtMod(c: seq<nat>, i: int)
    requires c != []
    ensures At(c, i % |c|) == At(c, i)
  {
    ModIs(i % |c|, |c|, 0, i % |c|);
  }

  /** So does what is brought in. */
  lemma {:induction false} CarriedOn(g: Graph, c: seq<nat>, v: seq<nat>, k: nat, x: Call, it: Item, n: nat)
    requires Good(g) && !Fails(g) && Fit(g, x) && Ring(g, c) && forall i: nat :: i < |c| ==> UntakenAt(g, c, i, it)
    requires Carried(g, v, it) && v[|v| - 1] in c && k < |v| && x.b == v[k] && TopHolds(g, x, it)
    ensures Calls(g, x, n).Deeper?
    decreases n
  {
    hide Fails, Handed, Good, Calls, Untaken, Fit, Holds, At, Recurs, TopHolds, Starts, Ring;
    GoodParts(g);
    if k == |v| - 1 {
      var q :| 0 <= q < |c| && c[q] == x.b;
      assert At(c, q) == c[q] by { AtIs(c, q); }
      RoundAndRound(g, c, q, x, it, n);
    } else {
      assert Back(g, v[k], v[k + 1]);
      var y := NextCall(g, x, v[k + 1], it);
      RecursFit(g, x, y);
      if n > 0 {
        StillHolds(g, y, it);
        CarriedOn(g, c, v, k + 1, y, it, n - 1);
      }
      DeepMakesDeep(g, x, y, n);
    }
  }

  lemma AtIs(c: seq<nat>, q: nat)
    requires q < |c|
    ensures At(c, q) == c[q]
  {
  }

  /** Every block of the ring from the `j`th on has something pending that was raised at the `j`th or later. */
  ghost predicate Covered(g: Graph, c: seq<nat>, j: int)
    requires WellFormed(g) && Ring(g, c)
  {
    forall k: nat :: CoveredAt(g, c, j, k)
  }

  ghost predicate CoveredAt(g: Graph, c: seq<nat>, j: int, k: nat)
    requires WellFormed(g) && Ring(g, c)
  {
    RaisedIn(g, c, j + k, k)
  }

  /** No more than `k` blocks before. */
  ghost predicate RaisedIn(g: Graph, c: seq<nat>, i: int, k: nat)
    requires WellFormed(g) && Ring(g, c)
  {
    exists f, d: nat :: d <= k && RaisedBack(g, c, i, f, d)
  }

  lemma RaisedShift(g: Graph, c: seq<nat>, i: int, turns: int, f: Flag, d: nat)
    requires WellFormed(g) && Ring(g, c) && RaisedBack(g, c, i, f, d)
    ensures RaisedBack(g, c, i + |c| * turns, f, d)
  {
    hide Ring, RaisesOut, Untaken, At;
    RingBlock(g, c, i);
    var full := |c| * turns;
    AtShift(c, i - d, turns);
    assert i + full - d == i - d + full;
    forall x | i + full - d < x <= i + full ensures UntakenAt(g, c, x, AFlag(f)) {
      AtShift(c, x - full, turns);
      assert UntakenAt(g, c, x - full, AFlag(f)) && x - full + full == x;
    }
  }

  lemma RaisedAnyRound(g: Graph, c: seq<nat>, i: int) returns (f: Flag, d: nat)
    requires WellFormed(g) && Ring(g, c) && forall q: nat :: q < |c| ==> RaisedRound(g, c, q)
    ensures d < |c| && RaisedBack(g, c, i, f, d)
  {
    hide Ring, RaisedBack;
    RingBlock(g, c, i);
    var q: nat := i % |c|;
    assert RaisedRound(g, c, q);
    f, d :| d < |c| && RaisedBack(g, c, q, f, d);
    RaisedShift(g, c, q, i / |c|, f, d);
    assert i == q + |c| * (i / |c|);
  }

  /** What is raised at the start of an arc is pending all along it. */
  lemma ArcCovers(g: Graph, c: seq<nat>, i: int, f: Flag, d: nat, k: nat)
    requires WellFormed(g) && Ring(g, c) && RaisedBack(g, c, i, f, d) && k <= d
    ensures CoveredAt(g, c, i - d, k)
  {
    hide Ring, RaisesOut, UntakenAt;
    assert i - d + k - k == i - d;
    assert RaisedBack(g, c, i - d + k, f, k);
  }

  /** Starting at the block that raises what would be missing, one gets further each time. */
  lemma {:induction false} FindStart(g: Graph, c: seq<nat>, j: int, k: nat) returns (s: int)
    requires WellFormed(g) && Ring(g, c) && forall q: nat :: q < |c| ==> RaisedRound(g, c, q)
    requires k <= |c| && forall i: nat :: i < k ==> CoveredAt(g, c, j, i)
    ensures Covered(g, c, s)
    decreases |c| - k
  {
    hide Ring, RaisedBack, RaisedRound;
    if k == |c| {
      s := j;
      forall i: nat ensures CoveredAt(g, c, j, i) {
        if i >= k {
          var f, d := RaisedAnyRound(g, c, j + i);
          assert RaisedIn(g, c, j + i, i);
        }
      }
    } else {
      var f, d := RaisedAnyRound(g, c, j + k);
      if d <= k {
        assert RaisedIn(g, c, j + k, k);
        s := FindStart(g, c, j, k + 1);
      } else {
        var start := j + k - d;
        forall i: nat | i <= d ensures CoveredAt(g, c, start, i) { ArcCovers(g, c, j + k, f, d, i); }
        s := FindStart(g, c, start, d + 1);
      }
    }
  }

  /** The calls round the ring, from the first call of its `j`th block. */
  function RingCall(g: Graph, c: seq<nat>, j: int, k: nat): (x: Call)
    requires WellFormed(g) && Ring(g, c)
    ensures x.b == At(c, j + k) < |g.base|
    decreases k
  {
    RingBlock(g, c, j + k);
    if k == 0 then FirstCall(g, At(c, j))
    else
      var x := RingCall(g, c, j, k - 1);
      var left := Handed(g.base[x.b], Normal(x.np), x.nf);
      if left.Aborts? then Call(At(c, j + k), -1, PH_NONE) else Call(At(c, j + k), left.np, left.nf)
  }

  lemma RingCallNext(g: Graph, c: seq<nat>, j: int, k: nat, it: Item)
    requires WellFormed(g) && Ring(g, c) && TopHolds(g, RingCall(g, c, j, k), it)
    ensures Recurs(g, RingCall(g, c, j, k), RingCall(g, c, j, k + 1))
    ensures var y := RingCall(g, c, j, k + 1); Holds(Normal(y.np), y.nf, it)
  {
    hide Handed, Ring, Holds, At;
    RingBlock(g, c, j + k);
    var y := NextCall(g, RingCall(g, c, j, k), At(c, j + (k + 1)), it);
    assert y == RingCall(g, c, j, k + 1);
  }

  /** What an arc raises is pending at the tops of the calls along it. */
  lemma {:induction false} ArcHolds(g: Graph, c: seq<nat>, j: int, k: nat, f: Flag, d: nat)
    requires Good(g) && !Fails(g) && Ring(g, c) && d <= k && RaisedBack(g, c, j + k, f, d)
    requires forall i: nat :: i <= k ==> Fit(g, RingCall(g, c, j, i))
    ensures TopHolds(g, RingCall(g, c, j, k), AFlag(f))
    decreases d
  {
    hide Fails, Handed, Good, Fit, Holds, At, RaisesOut, Untaken, RingCall, Ring;
    GoodParts(g);
    var x, it := RingCall(g, c, j, k), AFlag(f);
    assert Fit(g, x);
    if d == 0 {
      RaisedHolds(g, x, it);
    } else {
      assert RaisedBack(g, c, j + (k - 1), f, d - 1) by { assert j + k - d == j + (k - 1) - (d - 1); }
      ArcHolds(g, c, j, k - 1, f, d - 1);
      RingCallNext(g, c, j, k - 1, it);
      assert UntakenAt(g, c, j + k, it);
      StillHolds(g, x, it);
    }
  }

  lemma RaisedHolds(g: Graph, x: Call, it: Item)
    requires Good(g) && !Fails(g) && Fit(g, x) && RaisesOut(g.base[x.b], it)
    ensures TopHolds(g, x, it)
  {
    hide Fails, Handed, Good, Wanted, Holds, RaisesOut, Untaken;
    GoodParts(g);
    FitDoesNotAbort(g, x);
    HandedHolds(g.base[x.b], Normal(x.np), x.nf, it);
  }

  lemma {:induction false} RingFits(g: Graph, c: seq<nat>, j: int, k: nat)
    requires Good(g) && !Fails(g) && (forall b :: 0 <= b < |g.base| ==> g.predicates[b] < 256)
    requires Ring(g, c) && Covered(g, c, j)
    ensures forall i: nat :: i <= k ==> Fit(g, RingCall(g, c, j, i))
    ensures exists it :: TopHolds(g, RingCall(g, c, j, k), it)
    decreases k
  {
    hide Fails, Handed, Good, Fit, Holds, At, RaisedBack, Ring, TopHolds, Recurs;
    GoodParts(g);
    if k == 0 {
      RingBlock(g, c, j + 0);
      assert RingCall(g, c, j, 0) == FirstCall(g, At(c, j + 0));
      FirstIsFit(g, At(c, j + 0));
    } else {
      RingFits(g, c, j, k - 1);
      var it :| TopHolds(g, RingCall(g, c, j, k - 1), it);
      RingCallNext(g, c, j, k - 1, it);
      RecursFit(g, RingCall(g, c, j, k - 1), RingCall(g, c, j, k));
    }
    assert CoveredAt(g, c, j, k) && RaisedIn(g, c, j + k, k);
    var f, d: nat :| d <= k && RaisedBack(g, c, j + k, f, d);
    ArcHolds(g, c, j, k, f, d);
  }

  /** From there the recursion goes round for ever. */
  lemma {:induction false} RingGoesOn(g: Graph, c: seq<nat>, j: int, k: nat, n: nat)
    requires Good(g) && !Fails(g) && (forall b :: 0 <= b < |g.base| ==> g.predicates[b] < 256)
    requires Ring(g, c) && Covered(g, c, j)
    ensures Calls(g, RingCall(g, c, j, k), n).Deeper?
    decreases n
  {
    hide Fails, Handed, Good, Fit, Holds, At, Covered, Ring, TopHolds, Recurs, RingCall, Calls;
    GoodParts(g);
    RingFits(g, c, j, k);
    var it :| TopHolds(g, RingCall(g, c, j, k), it);
    RingCallNext(g, c, j, k, it);
    if n > 0 { RingGoesOn(g, c, j, k + 1, n - 1); }
    DeepMakesDeep(g, RingCall(g, c, j, k), RingCall(g, c, j, k + 1), n);
  }

  /** A block of the leaking ring, or where what it keeps is raised, from which the recursion never ends. */
  lemma LeaksGoesOn(g: Graph, c: seq<nat>) returns (b: nat)
    requires Good(g) && !Fails(g) && (forall b :: 0 <= b < |g.base| ==> g.predicates[b] < 256) && Leaks(g, c)
    ensures b < |g.base| && forall n :: Calls(g, FirstCall(g, b), n).Deeper?
  {
    hide Fails, Handed, Good, Fit, Holds, At, Ring, Calls, Covered, RaisedRound;
    GoodParts(g);
    if it :| BroughtIn(g, c, it) {
      var v :| Carried(g, v, it) && v[|v| - 1] in c;
      b := v[0];
      FirstIsFit(g, b);
      StartHolds(g, b, it);
      forall n ensures Calls(g, FirstCall(g, b), n).Deeper? {
        CarriedOn(g, c, v, 0, FirstCall(g, b), it, n);
      }
    } else {
      var j := FindStart(g, c, 0, 0);
      RingBlock(g, c, j + 0);
      b := At(c, j + 0);
      assert RingCall(g, c, j, 0) == FirstCall(g, b);
      forall n ensures Calls(g, FirstCall(g, b), n).Deeper? {
        RingGoesOn(g, c, j, 0, n);
      }
    }
  }

  lemma StartHolds(g: Graph, b: nat, it: Item)
    requires Good(g) && !Fails(g) && b < |g.base| && Fit(g, FirstCall(g, b)) && Starts(g, b, it)
    ensures TopHolds(g, FirstCall(g, b), it)
  {
    hide Fails, Handed, Good, Wanted, RaisesOut, Untaken;
    GoodParts(g);
    var x := FirstCall(g, b);
    FitDoesNotAbort(g, x);
    HandedHolds(g.base[b], Normal(x.np), x.nf, it);
  }

  // ---------- the whole pass ----------

  lemma {:induction false} PassDeep(g: Graph, a: nat, b: nat, n: nat)
    requires Good(g) && !Fails(g) && (forall b :: 0 <= b < |g.base| ==> g.predicates[b] < 256)
    requires a <= b < |g.base| && Calls(g, FirstCall(g, b), n).Deeper?
    ensures PassFrom(g, a, n).Deeper?
    decreases b - a
  {
    hide Fails, Good, Calls, Fit;
    GoodParts(g);
    if a < b {
      PassDeep(g, a + 1, b, n);
      FirstIsFit(g, a);
      NoneStops(g, FirstCall(g, a), n);
    }
  }

  lemma {:induction false} PassDeepCall(g: Graph, a: nat, n: nat) returns (b: nat)
    requires WellFormed(g) && a <= |g.base| && PassFrom(g, a, n).Deeper?
    ensures b < |g.base| && Calls(g, FirstCall(g, b), n).Deeper?
    decreases |g.base| - a
  {
    if Calls(g, FirstCall(g, a), n).Deeper? {
      b := a;
    } else {
      b := PassDeepCall(g, a + 1, n);
    }
  }

  /** On every graph without a leaking ring the pass ends, by return or abort, no deeper than the bound. */
  lemma LeaklessEnds(g: Graph)
    requires WellFormed(g) && SoundCommits(g) && forall c :: !Leaks(g, c)
    ensures !PassFrom(g, 0, Bound(g)).Deeper?
  {
    hide Calls, Leaks, SoundCommits;
    if PassFrom(g, 0, Bound(g)).Deeper? {
      var b := PassDeepCall(g, 0, Bound(g));
      var c := DeepLeaks(g, b);
      assert false;
    }
  }

  /** Unless the pass fails, it ends exactly when no ring of blocks leaks. */
  lemma PassEndsExactly(g: Graph)
    requires Good(g) && !Fails(g) && forall b :: 0 <= b < |g.base| ==> g.predicates[b] < 256
    ensures (exists n: nat :: !PassFrom(g, 0, n).Deeper?) <==> forall c :: !Leaks(g, c)
  {
    hide Good, Fails, Leaks, PassFrom, SoundCommits;
    GoodParts(g);
    if forall c :: !Leaks(g, c) {
      LeaklessEnds(g);
    } else {
      var c :| Leaks(g, c);
      var b := LeaksGoesOn(g, c);
      forall n: nat ensures PassFrom(g, 0, n).Deeper? { PassDeep(g, 0, b, n); }
    }
  }

  // ---------- the bound is exact on every graph ----------

  /** More depth changes no call that had enough. */
  lemma {:induction false} MoreDepth(g: Graph, x: Call, n: nat, m: nat)
    requires WellFormed(g) && x.b < |g.base| && n <= m && !Calls(g, x, n).Deeper?
    ensures Calls(g, x, m) == Calls(g, x, n)
    decreases n, |g.predecessors[x.b]| + 1
  {
    hide Handed;
    var left := Handed(g.base[x.b], Normal(x.np), x.nf);
    if !left.Aborts? && (left.np != -1 || left.nf != PH_NONE) { MoreDepthFrom(g, x.b, left.np, left.nf, 0, n, m); }
  }

  lemma {:induction false} MoreDepthFrom(g: Graph, b: nat, np: int, nf: FlagMask, k: nat, n: nat, m: nat)
    requires WellFormed(g) && b < |g.base| && k <= |g.predecessors[b]| && n <= m && !CallsFrom(g, b, np, nf, k, n).Deeper?
    ensures CallsFrom(g, b, np, nf, k, m) == CallsFrom(g, b, np, nf, k, n)
    decreases n, |g.predecessors[b]| - k
  {
    hide Calls;
    if k < |g.predecessors[b]| {
      var p := g.predecessors[b][k];
      if p == b {
        MoreDepthFrom(g, b, np, nf, k + 1, n, m);
      } else {
        MoreDepth(g, Call(p, np, nf), n - 1, m - 1);
        if Calls(g, Call(p, np, nf), n - 1).Returns? { MoreDepthFrom(g, b, np, nf, k + 1, n, m); }
      }
    }
  }

  /** The depth a call needs. */
  predicate Needs(g: Graph, x: Call, d: nat)
    requires WellFormed(g) && x.b < |g.base|
  {
    !Calls(g, x, d).Deeper? && (d > 0 ==> Calls(g, x, d - 1).Deeper?)
  }

  lemma OneNeed(g: Graph, x: Call, d: nat, e: nat)
    requires WellFormed(g) && x.b < |g.base| && Needs(g, x, d) && Needs(g, x, e)
    ensures d == e
  {
    hide Calls;
    if d < e { MoreDepth(g, x, d, e - 1); } else if e < d { MoreDepth(g, x, e, d - 1); }
  }

  /** A call that needs some depth makes one that needs one less. */
  lemma {:induction false} NeedyCall(g: Graph, b: nat, np: int, nf: FlagMask, k: nat, d: nat) returns (j: nat)
    requires WellFormed(g) && b < |g.base| && k <= |g.predecessors[b]| && d > 0
    requires CallsFrom(g, b, np, nf, k, d - 1).Deeper? && !CallsFrom(g, b, np, nf, k, d).Deeper?
    ensures j < |g.predecessors[b]| && g.predecessors[b][j] != b && Needs(g, Call(g.predecessors[b][j], np, nf), d - 1)
    decreases |g.predecessors[b]| - k
  {
    hide Calls;
    CallsOn(g, b, np, nf, k, d);
    CallsOn(g, b, np, nf, k, d - 1);
    var p := g.predecessors[b][k];
    if p == b {
      j := NeedyCall(g, b, np, nf, k + 1, d);
    } else {
      var y := Call(p, np, nf);
      if d == 1 || Calls(g, y, d - 2).Deeper? {
        j := k;
      } else {
        MoreDepth(g, y, d - 2, d - 1);
        j := NeedyCall(g, b, np, nf, k + 1, d);
      }
    }
  }

  lemma {:induction false} NeedyChain(g: Graph, x: Call, d: nat) returns (s: seq<Call>)
    requires WellFormed(g) && x.b < |g.base| && Needs(g, x, d)
    ensures |s| == d + 1 && s[0] == x && Chain(g, s)
    ensures forall k :: 0 <= k < |s| ==> s[k].b < |g.base| && Needs(g, s[k], d - k)
    decreases d
  {
    hide Handed, CallsFrom, Needs;
    if d == 0 {
      s := [x];
    } else {
      var left := Handed(g.base[x.b], Normal(x.np), x.nf);
      NeedsFrom(g, x, d);
      var j := NeedyCall(g, x.b, left.np, left.nf, 0, d);
      var y := Call(g.predecessors[x.b][j], left.np, left.nf);
      assert Recurs(g, x, y);
      var rest := NeedyChain(g, y, d - 1);
      s := [x] + rest;
      forall i | 0 <= i < |s| - 1 ensures Recurs(g, s[i], s[i + 1]) {
        if i > 0 { assert s[i] == rest[i - 1] && s[i + 1] == rest[i]; }
      }
      forall k | 0 <= k < |s| ensures s[k].b < |g.base| && Needs(g, s[k], d - k) {
        if k > 0 { assert s[k] == rest[k - 1] && d - 1 - (k - 1) == d - k; }
      }
    }
  }

  lemma NeedsFrom(g: Graph, x: Call, d: nat)
    requires WellFormed(g) && x.b < |g.base| && Needs(g, x, d) && d > 0
    ensures var left := Handed(g.base[x.b], Normal(x.np), x.nf);
            && !left.Aborts? && (left.np != -1 || left.nf != PH_NONE)
            && CallsFrom(g, x.b, left.np, left.nf, 0, d - 1).Deeper? && !CallsFrom(g, x.b, left.np, left.nf, 0, d).Deeper?
  {
    hide Handed;
  }

  /** No call that ends needs more depth than there are different calls. */
  lemma CallEndsSoon(g: Graph, x: Call, n: nat)
    requires WellFormed(g) && x.b < |g.base| && !Calls(g, x, n).Deeper?
    ensures !Calls(g, x, Bound(g)).Deeper?
  {
    hide Calls, Chain;
    if n <= Bound(g) {
      MoreDepth(g, x, n, Bound(g));
    } else if Calls(g, x, Bound(g)).Deeper? {
      var d := FirstEnough(g, x, Bound(g), n);
      var s := NeedyChain(g, x, d);
      var i, j := LongChainRepeats(g, s);
      OneNeed(g, s[i], d - i, d - j);
      assert false;
    }
  }

  lemma {:induction false} FirstEnough(g: Graph, x: Call, low: nat, high: nat) returns (d: nat)
    requires WellFormed(g) && x.b < |g.base| && low < high && Calls(g, x, low).Deeper? && !Calls(g, x, high).Deeper?
    ensures low < d <= high && Needs(g, x, d)
    decreases high - low
  {
    hide Calls;
    if Calls(g, x, low + 1).Deeper? { d := FirstEnough(g, x, low + 1, high); } else { d := low + 1; }
  }

  lemma {:induction false} PassEndsSoon(g: Graph, b: nat, n: nat)
    requires WellFormed(g) && b <= |g.base| && !PassFrom(g, b, n).Deeper?
    ensures !PassFrom(g, b, Bound(g)).Deeper?
    decreases |g.base| - b
  {
    hide Calls;
    if b < |g.base| {
      var x, m := FirstCall(g, b), Bound(g);
      CallEndsSoon(g, x, n);
      if n <= m { MoreDepth(g, x, n, m); } else { MoreDepth(g, x, m, n); }
      if Calls(g, x, n).Returns? { PassEndsSoon(g, b + 1, n); }
    }
  }

  /** On every graph at all: if the pass ends, in a return or an abort, it is never deeper than the bound. */
  lemma EndsWithinBoundExactly(g: Graph)
    requires WellFormed(g)
    ensures (exists n: nat :: !PassFrom(g, 0, n).Deeper?) <==> !PassFrom(g, 0, Bound(g)).Deeper?
  {
    hide PassFrom;
    if n: nat :| !PassFrom(g, 0, n).Deeper? { PassEndsSoon(g, 0, n); }
  }

  // ---------- graphs without such cycles, and with ----------

  /** `rank` witnesses that the graph has no cycle but blocks that branch to themselves. */
  ghost predicate Ranked(g: Graph, rank: seq<nat>)
    requires WellFormed(g)
  {
    && |rank| == |g.base|
    && forall b, k :: 0 <= b < |g.base| && 0 <= k < |g.predecessors[b]|
         ==> g.predecessors[b][k] == b || rank[g.predecessors[b][k]] < rank[b]
  }

  lemma {:induction false} RankFalls(g: Graph, rank: seq<nat>, c: seq<nat>, i: nat)
    requires WellFormed(g) && Ranked(g, rank) && Ring(g, c)
    ensures At(c, 0) < |g.base| && At(c, i) < |g.base| && rank[At(c, i)] + i <= rank[At(c, 0)]
    decreases i
  {
    hide At;
    RingBlock(g, c, 0);
    RingBlock(g, c, i);
    if i > 0 {
      RankFalls(g, rank, c, i - 1);
      RingBlock(g, c, i - 1);
      assert Back(g, At(c, i - 1), At(c, i - 1 + 1));
    }
  }

  /** Without a cycle but self-loops there is no ring, so the pass ends. */
  lemma RankedEnds(g: Graph, rank: seq<nat>)
    requires WellFormed(g) && SoundCommits(g) && Ranked(g, rank)
    ensures (forall c :: !Leaks(g, c)) && !PassFrom(g, 0, Bound(g)).Deeper?
  {
    hide PassFrom;
    forall c ensures !Leaks(g, c) {
      if Ring(g, c) {
        RankFalls(g, rank, c, |c|);
        AtShift(c, 0, 1);
        assert false;
      }
    }
    LeaklessEnds(g);
  }

  /** Two blocks that branch to each other, one of which needs the carry that neither produces. */
  const PAIR := Graph([[FEnsure(PH_C)], []], [AL, AL], [[1], [0]])

  /** On them the pass does not end: the block tag that is handed on is never looked at. */
  lemma PairNeverEnds(n: nat)
    ensures WellFormed(PAIR) && Leaks(PAIR, [0, 1]) && PassFrom(PAIR, 0, n).Deeper?
  {
    PairLeaks();
    PairGoesOn(0, AL, PH_NONE, n);
  }

  lemma PairLeaks()
    ensures WellFormed(PAIR) && Leaks(PAIR, [0, 1])
  {
    var c := [0, 1];
    var it := AFlag(FlagC);
    assert BackAt(PAIR, c, 0) && BackAt(PAIR, c, 1);
    assert Ring(PAIR, c);
    var code := PAIR.base[0];
    assert Raises(code[0], it) && Untaken(code[..0], it);
    assert Carried(PAIR, [0], it);
    forall i: nat | i < |c| ensures UntakenAt(PAIR, c, i, it) {}
    assert [0][|[0]| - 1] in c;
    assert BroughtIn(PAIR, c, it);
  }

  lemma {:induction false} PairGoesOn(b: nat, np: int, nf: FlagMask, n: nat)
    requires b < 2 && (np == AL || np == -1) && (nf == PH_C || (nf == PH_NONE && b == 0))
    ensures WellFormed(PAIR) && Calls(PAIR, Call(b, np, nf), n).Deeper?
    decreases n
  {
    var code := PAIR.base[b];
    assert code == [] || code[..0] == [];
    assert Handed(code, -1, nf) == Pended(-1, PH_C);
    CallStarts(PAIR, Call(b, np, nf), n);
    CallsOn(PAIR, b, -1, PH_C, 0, n);
    if n > 0 { PairGoesOn(1 - b, -1, PH_C, n - 1); }
  }

  /** The same two after a block whose condition its operation does not decide: the abort comes first. */
  const STOPPED := Graph([[FCommit(PH_C, PH_NONE, {})], [FEnsure(PH_C)], []], [0, AL, AL], [[], [2], [1]])

  lemma AbortComesFirst()
    ensures WellFormed(STOPPED) && PassFrom(STOPPED, 0, 0).Stops? && Leaks(STOPPED, [1, 2])
  {
    var code := STOPPED.base[0];
    assert Passed(code[0], 0, PH_NONE).Aborts?;
    assert Handed(code, 0, PH_NONE).Aborts?;
    var c := [1, 2];
    var it := AFlag(FlagC);
    assert BackAt(STOPPED, c, 0) && BackAt(STOPPED, c, 1);
    assert Ring(STOPPED, c);
    var raising := STOPPED.base[1];
    assert Raises(raising[0], it) && Untaken(raising[..0], it);
    assert Carried(STOPPED, [1], it);
    forall i: nat | i < |c| ensures UntakenAt(STOPPED, c, i, it) {}
    assert [1][|[1]| - 1] in c;
    assert BroughtIn(STOPPED, c, it);
  }
}
