/**
 The backward flag-demand pass (pheta_fixup_flags, dynarec/pheta.c).  Each FCOMMIT is
 told which flags, and which condition results, must really be stored.  If the pass ends and
 does not abort, it has found exactly the demanded ones.
 */
module FlagDemand {
  import opened Ph2

  datatype Flag = FlagN | FlagZ | FlagC | FlagV

  predicate Has(m: FlagMask, f: Flag) {
    match f
    case FlagN => m.n
    case FlagZ => m.z
    case FlagC => m.c
    case FlagV => m.v
  }

  function Union(a: FlagMask, b: FlagMask): FlagMask {
    Mask(a.n || b.n, a.z || b.z, a.c || b.c, a.v || b.v)
  }

  function Common(a: FlagMask, b: FlagMask): FlagMask {
    Mask(a.n && b.n, a.z && b.z, a.c && b.c, a.v && b.v)
  }

  function Without(a: FlagMask, b: FlagMask): FlagMask {
    Mask(a.n && !b.n, a.z && !b.z, a.c && !b.c, a.v && !b.v)
  }

  predicate Within(a: FlagMask, b: FlagMask) {
    Common(a, b) == a
  }

  // ---------- conditions ----------

  const AL := 14
  const NV := 15

  /** The flags each ARM condition depends on. */
  function CcFlags(cc: nat): FlagMask
    requires cc < 16
  {
    if cc < 2 then Mask(false, true, false, false)
    else if cc < 4 then Mask(false, false, true, false)
    else if cc < 6 then Mask(true, false, false, false)
    else if cc < 8 then Mask(false, false, false, true)
    else if cc < 10 then Mask(false, true, true, false)
    else if cc < 12 then Mask(true, false, false, true)
    else if cc < 14 then Mask(true, true, false, true)
    else PH_NONE
  }

  /** An ARM condition that really tests flags; other predicates demand nothing here. */
  predicate TestsFlags(predicate_: nat) {
    predicate_ < AL
  }

  // ---------- demands ----------

  /** What a block can demand of the FCOMMITs before it: a flag, or a condition's result. */
  datatype Demand = OfFlag(f: Flag) | OfCondition(cc: nat)

  /** An FCOMMIT that produces what is demanded. */
  predicate Produces(i: Instr, d: Demand) {
    i.FCommit? && (d.OfFlag? ==> Has(i.have, d.f))
  }

  predicate Stores(i: Instr, d: Demand) {
    i.FCommit? && if d.OfFlag? then Has(i.need, d.f) else d.cc in i.pred
  }

  /** FENSURE names the flags it needs; SYNC needs them all. */
  predicate Requires(i: Instr, d: Demand) {
    d.OfFlag? && (i.Sync? || (i.FEnsure? && Has(i.mask, d.f)))
  }

  // ---------- the graph ----------

  /** Blocks by number: code, closing predicate and the list of predecessors. */
  datatype Graph = Graph(base: seq<seq<Instr>>, predicates: seq<nat>, predecessors: seq<seq<nat>>)

  ghost predicate WellFormed(g: Graph) {
    && |g.predicates| == |g.base| == |g.predecessors|
    && forall b, k :: 0 <= b < |g.base| && 0 <= k < |g.predecessors[b]| ==> g.predecessors[b][k] < |g.base|
  }

  ghost predicate Edge(g: Graph, p: nat, b: nat)
    requires WellFormed(g)
  {
    b < |g.base| && p < |g.base| && p in g.predecessors[b]
  }

  /** FCOMMITs store only what they have, and only conditions they can compute. */
  ghost predicate SoundCommit(i: Instr) {
    i.FCommit? ==>
      && Within(i.need, i.have)
      && forall cc :: cc in i.pred ==> cc < 16 && Within(CcFlags(cc), i.have)
  }

  ghost predicate SoundCommits(g: Graph) {
    forall b, k :: 0 <= b < |g.base| && 0 <= k < |g.base[b]| ==> SoundCommit(g.base[b][k])
  }

  // ---------- what it means for a demand to be met ----------

  /** Going back from position `i` of block `b`, on every way with no step from a block to itself the last producer stores `d`. */
  greatest predicate Met[nat](g: Graph, b: nat, i: nat, d: Demand)
    requires WellFormed(g)
    requires b < |g.base| && i <= |g.base[b]|
  {
    if i > 0 then
      if Produces(g.base[b][i - 1], d) then Stores(g.base[b][i - 1], d) else Met(g, b, i - 1, d)
    else
      forall p: nat :: Edge(g, p, b) && p != b ==> Met(g, p, |g.base[p]|, d)
  }

  /** Demands raised at position `i` of block `b`. */
  ghost predicate RaisedAt(g: Graph, b: nat, i: nat, d: Demand)
    requires WellFormed(g) && b < |g.base| && i <= |g.base[b]|
  {
    || (i < |g.base[b]| && Requires(g.base[b][i], d))
    || (i == |g.base[b]| && d.OfCondition? && TestsFlags(d.cc) && g.predicates[b] == d.cc)
  }

  ghost predicate AllMet(g: Graph)
    requires WellFormed(g)
  {
    forall b, i, d :: 0 <= b < |g.base| && 0 <= i <= |g.base[b]| && RaisedAt(g, b, i, d)
      ==> Met(g, b, i, d)
  }

  // ---------- what it means for a demand to be wanted ----------

  /** Going forward from position `i`, some way with no such step raises `d` before an FCOMMIT produces it again. */
  least predicate Wanted[nat](g: Graph, b: nat, i: nat, d: Demand)
    requires WellFormed(g)
    requires b < |g.base| && i <= |g.base[b]|
  {
    || RaisedAt(g, b, i, d)
    || (if i < |g.base[b]|
        then !Produces(g.base[b][i], d) && Wanted(g, b, i + 1, d)
        else exists s: nat :: Edge(g, b, s) && s != b && Wanted(g, s, 0, d))
  }

  // ---------- the pass changes nothing but need and pred, and these only grow ----------

  ghost predicate InstrGrows(i: Instr, j: Instr) {
    if i.FCommit? then j.FCommit? && j.have == i.have && Within(i.need, j.need) && i.pred <= j.pred
    else j == i
  }

  ghost predicate CodeGrows(a: seq<Instr>, b: seq<Instr>) {
    |a| == |b| && forall k :: 0 <= k < |a| ==> InstrGrows(a[k], b[k])
  }

  ghost predicate Grows(g: Graph, h: Graph) {
    && |g.base| == |h.base| && g.predicates == h.predicates && g.predecessors == h.predecessors
    && forall b :: 0 <= b < |g.base| ==> CodeGrows(g.base[b], h.base[b])
  }

  lemma GrowsTransitive(g: Graph, h: Graph, k: Graph)
    requires Grows(g, h) && Grows(h, k)
    ensures Grows(g, k)
  {
    forall b | 0 <= b < |g.base| ensures CodeGrows(g.base[b], k.base[b]) {
      assert CodeGrows(g.base[b], h.base[b]) && CodeGrows(h.base[b], k.base[b]);
      forall n | 0 <= n < |g.base[b]| ensures InstrGrows(g.base[b][n], k.base[b][n]) {
        assert InstrGrows(g.base[b][n], h.base[b][n]) && InstrGrows(h.base[b][n], k.base[b][n]);
      }
    }
  }

  lemma GrowsSelf(g: Graph)
    ensures Grows(g, g)
  {
  }

  /** Storing more never breaks a demand that is met. */
  lemma MetGrows(g: Graph, h: Graph, b: nat, i: nat, d: Demand)
    requires WellFormed(g) && Grows(g, h) && WellFormed(h)
    requires b < |g.base| && i <= |g.base[b]| && Met(g, b, i, d)
    ensures i <= |h.base[b]| && Met(h, b, i, d)
  {
    assert CodeGrows(g.base[b], h.base[b]);
    forall k: nat ensures Met#[k](h, b, i, d) {
      MetGrowsWithin(g, h, k, b, i, d);
    }
  }

  lemma {:induction false} MetGrowsWithin(g: Graph, h: Graph, k: nat, b: nat, i: nat, d: Demand)
    requires WellFormed(g) && Grows(g, h) && WellFormed(h)
    requires b < |g.base| && i <= |g.base[b]| && Met(g, b, i, d)
    ensures i <= |h.base[b]| && Met#[k](h, b, i, d)
    decreases k
  {
    assert CodeGrows(g.base[b], h.base[b]);
    if k > 0 {
      if i > 0 {
        assert InstrGrows(g.base[b][i - 1], h.base[b][i - 1]);
        if !Produces(g.base[b][i - 1], d) {
          MetGrowsWithin(g, h, k - 1, b, i - 1, d);
        }
      } else {
        forall p: nat | Edge(h, p, b) && p != b ensures Met#[k - 1](h, p, |h.base[p]|, d) {
          assert Edge(g, p, b);
          assert CodeGrows(g.base[p], h.base[p]);
          MetGrowsWithin(g, h, k - 1, p, |g.base[p]|, d);
        }
      }
    }
  }

  /** The same code but for what is stored. */
  ghost predicate SameDemands(g: Graph, h: Graph) {
    && |g.base| == |h.base| && g.predicates == h.predicates && g.predecessors == h.predecessors
    && forall b :: 0 <= b < |g.base| ==> SameRoles(g.base[b], h.base[b])
  }

  ghost predicate SameRoles(a: seq<Instr>, b: seq<Instr>) {
    && |a| == |b|
    && forall k, d :: 0 <= k < |a| ==> Produces(a[k], d) == Produces(b[k], d) && Requires(a[k], d) == Requires(b[k], d)
  }

  lemma GrowsSameDemands(g: Graph, h: Graph)
    requires Grows(g, h)
    ensures SameDemands(g, h)
  {
    forall b | 0 <= b < |g.base| ensures SameRoles(g.base[b], h.base[b]) {
      assert CodeGrows(g.base[b], h.base[b]);
      forall k, d | 0 <= k < |g.base[b]|
        ensures Produces(g.base[b][k], d) == Produces(h.base[b][k], d)
        ensures Requires(g.base[b][k], d) == Requires(h.base[b][k], d)
      {
        assert InstrGrows(g.base[b][k], h.base[b][k]);
      }
    }
  }

  lemma {:induction false} WantedWithin(g: Graph, h: Graph, k: nat, b: nat, i: nat, d: Demand)
    requires WellFormed(g) && WellFormed(h) && SameDemands(g, h)
    requires b < |g.base| && i <= |g.base[b]| && Wanted#[k](g, b, i, d)
    ensures i <= |h.base[b]| && Wanted(h, b, i, d)
    decreases k
  {
    assert SameRoles(g.base[b], h.base[b]);
    if k > 0 && !RaisedAt(g, b, i, d) {
      if i < |g.base[b]| {
        WantedWithin(g, h, k - 1, b, i + 1, d);
      } else {
        var s: nat :| Edge(g, b, s) && s != b && Wanted#[k - 1](g, s, 0, d);
        WantedWithin(g, h, k - 1, s, 0, d);
        assert Edge(h, b, s);
      }
    }
  }

  /** Demand depends only on what the pass leaves alone. */
  lemma WantedSame(g: Graph, h: Graph, b: nat, i: nat, d: Demand)
    requires WellFormed(g) && Grows(g, h) && WellFormed(h)
    requires b < |g.base| && i <= |g.base[b]| && i <= |h.base[b]|
    ensures Wanted(g, b, i, d) == Wanted(h, b, i, d)
  {
    GrowsSameDemands(g, h);
    if Wanted(g, b, i, d) {
      var k: nat :| Wanted#[k](g, b, i, d);
      WantedWithin(g, h, k, b, i, d);
    }
    if Wanted(h, b, i, d) {
      var k: nat :| Wanted#[k](h, b, i, d);
      WantedWithin(h, g, k, b, i, d);
    }
  }

  // ---------- scanning one block ----------

  /** The predicate still to be satisfied: AL, NV and "no predicate" demand nothing. */
  function Normal(predicate_: int): int {
    if predicate_ == AL || predicate_ == NV || predicate_ == 255 then -1 else predicate_
  }

  /** AL (14), NV (15) and 255, which stands for no predicate, and these only. */
  lemma NormalExactly(predicate_: nat)
    ensures Normal(predicate_) == -1 <==> predicate_ == 14 || predicate_ == 15 || predicate_ == 255
    ensures Normal(predicate_) != -1 ==> Normal(predicate_) == predicate_
  {
  }

  predicate Pending(d: Demand, needpred: int, needflag: FlagMask) {
    match d
    case OfFlag(f) => Has(needflag, f)
    case OfCondition(cc) => TestsFlags(cc) && needpred == cc
  }

  /** Predicates that can be pending: none, a condition that tests flags, or a native one. */
  predicate CanPend(np: int) {
    np == -1 || 0 <= np < AL || 16 <= np
  }

  /** A demand a scan must serve: handed in at the end, or raised inside. */
  ghost predicate Live(code: seq<Instr>, needpred: int, needflag: FlagMask, m: nat, d: Demand) {
    || (m == |code| && Pending(d, needpred, needflag))
    || (m < |code| && Requires(code[m], d))
  }

  ghost predicate ClearIn(code: seq<Instr>, i: nat, m: nat, d: Demand)
    requires m <= |code|
  {
    forall k :: i <= k < m ==> !Produces(code[k], d)
  }

  /** The last producer between `i` and `m` stores `d`. */
  ghost predicate ServedIn(code: seq<Instr>, i: nat, m: nat, d: Demand)
    requires m <= |code|
  {
    exists j :: i <= j < m && Produces(code[j], d) && Stores(code[j], d) && ClearIn(code, j + 1, m, d)
  }

  ghost predicate SoundCode(code: seq<Instr>) {
    forall k :: 0 <= k < |code| ==> SoundCommit(code[k])
  }

  /** What a scan down to `i` has achieved. */
  ghost predicate Scanned(code: seq<Instr>, out: seq<Instr>, i: nat, np0: int, nf0: FlagMask, np: int, nf: FlagMask) {
    && |out| == |code| && i <= |code|
    && forall m, d :: i <= m <= |code| && Live(code, np0, nf0, m, d)
         ==> ServedIn(out, i, m, d) || (ClearIn(out, i, m, d) && Pending(d, np, nf))
  }

  /** Nothing is pending or newly stored without a live demand behind it. */
  ghost predicate Needed(code: seq<Instr>, i: nat, np0: int, nf0: FlagMask, d: Demand) {
    exists m :: i <= m <= |code| && Live(code, np0, nf0, m, d) && ClearIn(code, i, m, d)
  }

  ghost predicate OnlyNeeded(code: seq<Instr>, out: seq<Instr>, i: nat, np0: int, nf0: FlagMask, np: int, nf: FlagMask) {
    && |out| == |code| && i <= |code|
    && (forall d :: Pending(d, np, nf) ==> Needed(code, i, np0, nf0, d))
    && (forall j, d :: i <= j < |code| && Produces(out[j], d) && Stores(out[j], d)
         ==> Stores(code[j], d) || Needed(code, j + 1, np0, nf0, d))
  }

  /** The FCOMMIT case of the scan. */
  function ServeCommit(i: Instr, np: int, nf: FlagMask): (j: Instr)
    requires i.FCommit?
  {
    var need := Union(i.need, Common(nf, i.have));
    i.(need := need, pred := if 0 <= np < 16 then i.pred + {np} else i.pred)
  }

  lemma ServeCommitSound(i: Instr, np: int, nf: FlagMask)
    requires i.FCommit? && SoundCommit(i)
    requires 0 <= np < 16 ==> Within(CcFlags(np), i.have)
    ensures SoundCommit(ServeCommit(i, np, nf)) && InstrGrows(i, ServeCommit(i, np, nf))
    ensures Within(ServeCommit(i, np, nf).need, i.have)
  {
  }

  /** One step of the scan over an FCOMMIT keeps what has been achieved. */
  lemma CommitStep(code: seq<Instr>, out: seq<Instr>, i: nat, np0: int, nf0: FlagMask, np: int, nf: FlagMask)
    requires 0 < i && Scanned(code, out, i, np0, nf0, np, nf) && OnlyNeeded(code, out, i, np0, nf0, np, nf)
    requires out[i - 1] == code[i - 1] && code[i - 1].FCommit? && SoundCommit(code[i - 1])
    requires forall k :: 0 <= k < |code| ==> InstrGrows(code[k], out[k])
    requires CanPend(np)
    ensures var c := ServeCommit(out[i - 1], np, nf);
            var np' := if 0 <= np < 16 then -1 else np;
            var nf' := Without(nf, c.need);
            && Scanned(code, out[i - 1 := c], i - 1, np0, nf0, np', nf')
            && OnlyNeeded(code, out[i - 1 := c], i - 1, np0, nf0, np', nf')
  {
    var c := ServeCommit(out[i - 1], np, nf);
    var np' := if 0 <= np < 16 then -1 else np;
    var nf' := Without(nf, c.need);
    var next := out[i - 1 := c];
    forall m, d | i - 1 <= m <= |code| && Live(code, np0, nf0, m, d)
      ensures ServedIn(next, i - 1, m, d) || (ClearIn(next, i - 1, m, d) && Pending(d, np', nf'))
    {
      CommitStepServes(code, out, i, np0, nf0, np, nf, m, d);
    }
    forall d | Pending(d, np', nf') ensures Needed(code, i - 1, np0, nf0, d) {
      assert Pending(d, np, nf);
      NeededBack(code, i, np0, nf0, d);
    }
    forall j, d | i - 1 <= j < |code| && Produces(next[j], d) && Stores(next[j], d)
      ensures Stores(code[j], d) || Needed(code, j + 1, np0, nf0, d)
    {
      if j == i - 1 && !Stores(code[j], d) {
        assert Pending(d, np, nf);
      }
    }
  }

  lemma NeededBack(code: seq<Instr>, i: nat, np0: int, nf0: FlagMask, d: Demand)
    requires 0 < i <= |code| && Needed(code, i, np0, nf0, d) && !Produces(code[i - 1], d)
    ensures Needed(code, i - 1, np0, nf0, d)
  {
    var m :| i <= m <= |code| && Live(code, np0, nf0, m, d) && ClearIn(code, i, m, d);
    assert ClearIn(code, i - 1, m, d);
  }

  lemma CommitStepServes(code: seq<Instr>, out: seq<Instr>, i: nat, np0: int, nf0: FlagMask, np: int, nf: FlagMask,
                         m: nat, d: Demand)
    requires 0 < i && Scanned(code, out, i, np0, nf0, np, nf)
    requires out[i - 1] == code[i - 1] && code[i - 1].FCommit? && SoundCommit(code[i - 1])
    requires forall k :: 0 <= k < |code| ==> InstrGrows(code[k], out[k])
    requires i - 1 <= m <= |code| && Live(code, np0, nf0, m, d)
    ensures var c := ServeCommit(out[i - 1], np, nf);
            var next := out[i - 1 := c];
            || ServedIn(next, i - 1, m, d)
            || (ClearIn(next, i - 1, m, d)
                && Pending(d, if 0 <= np < 16 then -1 else np, Without(nf, c.need)))
  {
    var c := ServeCommit(out[i - 1], np, nf);
    var next := out[i - 1 := c];
    assert m >= i;
    if ServedIn(out, i, m, d) {
      var j :| i <= j < m && Produces(out[j], d) && Stores(out[j], d) && ClearIn(out, j + 1, m, d);
      assert next[j] == out[j] && ClearIn(next, j + 1, m, d);
    } else {
      assert ClearIn(out, i, m, d) && Pending(d, np, nf);
      assert ClearIn(next, i, m, d);
      if Produces(c, d) {
        assert Stores(c, d);
        assert Produces(next[i - 1], d) && Stores(next[i - 1], d);
      } else {
        assert ClearIn(next, i - 1, m, d);
      }
    }
  }

  /** Any other instruction can only raise demands (or satisfy a native predicate). */
  lemma RaiseStep(code: seq<Instr>, out: seq<Instr>, i: nat, np0: int, nf0: FlagMask, np: int, nf: FlagMask,
                  np': int, nf': FlagMask)
    requires 0 < i && Scanned(code, out, i, np0, nf0, np, nf) && OnlyNeeded(code, out, i, np0, nf0, np, nf)
    requires out[i - 1] == code[i - 1] && !code[i - 1].FCommit?
    requires forall f :: Has(nf', f) == (Has(nf, f) || Requires(code[i - 1], OfFlag(f)))
    requires np' == np || (np >= 16 && np' == -1)
    ensures Scanned(code, out, i - 1, np0, nf0, np', nf') && OnlyNeeded(code, out, i - 1, np0, nf0, np', nf')
  {
    forall m, d | i - 1 <= m <= |code| && Live(code, np0, nf0, m, d)
      ensures ServedIn(out, i - 1, m, d) || (ClearIn(out, i - 1, m, d) && Pending(d, np', nf'))
    {
      if m >= i && !ServedIn(out, i, m, d) {
        assert ClearIn(out, i, m, d) && Pending(d, np, nf);
      }
    }
    forall d | Pending(d, np', nf') ensures Needed(code, i - 1, np0, nf0, d) {
      if Pending(d, np, nf) {
        NeededBack(code, i, np0, nf0, d);
      } else {
        assert Live(code, np0, nf0, i - 1, d) && ClearIn(code, i - 1, i - 1, d);
      }
    }
  }

  lemma ScanStart(code: seq<Instr>, np0: int, nf0: FlagMask)
    ensures Scanned(code, code, |code|, np0, nf0, np0, nf0)
    ensures OnlyNeeded(code, code, |code|, np0, nf0, np0, nf0)
  {
    forall d | Pending(d, np0, nf0) ensures Needed(code, |code|, np0, nf0, d) {
      assert Live(code, np0, nf0, |code|, d) && ClearIn(code, |code|, |code|, d);
    }
  }

  /** What a scan of the code leaves pending at its top, or nothing if it aborts. */
  datatype Pended = Aborts | Pended(np: int, nf: FlagMask)

  /** One instruction's part in it. */
  function Passed(i: Instr, np: int, nf: FlagMask): Pended {
    match i
    case Sync => Pended(np, PH_ALL)
    case FCommit(have, need, _) =>
      if 0 <= np < 16 && !Within(CcFlags(np), have) then Aborts
      else Pended(if 0 <= np < 16 then -1 else np, Without(nf, Union(need, Common(nf, have))))
    case NFCommit(_, _) => Pended(if np >= 16 then -1 else np, nf)
    case FEnsure(mask) => Pended(np, Union(nf, mask))
    case _ => Pended(np, nf)
  }

  function Handed(code: seq<Instr>, np: int, nf: FlagMask): Pended {
    if code == [] then Pended(np, nf)
    else
      var next := Passed(code[|code| - 1], np, nf);
      if next.Aborts? then Aborts else Handed(code[..|code| - 1], next.np, next.nf)
  }

  lemma HandedStep(code: seq<Instr>, i: nat, np: int, nf: FlagMask)
    requires 0 < i <= |code|
    ensures var next := Passed(code[i - 1], np, nf);
            Handed(code[..i], np, nf) == if next.Aborts? then Aborts else Handed(code[..i - 1], next.np, next.nf)
  {
    hide Passed;
    assert code[..i][..i - 1] == code[..i - 1];
  }

  lemma HandedEnds(code: seq<Instr>, np: int, nf: FlagMask)
    ensures Handed(code[..0], np, nf) == Pended(np, nf) && Handed(code[..|code|], np, nf) == Handed(code, np, nf)
  {
    assert code[..|code|] == code;
  }

  /** The FCOMMIT at `i` is to give the result of a condition that its operation's flags do not decide. */
  ghost predicate Stuck(code: seq<Instr>, i: nat, np0: int, nf0: FlagMask) {
    && i < |code| && code[i].FCommit? && 0 <= np0 < AL && !Within(CcFlags(np0), code[i].have)
    && Needed(code, i + 1, np0, nf0, OfCondition(np0))
  }

  lemma PendingIsStuck(code: seq<Instr>, out: seq<Instr>, i: nat, np0: int, nf0: FlagMask, np: int, nf: FlagMask)
    requires 0 < i && OnlyNeeded(code, out, i, np0, nf0, np, nf) && np == np0 && CanPend(np)
    requires 0 <= np < 16 && code[i - 1].FCommit? && !Within(CcFlags(np), code[i - 1].have)
    ensures Stuck(code, i - 1, np0, nf0)
  {
    assert Pending(OfCondition(np), np, nf);
  }

  /** One instruction of the backward scan; `ok` is false if it aborts. */
  method ScanInstr(code: seq<Instr>, i: nat, was: seq<Instr>, np0: int, nf0: FlagMask, np1: int, nf1: FlagMask)
    returns (ok: bool, out: seq<Instr>, np: int, nf: FlagMask)
    requires 0 < i <= |code| && SoundCode(code) && SoundCode(was) && CanPend(np1)
    requires CodeGrows(code, was) && was[..i] == code[..i] && (np1 == np0 || np1 == -1)
    requires Scanned(code, was, i, np0, nf0, np1, nf1) && OnlyNeeded(code, was, i, np0, nf0, np1, nf1)
    ensures ok ==> Scanned(code, out, i - 1, np0, nf0, np, nf) && OnlyNeeded(code, out, i - 1, np0, nf0, np, nf)
    ensures CodeGrows(code, out) && SoundCode(out) && out[..i - 1] == code[..i - 1]
    ensures np == np1 || np == -1
    ensures Passed(code[i - 1], np1, nf1) == if ok then Pended(np, nf) else Aborts
    ensures !ok ==> out == was && Stuck(code, i - 1, np0, nf0)
  {
    hide Scanned, OnlyNeeded, Requires, Needed, Stuck;
    ok, out, np, nf := true, was, np1, nf1;
    var instr := out[i - 1];
    assert instr == code[i - 1] by { assert out[i - 1] == out[..i][i - 1] && code[i - 1] == code[..i][i - 1]; }
    assert out[..i - 1] == was[..i][..i - 1] == code[..i][..i - 1] == code[..i - 1];
    match instr {
      case Sync =>
        nf := PH_ALL;
        RaisesAll(nf1, instr);
        RaiseStep(code, out, i, np0, nf0, np1, nf1, np, nf);
      case FCommit(have, need, pred) =>
        if 0 <= np < 16 && !Within(CcFlags(np), have) {
          PendingIsStuck(code, out, i, np0, nf0, np, nf);
          ok := false;
          return;
        }
        var c := ServeCommit(instr, np, nf);
        ServeCommitSound(instr, np, nf);
        nf := Without(nf, c.need);
        np := if 0 <= np < 16 then -1 else np;
        CommitStep(code, out, i, np0, nf0, np1, nf1);
        out := out[i - 1 := c];
        assert out[..i - 1] == was[..i - 1];
      case NFCommit(_, _) =>
        if np >= 16 {
          np := -1;
        }
        RaisesNothing(nf1, instr);
        RaiseStep(code, out, i, np0, nf0, np1, nf1, np, nf);
      case FEnsure(mask) =>
        nf := Union(nf, mask);
        RaisesMask(nf1, instr);
        RaiseStep(code, out, i, np0, nf0, np1, nf1, np, nf);
      case _ =>
        RaisesNothing(nf1, instr);
        RaiseStep(code, out, i, np0, nf0, np1, nf1, np, nf);
    }
  }

  /** The backward loop of pheta_fixup_flags_inner over one block; `ok` is false if it aborts. */
  method ScanBlock(code: seq<Instr>, np0: int, nf0: FlagMask)
    returns (ok: bool, out: seq<Instr>, np: int, nf: FlagMask)
    requires SoundCode(code) && CanPend(np0)
    ensures CodeGrows(code, out) && SoundCode(out)
    ensures ok ==> Scanned(code, out, 0, np0, nf0, np, nf) && OnlyNeeded(code, out, 0, np0, nf0, np, nf)
    ensures ok ==> np == np0 || np == -1
    ensures !ok ==> exists i: nat :: Stuck(code, i, np0, nf0)
    ensures Handed(code, np0, nf0) == if ok then Pended(np, nf) else Aborts
    ensures forall j, d :: 0 <= j < |code| && Produces(out[j], d) && Stores(out[j], d)
              ==> Stores(code[j], d) || Needed(code, j + 1, np0, nf0, d)
  {
    hide Scanned, OnlyNeeded, Needed, Stuck, Handed, Passed, SoundCode;
    ok, out, np, nf := true, code, np0, nf0;
    ScanStart(code, np0, nf0);
    HandedEnds(code, np0, nf0);
    var i: nat := |code|;
    while i > 0
      invariant i <= |code| && ok
      invariant Scanned(code, out, i, np0, nf0, np, nf) && OnlyNeeded(code, out, i, np0, nf0, np, nf)
      invariant CodeGrows(code, out) && SoundCode(out) && out[..i] == code[..i]
      invariant np == np0 || np == -1
      invariant Handed(code[..i], np, nf) == Handed(code, np0, nf0)
    {
      HandedStep(code, i, np, nf);
      OnlyNeededStores(code, out, i, np0, nf0, np, nf);
      ok, out, np, nf := ScanInstr(code, i, out, np0, nf0, np, nf);
      if !ok {
        return;
      }
      i := i - 1;
    }
    OnlyNeededStores(code, out, 0, np0, nf0, np, nf);
    HandedEnds(code, np, nf);
  }

  lemma OnlyNeededStores(code: seq<Instr>, out: seq<Instr>, i: nat, np0: int, nf0: FlagMask, np: int, nf: FlagMask)
    requires OnlyNeeded(code, out, i, np0, nf0, np, nf) && out[..i] == code[..i]
    ensures forall j, d :: 0 <= j < |code| && Produces(out[j], d) && Stores(out[j], d)
              ==> Stores(code[j], d) || Needed(code, j + 1, np0, nf0, d)
  {
    forall j | 0 <= j < i ensures out[j] == code[j] {
      assert out[j] == out[..i][j] && code[j] == code[..i][j];
    }
  }

  lemma RaisesAll(nf: FlagMask, i: Instr)
    requires i.Sync?
    ensures forall f :: Has(PH_ALL, f) == (Has(nf, f) || Requires(i, OfFlag(f)))
  {
  }

  lemma RaisesMask(nf: FlagMask, i: Instr)
    requires i.FEnsure?
    ensures forall f :: Has(Union(nf, i.mask), f) == (Has(nf, f) || Requires(i, OfFlag(f)))
  {
  }

  lemma RaisesNothing(nf: FlagMask, i: Instr)
    requires !i.Sync? && !i.FEnsure?
    ensures forall f :: Has(nf, f) == (Has(nf, f) || Requires(i, OfFlag(f)))
  {
  }

  // ---------- from one block to the graph ----------

  lemma {:induction false} ServedIsMet(g: Graph, b: nat, m: nat, j: nat, d: Demand)
    requires WellFormed(g) && b < |g.base| && j < m <= |g.base[b]|
    requires Produces(g.base[b][j], d) && Stores(g.base[b][j], d) && ClearIn(g.base[b], j + 1, m, d)
    ensures Met(g, b, m, d)
    decreases m
  {
    if j + 1 < m {
      assert !Produces(g.base[b][m - 1], d);
      ServedIsMet(g, b, m - 1, j, d);
    }
  }

  lemma {:induction false} ClearIsMet(g: Graph, b: nat, m: nat, d: Demand)
    requires WellFormed(g) && b < |g.base| && m <= |g.base[b]|
    requires ClearIn(g.base[b], 0, m, d)
    requires forall p: nat :: Edge(g, p, b) && p != b ==> Met(g, p, |g.base[p]|, d)
    ensures Met(g, b, m, d)
    decreases m
  {
    if m > 0 {
      ClearIsMet(g, b, m - 1, d);
    }
  }

  lemma {:induction false} ClearIsWanted(g: Graph, b: nat, i: nat, m: nat, d: Demand)
    requires WellFormed(g)
    requires b < |g.base| && i <= m <= |g.base[b]|
    requires ClearIn(g.base[b], i, m, d) && Wanted(g, b, m, d)
    ensures Wanted(g, b, i, d)
    decreases m - i
  {
    if i < m {
      ClearIsWanted(g, b, i + 1, m, d);
    }
  }

  /** What a scan of block `b` found needed is wanted in the graph. */
  lemma NeededIsWanted(g: Graph, b: nat, i: nat, np0: int, nf0: FlagMask, d: Demand)
    requires WellFormed(g)
    requires b < |g.base| && i <= |g.base[b]| && Needed(g.base[b], i, np0, nf0, d)
    requires forall e :: Pending(e, np0, nf0) ==> Wanted(g, b, |g.base[b]|, e)
    ensures Wanted(g, b, i, d)
  {
    var m :| i <= m <= |g.base[b]| && Live(g.base[b], np0, nf0, m, d) && ClearIn(g.base[b], i, m, d);
    assert Wanted(g, b, m, d);
    ClearIsWanted(g, b, i, m, d);
  }

  /** Every stored flag or condition is wanted by something downstream. */
  ghost predicate Justified(g: Graph)
    requires WellFormed(g)
  {
    forall b, j, d :: 0 <= b < |g.base| && 0 <= j < |g.base[b]| && Produces(g.base[b][j], d) && Stores(g.base[b][j], d)
      ==> Wanted(g, b, j + 1, d)
  }

  ghost predicate Good(g: Graph) {
    && WellFormed(g)
    && SoundCommits(g) && Justified(g)
  }

  // ---------- when the pass aborts ----------

  /** Condition `cc` is wanted after the FCOMMIT at `j` of block `b`, whose operation lacks flags of it. */
  ghost predicate FailsAt(g: Graph, b: nat, j: nat, cc: nat)
    requires WellFormed(g)
  {
    && b < |g.base| && j < |g.base[b]| && g.base[b][j].FCommit? && cc < AL
    && !Within(CcFlags(cc), g.base[b][j].have) && Wanted(g, b, j + 1, OfCondition(cc))
  }

  ghost predicate Fails(g: Graph)
    requires WellFormed(g)
  {
    exists b: nat, j: nat, cc: nat :: FailsAt(g, b, j, cc)
  }

  lemma FailsSame(g: Graph, h: Graph)
    requires WellFormed(g) && Grows(g, h) && WellFormed(h)
    ensures Fails(g) <==> Fails(h)
  {
    hide Wanted;
    forall b: nat, j: nat, cc: nat ensures FailsAt(g, b, j, cc) <==> FailsAt(h, b, j, cc) {
      if b < |g.base| && j < |g.base[b]| {
        assert CodeGrows(g.base[b], h.base[b]) && InstrGrows(g.base[b][j], h.base[b][j]);
        WantedSame(g, h, b, j + 1, OfCondition(cc));
      }
    }
  }

  lemma StuckFails(g: Graph, b: nat, i: nat, np0: int, nf0: FlagMask)
    requires WellFormed(g) && b < |g.base| && Stuck(g.base[b], i, np0, nf0)
    requires forall e :: Pending(e, np0, nf0) ==> Wanted(g, b, |g.base[b]|, e)
    ensures Fails(g)
  {
    NeededIsWanted(g, b, i + 1, np0, nf0, OfCondition(np0));
    assert FailsAt(g, b, i, np0);
  }

  function Replace(g: Graph, b: nat, code: seq<Instr>): Graph
    requires b < |g.base|
  {
    g.(base := g.base[b := code])
  }

  /** Putting the scanned code back keeps the graph good. */
  lemma ScanKeepsGood(g: Graph, b: nat, out: seq<Instr>, np0: int, nf0: FlagMask)
    requires Good(g) && b < |g.base|
    requires CodeGrows(g.base[b], out) && SoundCode(out)
    requires forall e :: Pending(e, np0, nf0) ==> Wanted(g, b, |g.base[b]|, e)
    requires forall j, d :: 0 <= j < |g.base[b]| && Produces(out[j], d) && Stores(out[j], d)
               ==> Stores(g.base[b][j], d) || Needed(g.base[b], j + 1, np0, nf0, d)
    ensures Grows(g, Replace(g, b, out)) && Good(Replace(g, b, out))
  {
    var h := Replace(g, b, out);
    assert Grows(g, h);
    forall c, j, d | 0 <= c < |h.base| && 0 <= j < |h.base[c]|
        && Produces(h.base[c][j], d) && Stores(h.base[c][j], d)
      ensures Wanted(h, c, j + 1, d)
    {
      assert CodeGrows(g.base[c], h.base[c]);
      if c == b && !Stores(g.base[b][j], d) {
        NeededIsWanted(g, b, j + 1, np0, nf0, d);
      } else {
        assert InstrGrows(g.base[c][j], h.base[c][j]);
        assert Wanted(g, c, j + 1, d);
      }
      WantedSame(g, h, c, j + 1, d);
    }
  }

  /** What is still pending at the top of a block is wanted at the end of each predecessor. */
  lemma PendingGoesUp(g: Graph, b: nat, p: nat, np0: int, nf0: FlagMask, d: Demand)
    requires Good(g) && Edge(g, p, b) && p != b
    requires Needed(g.base[b], 0, np0, nf0, d)
    requires forall e :: Pending(e, np0, nf0) ==> Wanted(g, b, |g.base[b]|, e)
    ensures Wanted(g, p, |g.base[p]|, d)
  {
    NeededIsWanted(g, b, 0, np0, nf0, d);
  }

  /** All demands of block `b`, and those handed to it, are met. */
  ghost predicate BlockMet(g: Graph, b: nat, np0: int, nf0: FlagMask)
    requires WellFormed(g) && b < |g.base|
  {
    forall m, d :: 0 <= m <= |g.base[b]| && Live(g.base[b], np0, nf0, m, d) ==> Met(g, b, m, d)
  }

  /** The predecessors in the first `n` places have met what was handed up. */
  ghost predicate PredecessorsMet(g: Graph, b: nat, n: nat, np: int, nf: FlagMask)
    requires WellFormed(g) && b < |g.base| && n <= |g.predecessors[b]|
  {
    forall k, d :: 0 <= k < n && g.predecessors[b][k] != b && Pending(d, np, nf)
      ==> Met(g, g.predecessors[b][k], |g.base[g.predecessors[b][k]]|, d)
  }

  lemma PredecessorsMetGrows(g: Graph, h: Graph, b: nat, n: nat, np: int, nf: FlagMask)
    requires WellFormed(g) && WellFormed(h) && Grows(g, h)
    requires b < |g.base| && n <= |g.predecessors[b]| && PredecessorsMet(g, b, n, np, nf)
    ensures PredecessorsMet(h, b, n, np, nf)
  {
    forall k, d | 0 <= k < n && g.predecessors[b][k] != b && Pending(d, np, nf)
      ensures Met(h, h.predecessors[b][k], |h.base[h.predecessors[b][k]]|, d)
    {
      var p := g.predecessors[b][k];
      assert CodeGrows(g.base[p], h.base[p]);
      MetGrows(g, h, p, |g.base[p]|, d);
    }
  }

  lemma BlockMetGrows(g: Graph, h: Graph, b: nat, np0: int, nf0: FlagMask)
    requires WellFormed(g) && WellFormed(h) && Grows(g, h)
    requires b < |g.base| && BlockMet(g, b, np0, nf0)
    ensures BlockMet(h, b, np0, nf0)
  {
    assert CodeGrows(g.base[b], h.base[b]);
    forall m, d | 0 <= m <= |h.base[b]| && Live(h.base[b], np0, nf0, m, d) ensures Met(h, b, m, d) {
      if m < |h.base[b]| { assert InstrGrows(g.base[b][m], h.base[b][m]); }
      assert Live(g.base[b], np0, nf0, m, d);
      MetGrows(g, h, b, m, d);
    }
  }

  /** Once the scan and the predecessors are done, the block's demands are met. */
  lemma ScanAndPredecessors(g: Graph, code: seq<Instr>, out: seq<Instr>, h: Graph, b: nat,
                            np0: int, nf0: FlagMask, np: int, nf: FlagMask)
    requires WellFormed(g) && WellFormed(h) && Grows(g, h)
    requires b < |g.base| && g.base[b] == out && CodeGrows(code, out)
    requires Scanned(code, out, 0, np0, nf0, np, nf)
    requires PredecessorsMet(h, b, |h.predecessors[b]|, np, nf)
    ensures BlockMet(h, b, np0, nf0)
  {
    assert CodeGrows(out, h.base[b]);
    forall m, d | 0 <= m <= |h.base[b]| && Live(h.base[b], np0, nf0, m, d) ensures Met(h, b, m, d) {
      if m < |code| {
        assert InstrGrows(code[m], out[m]) && InstrGrows(out[m], h.base[b][m]);
      }
      assert Live(code, np0, nf0, m, d);
      if ServedIn(out, 0, m, d) {
        var j :| 0 <= j < m && Produces(out[j], d) && Stores(out[j], d) && ClearIn(out, j + 1, m, d);
        ServedIsMet(g, b, m, j, d);
        MetGrows(g, h, b, m, d);
      } else {
        assert ClearIn(out, 0, m, d) && Pending(d, np, nf);
        forall k | 0 <= k < m ensures !Produces(h.base[b][k], d) {
          assert InstrGrows(out[k], h.base[b][k]);
        }
        forall p: nat | Edge(h, p, b) && p != b ensures Met(h, p, |h.base[p]|, d) {
          var k :| 0 <= k < |h.predecessors[b]| && h.predecessors[b][k] == p;
        }
        ClearIsMet(h, b, m, d);
      }
    }
  }

  // ---------- the recursion ----------

  /** A call of pheta_fixup_flags_inner. */
  datatype Call = Call(b: nat, np: int, nf: FlagMask)

  /** The call returns, stops the program, or goes deeper than was allowed. */
  datatype Result = Returns | Stops | Deeper

  /** What becomes of the call `x` if calls may be `n` deep: an abort ends everything at once. */
  function Calls(g: Graph, x: Call, n: nat): Result
    requires WellFormed(g) && x.b < |g.base|
    decreases n, |g.predecessors[x.b]| + 1
  {
    var left := Handed(g.base[x.b], Normal(x.np), x.nf);
    if left.Aborts? then Stops
    else if left.np == -1 && left.nf == PH_NONE then Returns
    else CallsFrom(g, x.b, left.np, left.nf, 0, n)
  }

  /** The calls for the predecessors from the `k`th on. */
  function CallsFrom(g: Graph, b: nat, np: int, nf: FlagMask, k: nat, n: nat): Result
    requires WellFormed(g) && b < |g.base| && k <= |g.predecessors[b]|
    decreases n, |g.predecessors[b]| - k
  {
    if k == |g.predecessors[b]| then Returns
    else
      var p := g.predecessors[b][k];
      if p == b then CallsFrom(g, b, np, nf, k + 1, n)
      else if n == 0 then Deeper
      else
        var r := Calls(g, Call(p, np, nf), n - 1);
        if r.Returns? then CallsFrom(g, b, np, nf, k + 1, n) else r
  }

  function FirstCall(g: Graph, b: nat): Call
    requires b < |g.predicates|
  {
    Call(b, g.predicates[b], PH_NONE)
  }

  /** The whole pass, from block `b` on. */
  function PassFrom(g: Graph, b: nat, n: nat): Result
    requires WellFormed(g) && b <= |g.base|
    decreases |g.base| - b
  {
    if b == |g.base| then Returns
    else
      var r := Calls(g, FirstCall(g, b), n);
      if r.Returns? then PassFrom(g, b + 1, n) else r
  }

  lemma PassedSame(i: Instr, j: Instr, np: int, nf: FlagMask)
    requires InstrGrows(i, j) && SoundCommit(i) && SoundCommit(j)
    ensures Passed(i, np, nf) == Passed(j, np, nf)
  {
  }

  /** What is handed up does not depend on what is stored. */
  lemma {:induction false} HandedSame(a: seq<Instr>, b: seq<Instr>, np: int, nf: FlagMask)
    requires CodeGrows(a, b) && SoundCode(a) && SoundCode(b)
    ensures Handed(a, np, nf) == Handed(b, np, nf)
    decreases |a|
  {
    hide Passed;
    if a != [] {
      var n := |a| - 1;
      assert InstrGrows(a[n], b[n]);
      PassedSame(a[n], b[n], np, nf);
      var next := Passed(a[n], np, nf);
      if !next.Aborts? {
        assert CodeGrows(a[..n], b[..n]) by {
          forall k | 0 <= k < n ensures InstrGrows(a[..n][k], b[..n][k]) { assert InstrGrows(a[k], b[k]); }
        }
        HandedSame(a[..n], b[..n], next.np, next.nf);
      }
    }
  }

  lemma {:induction false} CallsSame(g: Graph, h: Graph, x: Call, n: nat)
    requires WellFormed(g) && WellFormed(h) && Grows(g, h) && SoundCommits(g) && SoundCommits(h) && x.b < |g.base|
    ensures Calls(g, x, n) == Calls(h, x, n)
    decreases n, |g.predecessors[x.b]| + 1
  {
    hide Handed;
    assert CodeGrows(g.base[x.b], h.base[x.b]);
    HandedSame(g.base[x.b], h.base[x.b], Normal(x.np), x.nf);
    var left := Handed(g.base[x.b], Normal(x.np), x.nf);
    if !left.Aborts? { CallsFromSame(g, h, x.b, left.np, left.nf, 0, n); }
  }

  lemma {:induction false} CallsFromSame(g: Graph, h: Graph, b: nat, np: int, nf: FlagMask, k: nat, n: nat)
    requires WellFormed(g) && WellFormed(h) && Grows(g, h) && SoundCommits(g) && SoundCommits(h)
    requires b < |g.base| && k <= |g.predecessors[b]|
    ensures CallsFrom(g, b, np, nf, k, n) == CallsFrom(h, b, np, nf, k, n)
    decreases n, |g.predecessors[b]| - k
  {
    hide SoundCommits, Grows;
    assert h.predecessors == g.predecessors by { GrowsParts(g, h); }
    if k < |g.predecessors[b]| {
      var p := g.predecessors[b][k];
      if p == b {
        CallsFromSame(g, h, b, np, nf, k + 1, n);
      } else if n > 0 {
        CallsSame(g, h, Call(p, np, nf), n - 1);
        CallsFromSame(g, h, b, np, nf, k + 1, n);
      }
    }
  }

  lemma GrowsParts(g: Graph, h: Graph)
    requires Grows(g, h)
    ensures |h.base| == |g.base| && h.predicates == g.predicates && h.predecessors == g.predecessors
  {
  }

  /** The pass over a chunk's blocks, updating the FCOMMITs in place. */
  class FlagPass {
    var base: seq<seq<Instr>>
    const predicates: seq<nat>
    const predecessors: seq<seq<nat>>

    ghost function G(): Graph
      reads this
    {
      Graph(base, predicates, predecessors)
    }

    constructor (g: Graph)
      ensures G() == g
    {
      base, predicates, predecessors := g.base, g.predicates, g.predecessors;
    }

    /** pheta_fixup_flags_inner: serve the demands within the block, hand the rest up. */
    method FixupInner(b: nat, predicate_: int, needflag: FlagMask, ghost limit: nat)
      returns (ok: bool)
      requires Good(G()) && b < |base|
      requires CanPend(Normal(predicate_)) && !Calls(G(), Call(b, predicate_, needflag), limit).Deeper?
      requires forall d :: Pending(d, Normal(predicate_), needflag) ==> Wanted(G(), b, |base[b]|, d)
      modifies this`base
      ensures Grows(old(G()), G()) && Good(G())
      ensures ok ==> BlockMet(G(), b, Normal(predicate_), needflag)
      ensures !ok ==> Fails(G())
      ensures ok <==> old(Calls(G(), Call(b, predicate_, needflag), limit)).Returns?
      decreases limit
    {
      hide Stuck, Fails, Good, Scanned, Justified, BlockMet, PredecessorsMet, Needed, Wanted, Met, SoundCommits, Live;
      hide Calls, CallsFrom, Handed, InstrGrows;
      ghost var x := Call(b, predicate_, needflag);
      ghost var g0 := G();
      GoodParts(g0);
      var np0 := Normal(predicate_);
      var code := base[b];
      var out, np, nf;
      ok, out, np, nf := ScanBlock(code, np0, needflag);
      CallStarts(g0, x, limit);
      ScanKeepsGood(g0, b, out, np0, needflag);
      base := base[b := out];
      ghost var g1 := G();
      assert g1 == Replace(g0, b, out);
      GoodParts(g1);
      if !ok {
        ghost var i: nat :| Stuck(code, i, np0, needflag);
        StuckFails(g0, b, i, np0, needflag);
        FailsSame(g0, g1);
        return;
      }
      ghost var pending := forall d :: Pending(d, np, nf) ==> Needed(code, 0, np0, needflag, d);
      assert pending by { ScannedPending(code, out, np0, needflag, np, nf); }
      GrowsSelf(g1);
      if nf == PH_NONE && np == -1 {
        NothingPending(g1, b, np, nf);
        ScanAndPredecessors(g1, code, out, g1, b, np0, needflag, np, nf);
        return;
      }
      NoPredecessorsYet(g1, b, np, nf);
      var k := 0;
      while k < |predecessors[b]|
        invariant k <= |predecessors[b]|
        invariant Grows(g1, G()) && Good(G())
        invariant WellFormed(G())
        invariant PredecessorsMet(G(), b, k, np, nf)
        invariant CallsFrom(g0, b, np, nf, k, limit) == Calls(g0, x, limit)
      {
        var p := predecessors[b][k];
        CallsOn(g0, b, np, nf, k, limit);
        ghost var g2 := G();
        PredecessorEdge(g2, b, k);
        if p != b {
          GrowsTransitive(g0, g1, g2);
          GoodParts(g0);
          GoodParts(g2);
          PendingIsWanted(g0, g2, b, p, np0, needflag, np, nf);
          CallsSame(g0, g2, Call(p, np, nf), limit - 1);
          var done := FixupInner(p, np, nf, limit - 1);
          GrowsTransitive(g1, g2, G());
          GoodParts(G());
          if !done {
            GrowsTransitive(g0, g1, G());
            return false;
          }
          PredecessorsMetGrows(g2, G(), b, k, np, nf);
        }
        OneMorePredecessor(G(), b, k, np, nf);
        k := k + 1;
      }
      CallsDone(g0, b, np, nf, limit);
      ScanAndPredecessors(g1, code, out, G(), b, np0, needflag, np, nf);
      GrowsTransitive(g0, g1, G());
    }

    /** pheta_fixup_flags: every block in turn; `ok` is false if the pass aborts. */
    method FixupFlags(ghost limit: nat) returns (ok: bool)
      requires Good(G()) && !PassFrom(G(), 0, limit).Deeper?
      requires forall b :: 0 <= b < |base| ==> predicates[b] < 256
      modifies this`base
      ensures Grows(old(G()), G()) && Good(G())
      ensures ok ==> AllMet(G())
      ensures ok <==> !Fails(old(G()))
      ensures ok <==> old(PassFrom(G(), 0, limit)).Returns?
    {
      hide Fails, Good, BlockMet, Wanted, Met, Calls;
      ghost var g0 := G();
      GoodParts(g0);
      GrowsSelf(g0);
      var b := 0;
      while b < |base|
        invariant b <= |base| == |g0.base|
        invariant Grows(g0, G()) && Good(G()) && WellFormed(G())
        invariant forall c :: 0 <= c < b ==> BlockMet(G(), c, Normal(predicates[c]), PH_NONE)
        invariant PassFrom(g0, b, limit) == PassFrom(g0, 0, limit)
      {
        ghost var g1 := G();
        GoodParts(g1);
        OwnPredicateIsWanted(g1, b);
        CallsSame(g0, g1, FirstCall(g0, b), limit);
        ok := FixupInner(b, predicates[b], PH_NONE, limit);
        GrowsTransitive(g0, g1, G());
        GoodParts(G());
        if !ok {
          FailsSame(g0, G());
          return;
        }
        forall c | 0 <= c < b ensures BlockMet(G(), c, Normal(predicates[c]), PH_NONE) {
          BlockMetGrows(g1, G(), c, Normal(predicates[c]), PH_NONE);
        }
        b := b + 1;
      }
      BlocksMetIsAllMet(G());
      AllMetDoesNotFail(G());
      FailsSame(g0, G());
      ok := true;
    }
  }

  lemma GoodParts(g: Graph)
    requires Good(g)
    ensures WellFormed(g)
    ensures SoundCommits(g) && forall b :: 0 <= b < |g.base| ==> SoundCode(g.base[b])
  {
  }

  /** What a block leaves pending is wanted of the predecessor it is handed to. */
  lemma PendingIsWanted(g: Graph, h: Graph, b: nat, p: nat, np0: int, nf0: FlagMask, np: int, nf: FlagMask)
    requires Good(g) && Good(h) && Grows(g, h) && Edge(g, p, b) && p != b && CanPend(np)
    requires forall e :: Pending(e, np0, nf0) ==> Wanted(g, b, |g.base[b]|, e)
    requires forall d :: Pending(d, np, nf) ==> Needed(g.base[b], 0, np0, nf0, d)
    ensures forall d :: Pending(d, Normal(np), nf) ==> Wanted(h, p, |h.base[p]|, d)
  {
    hide Wanted, Needed;
    forall d | Pending(d, Normal(np), nf) ensures Wanted(h, p, |h.base[p]|, d) {
      PendingGoesUp(g, b, p, np0, nf0, d);
      assert CodeGrows(g.base[p], h.base[p]);
      WantedSame(g, h, p, |g.base[p]|, d);
    }
  }

  lemma CallStarts(g: Graph, x: Call, n: nat)
    requires WellFormed(g) && x.b < |g.base|
    ensures var left := Handed(g.base[x.b], Normal(x.np), x.nf);
            Calls(g, x, n) == if left.Aborts? then Stops
                              else if left.np == -1 && left.nf == PH_NONE then Returns
                              else CallsFrom(g, x.b, left.np, left.nf, 0, n)
  {
  }

  lemma CallsOn(g: Graph, b: nat, np: int, nf: FlagMask, k: nat, n: nat)
    requires WellFormed(g) && b < |g.base| && k < |g.predecessors[b]|
    ensures var p := g.predecessors[b][k];
            if p == b then CallsFrom(g, b, np, nf, k, n) == CallsFrom(g, b, np, nf, k + 1, n)
            else if n == 0 then CallsFrom(g, b, np, nf, k, n) == Deeper
            else var r := Calls(g, Call(p, np, nf), n - 1);
                 CallsFrom(g, b, np, nf, k, n) == if r.Returns? then CallsFrom(g, b, np, nf, k + 1, n) else r
  {
  }

  lemma CallsDone(g: Graph, b: nat, np: int, nf: FlagMask, n: nat)
    requires WellFormed(g) && b < |g.base|
    ensures CallsFrom(g, b, np, nf, |g.predecessors[b]|, n) == Returns
  {
  }

  lemma ScannedPending(code: seq<Instr>, out: seq<Instr>, np0: int, nf0: FlagMask, np: int, nf: FlagMask)
    requires OnlyNeeded(code, out, 0, np0, nf0, np, nf)
    ensures forall d :: Pending(d, np, nf) ==> Needed(code, 0, np0, nf0, d)
  {
  }

  lemma NothingPending(g: Graph, b: nat, np: int, nf: FlagMask)
    requires WellFormed(g) && b < |g.base| && np == -1 && nf == PH_NONE
    ensures PredecessorsMet(g, b, |g.predecessors[b]|, np, nf)
  {
  }

  lemma NoPredecessorsYet(g: Graph, b: nat, np: int, nf: FlagMask)
    requires WellFormed(g) && b < |g.base|
    ensures PredecessorsMet(g, b, 0, np, nf)
  {
  }

  lemma PredecessorEdge(g: Graph, b: nat, k: nat)
    requires WellFormed(g) && b < |g.base| && k < |g.predecessors[b]|
    ensures g.predecessors[b][k] < |g.base| && Edge(g, g.predecessors[b][k], b)
  {
  }

  lemma OneMorePredecessor(g: Graph, b: nat, k: nat, np: int, nf: FlagMask)
    requires WellFormed(g) && b < |g.base| && k < |g.predecessors[b]|
    requires PredecessorsMet(g, b, k, np, nf) && CanPend(np)
    requires g.predecessors[b][k] == b || BlockMet(g, g.predecessors[b][k], Normal(np), nf)
    ensures PredecessorsMet(g, b, k + 1, np, nf)
  {
    var p := g.predecessors[b][k];
    forall d | p != b && Pending(d, np, nf) ensures Met(g, p, |g.base[p]|, d) {
      assert Live(g.base[p], Normal(np), nf, |g.base[p]|, d);
    }
  }

  lemma OwnPredicateIsWanted(g: Graph, b: nat)
    requires WellFormed(g) && b < |g.base|
    ensures forall d :: Pending(d, Normal(g.predicates[b]), PH_NONE) ==> Wanted(g, b, |g.base[b]|, d)
  {
  }

  lemma BlocksMetIsAllMet(g: Graph)
    requires WellFormed(g)
    requires forall b :: 0 <= b < |g.base| ==> BlockMet(g, b, Normal(g.predicates[b]), PH_NONE)
    ensures AllMet(g)
  {
    forall b, i, d | 0 <= b < |g.base| && 0 <= i <= |g.base[b]| && RaisedAt(g, b, i, d)
      ensures Met(g, b, i, d)
    {
      assert BlockMet(g, b, Normal(g.predicates[b]), PH_NONE);
      assert Live(g.base[b], Normal(g.predicates[b]), PH_NONE, i, d);
    }
  }

  // ---------- the result is exact ----------

  /** Wanted demands are met, once all raised ones are. */
  lemma WantedIsMet(g: Graph, b: nat, i: nat, d: Demand)
    requires WellFormed(g) && AllMet(g)
    requires b < |g.base| && i <= |g.base[b]| && Wanted(g, b, i, d)
    ensures Met(g, b, i, d)
  {
    var k: nat :| Wanted#[k](g, b, i, d);
    WantedIsMetWithin(g, k, b, i, d);
  }

  lemma {:induction false} WantedIsMetWithin(g: Graph, k: nat, b: nat, i: nat, d: Demand)
    requires WellFormed(g) && AllMet(g)
    requires b < |g.base| && i <= |g.base[b]| && Wanted#[k](g, b, i, d)
    ensures Met(g, b, i, d)
    decreases k
  {
    if k > 0 && !RaisedAt(g, b, i, d) {
      if i < |g.base[b]| {
        WantedIsMetWithin(g, k - 1, b, i + 1, d);
      } else {
        var s: nat :| Edge(g, b, s) && s != b && Wanted#[k - 1](g, s, 0, d);
        WantedIsMetWithin(g, k - 1, s, 0, d);
      }
    }
  }

  /**
   The pass is exact: after it, an FCOMMIT stores a flag (or a condition's result) it
   produces exactly when something downstream wants it.
   */
  lemma StoresExactlyWanted(g: Graph, b: nat, j: nat, d: Demand)
    requires Good(g) && AllMet(g)
    requires b < |g.base| && j < |g.base[b]| && Produces(g.base[b][j], d)
    ensures Stores(g.base[b][j], d) <==> Wanted(g, b, j + 1, d)
  {
    if Wanted(g, b, j + 1, d) {
      WantedIsMet(g, b, j + 1, d);
    }
  }

  lemma AllMetDoesNotFail(g: Graph)
    requires Good(g) && AllMet(g)
    ensures WellFormed(g) && !Fails(g)
  {
    hide Wanted, Met, AllMet;
    forall b: nat, j: nat, cc: nat ensures !FailsAt(g, b, j, cc) {
      if FailsAt(g, b, j, cc) {
        StoresExactlyWanted(g, b, j, OfCondition(cc));
      }
    }
  }

  // ---------- in terms of paths ----------

  /** Consecutive blocks of the path are joined by edges. */
  ghost predicate IsPath(g: Graph, path: seq<nat>)
    requires WellFormed(g)
  {
    && path != [] && (forall k :: 0 <= k < |path| ==> path[k] < |g.base|)
    && forall k :: 0 <= k < |path| - 1 ==> Edge(g, path[k], path[k + 1])
  }

  /** The instructions executed along a path, stopping before position `i` of its last block. */
  function Trace(g: Graph, path: seq<nat>, i: nat): seq<Instr>
    requires path != [] && forall k :: 0 <= k < |path| ==> path[k] < |g.base|
    requires i <= |g.base[path[|path| - 1]]|
  {
    var last := path[|path| - 1];
    if |path| == 1 then g.base[last][..i]
    else
      var front := path[..|path| - 1];
      Trace(g, front, |g.base[front[|front| - 1]]|) + g.base[last][..i]
  }

  /** If the trace produces `d` at all, its last producer stores it. */
  ghost predicate LastStores(trace: seq<Instr>, d: Demand) {
    forall j :: 0 <= j < |trace| && Produces(trace[j], d) && ClearIn(trace, j + 1, |trace|, d)
      ==> Stores(trace[j], d)
  }

  lemma LastStoresExtends(trace: seq<Instr>, i: Instr, d: Demand)
    requires LastStores(trace, d) && !Produces(i, d)
    ensures LastStores(trace + [i], d)
  {
    var longer := trace + [i];
    forall j | 0 <= j < |longer| && Produces(longer[j], d) && ClearIn(longer, j + 1, |longer|, d)
      ensures Stores(longer[j], d)
    {
      forall k | j + 1 <= k < |trace| ensures !Produces(trace[k], d) {
        assert longer[k] == trace[k];
      }
      assert ClearIn(trace, j + 1, |trace|, d);
    }
  }

  /** Nothing produces `d` from position `i` of the trace on. */
  lemma LastStoresClear(trace: seq<Instr>, more: seq<Instr>, d: Demand)
    requires LastStores(trace, d) && forall k :: 0 <= k < |more| ==> !Produces(more[k], d)
    ensures LastStores(trace + more, d)
  {
    if more == [] {
      assert trace + more == trace;
    } else {
      var front := more[..|more| - 1];
      LastStoresClear(trace, front, d);
      LastStoresExtends(trace + front, more[|more| - 1], d);
      assert trace + more == trace + front + [more[|more| - 1]];
    }
  }

  /** The last producer of a trace that ends with one in `more` is in `more`. */
  lemma LastStoresSuffix(trace: seq<Instr>, more: seq<Instr>, d: Demand)
    requires LastStores(more, d) && exists k :: 0 <= k < |more| && Produces(more[k], d)
    ensures LastStores(trace + more, d)
  {
    var all := trace + more;
    forall j | 0 <= j < |all| && Produces(all[j], d) && ClearIn(all, j + 1, |all|, d) ensures Stores(all[j], d) {
      var k :| 0 <= k < |more| && Produces(more[k], d);
      assert all[|trace| + k] == more[k];
      var m := j - |trace|;
      assert m >= k;
      forall l | m + 1 <= l < |more| ensures !Produces(more[l], d) {
        assert all[|trace| + l] == more[l];
      }
      assert ClearIn(more, m + 1, |more|, d);
    }
  }

  // ---------- blocks that branch to themselves ----------

  /** What is wanted at the top of a block that branches to itself is wanted after the block's last producer of it too. */
  ghost predicate LoopsMet(g: Graph)
    requires WellFormed(g)
  {
    forall b: nat, d :: Edge(g, b, b) && Wanted(g, b, 0, d) ==> LastWanted(g, b, d)
  }

  /** What such a block's next round wants, the block stores. */
  ghost predicate LoopsStored(g: Graph)
    requires WellFormed(g)
  {
    forall b: nat, d :: Edge(g, b, b) && Wanted(g, b, 0, d) ==> LastStores(g.base[b], d)
  }

  ghost predicate LastWanted(g: Graph, b: nat, d: Demand)
    requires WellFormed(g) && b < |g.base|
  {
    forall j :: 0 <= j < |g.base[b]| && Produces(g.base[b][j], d) && ClearIn(g.base[b], j + 1, |g.base[b]|, d)
      ==> Wanted(g, b, j + 1, d)
  }

  /** The condition is one on the graph before the pass. */
  lemma LoopsMetSame(g: Graph, h: Graph)
    requires WellFormed(g) && WellFormed(h) && Grows(g, h)
    ensures LoopsMet(g) <==> LoopsMet(h)
  {
    hide Wanted;
    forall b: nat, d | b < |g.base| ensures Wanted(g, b, 0, d) == Wanted(h, b, 0, d) && LastWanted(g, b, d) == LastWanted(h, b, d) {
      assert CodeGrows(g.base[b], h.base[b]);
      WantedSame(g, h, b, 0, d);
      forall j | 0 <= j < |g.base[b]|
        ensures Produces(g.base[b][j], d) == Produces(h.base[b][j], d) && Wanted(g, b, j + 1, d) == Wanted(h, b, j + 1, d)
      {
        assert InstrGrows(g.base[b][j], h.base[b][j]);
        WantedSame(g, h, b, j + 1, d);
      }
    }
  }

  /** After the pass what is wanted after a producer is what it stores. */
  lemma LastWantedIsStored(g: Graph, b: nat, d: Demand)
    requires Good(g) && AllMet(g) && b < |g.base|
    ensures LastWanted(g, b, d) <==> LastStores(g.base[b], d)
  {
    hide Wanted, AllMet, Stores, Produces;
    forall j | 0 <= j < |g.base[b]| && Produces(g.base[b][j], d)
      ensures Stores(g.base[b][j], d) <==> Wanted(g, b, j + 1, d)
    {
      StoresExactlyWanted(g, b, j, d);
    }
  }

  /** On every path, round blocks that branch to themselves too, the last producer of a raised demand stores it. */
  ghost predicate AllPathsMet(g: Graph)
    requires WellFormed(g)
  {
    forall path: seq<nat>, i: nat, d :: DemandedAt(g, path, i, d) ==> LastStores(Trace(g, path, i), d)
  }

  ghost predicate DemandedAt(g: Graph, path: seq<nat>, i: nat, d: Demand)
    requires WellFormed(g)
  {
    IsPath(g, path) && i <= |g.base[path[|path| - 1]]| && RaisedAt(g, path[|path| - 1], i, d)
  }

  /** A wanted demand that is met is met along every path that leads to it. */
  lemma {:induction false} MetOnEveryPath(g: Graph, path: seq<nat>, i: nat, d: Demand)
    requires WellFormed(g) && IsPath(g, path) && LoopsStored(g)
    requires i <= |g.base[path[|path| - 1]]| && Met(g, path[|path| - 1], i, d)
    requires Wanted(g, path[|path| - 1], i, d)
    ensures LastStores(Trace(g, path, i), d)
    decreases |path|, i
  {
    hide LoopsStored;
    var last := path[|path| - 1];
    var code, trace := g.base[last], Trace(g, path, i);
    if i > 0 {
      var shorter := Trace(g, path, i - 1);
      assert code[..i] == code[..i - 1] + [code[i - 1]];
      assert trace == shorter + [code[i - 1]];
      if !Produces(code[i - 1], d) {
        MetOnEveryPath(g, path, i - 1, d);
        LastStoresExtends(shorter, code[i - 1], d);
      } else {
        StoredLast(shorter, code[i - 1], d);
      }
    } else if |path| > 1 {
      var front := path[..|path| - 1];
      var p := front[|front| - 1];
      assert Edge(g, p, last);
      assert trace == Trace(g, front, |g.base[p]|);
      if p == last {
        RoundAgain(g, front, d);
      } else {
        MetOnEveryPath(g, front, |g.base[p]|, d);
      }
    }
  }

  lemma StoredLast(trace: seq<Instr>, i: Instr, d: Demand)
    requires Produces(i, d) && Stores(i, d)
    ensures LastStores(trace + [i], d)
  {
    var all := trace + [i];
    assert all[|trace|] == i;
  }

  /** A demand at the top of a block, asked for from the block's own end. */
  lemma {:induction false} RoundAgain(g: Graph, path: seq<nat>, d: Demand)
    requires WellFormed(g) && IsPath(g, path) && LoopsStored(g)
    requires var b := path[|path| - 1]; Edge(g, b, b) && Met(g, b, 0, d) && Wanted(g, b, 0, d)
    ensures LastStores(Trace(g, path, |g.base[path[|path| - 1]]|), d)
    decreases |path|
  {
    var b := path[|path| - 1];
    var code := g.base[b];
    var before := Trace(g, path, 0);
    assert code[..|code|] == code && code[..0] == [];
    assert Trace(g, path, |code|) == before + code;
    if exists k :: 0 <= k < |code| && Produces(code[k], d) {
      LastStoresSuffix(before, code, d);
    } else {
      MetOnEveryPath(g, path, 0, d);
      LastStoresClear(before, code, d);
    }
  }

  lemma {:induction false} TraceCons(g: Graph, b: nat, path: seq<nat>, m: nat)
    requires WellFormed(g) && IsPath(g, path) && b < |g.base| && m <= |g.base[path[|path| - 1]]|
    ensures Trace(g, [b] + path, m) == g.base[b] + Trace(g, path, m)
  {
    var all := [b] + path;
    var front := all[..|all| - 1];
    if |path| == 1 {
      assert front == [b] && g.base[b][..|g.base[b]|] == g.base[b];
    } else {
      var rest := path[..|path| - 1];
      assert front == [b] + rest;
      forall k | 0 <= k < |rest| - 1 ensures Edge(g, rest[k], rest[k + 1]) {
        assert Edge(g, path[k], path[k + 1]);
      }
      TraceCons(g, b, rest, |g.base[rest[|rest| - 1]]|);
    }
  }

  /** Along the path, from position `i` of its first block `b`, `d` stays unproduced until it is raised. */
  ghost predicate Unproduced(g: Graph, path: seq<nat>, m: nat, b: nat, i: nat, d: Demand)
    requires WellFormed(g)
  {
    && DemandedAt(g, path, m, d) && path[0] == b && b < |g.base| && i <= |g.base[b]|
    && var trace := Trace(g, path, m);
       i <= |trace| && trace[..i] == g.base[b][..i] && forall k :: i <= k < |trace| ==> !Produces(trace[k], d)
  }

  lemma UnproducedBack(g: Graph, path: seq<nat>, m: nat, b: nat, i: nat, d: Demand)
    requires WellFormed(g) && Unproduced(g, path, m, b, i + 1, d) && i < |g.base[b]| && !Produces(g.base[b][i], d)
    ensures Unproduced(g, path, m, b, i, d)
  {
    hide Trace, DemandedAt;
    assert IsPath(g, path) && m <= |g.base[path[|path| - 1]]| by { DemandedParts(g, path, m, d); }
    var trace := Trace(g, path, m);
    assert trace[..i + 1][i] == trace[i] && g.base[b][..i + 1][i] == g.base[b][i];
    assert trace[..i] == trace[..i + 1][..i] && g.base[b][..i] == g.base[b][..i + 1][..i];
  }

  lemma DemandedParts(g: Graph, path: seq<nat>, m: nat, d: Demand)
    requires WellFormed(g) && DemandedAt(g, path, m, d)
    ensures IsPath(g, path) && m <= |g.base[path[|path| - 1]]|
  {
  }

  lemma UnproducedCons(g: Graph, path: seq<nat>, m: nat, b: nat, s: nat, d: Demand)
    requires WellFormed(g) && Unproduced(g, path, m, s, 0, d) && Edge(g, b, s)
    ensures Unproduced(g, [b] + path, m, b, |g.base[b]|, d)
  {
    hide Trace;
    var longer := [b] + path;
    assert forall k :: 0 < k < |longer| ==> longer[k] == path[k - 1];
    TraceCons(g, b, path, m);
    assert g.base[b][..|g.base[b]|] == g.base[b];
  }

  lemma UnproducedHere(g: Graph, b: nat, i: nat, d: Demand)
    requires WellFormed(g) && b < |g.base| && i <= |g.base[b]| && RaisedAt(g, b, i, d)
    ensures Unproduced(g, [b], i, b, i, d)
  {
  }

  /** A wanted demand has such a path. */
  lemma WantedPath(g: Graph, b: nat, i: nat, d: Demand) returns (path: seq<nat>, m: nat)
    requires WellFormed(g) && b < |g.base| && i <= |g.base[b]| && Wanted(g, b, i, d)
    ensures Unproduced(g, path, m, b, i, d)
  {
    var k: nat :| Wanted#[k](g, b, i, d);
    path, m := WantedPathWithin(g, k, b, i, d);
  }

  lemma {:induction false} WantedPathWithin(g: Graph, k: nat, b: nat, i: nat, d: Demand) returns (path: seq<nat>, m: nat)
    requires WellFormed(g) && b < |g.base| && i <= |g.base[b]| && Wanted#[k](g, b, i, d)
    ensures Unproduced(g, path, m, b, i, d)
    decreases k
  {
    hide Unproduced;
    if RaisedAt(g, b, i, d) {
      path, m := [b], i;
      UnproducedHere(g, b, i, d);
    } else if i < |g.base[b]| {
      path, m := WantedPathWithin(g, k - 1, b, i + 1, d);
      UnproducedBack(g, path, m, b, i, d);
    } else {
      var s: nat :| Edge(g, b, s) && s != b && Wanted#[k - 1](g, s, 0, d);
      path, m := WantedPathWithin(g, k - 1, s, 0, d);
      UnproducedCons(g, path, m, b, s, d);
      path := [b] + path;
    }
  }

  /**
   Once the pass is done, every demand is met on every path, round self-loops included,
   exactly when in the graph it began with what is wanted at the top of a self-looping block
   is wanted after the block's last producer of it as well.
   */
  lemma AllPathsMetExactly(g: Graph, h: Graph)
    requires WellFormed(g) && Grows(g, h) && Good(h) && AllMet(h)
    ensures AllPathsMet(h) <==> LoopsMet(g)
  {
    hide Wanted, LastStores, LastWanted, Trace;
    LoopsMetSame(g, h);
    forall b: nat, d | b < |h.base| ensures LastWanted(h, b, d) <==> LastStores(h.base[b], d) {
      LastWantedIsStored(h, b, d);
    }
    if LoopsMet(h) {
      forall path: seq<nat>, i: nat, d | DemandedAt(h, path, i, d) ensures LastStores(Trace(h, path, i), d) {
        var b := path[|path| - 1];
        RaisedIsWanted(h, b, i, d);
        MetOnEveryPath(h, path, i, d);
      }
    } else {
      var b: nat, d :| Edge(h, b, b) && Wanted(h, b, 0, d) && !LastWanted(h, b, d);
      LoopMissed(h, b, d);
    }
  }

  lemma RaisedIsWanted(g: Graph, b: nat, i: nat, d: Demand)
    requires WellFormed(g) && b < |g.base| && i <= |g.base[b]| && RaisedAt(g, b, i, d)
    ensures Wanted(g, b, i, d)
  {
  }

  lemma NotStoredLast(code: seq<Instr>, trace: seq<Instr>, d: Demand)
    requires !LastStores(code, d) && forall k :: 0 <= k < |trace| ==> !Produces(trace[k], d)
    ensures !LastStores(code + trace, d)
  {
    var all := code + trace;
    var j :| 0 <= j < |code| && Produces(code[j], d) && ClearIn(code, j + 1, |code|, d) && !Stores(code[j], d);
    forall k | j + 1 <= k < |all| ensures !Produces(all[k], d) {
      if k < |code| { assert all[k] == code[k]; } else { assert all[k] == trace[k - |code|]; }
    }
    assert all[j] == code[j] && ClearIn(all, j + 1, |all|, d);
  }

  lemma LoopMissed(g: Graph, b: nat, d: Demand)
    requires WellFormed(g)
    requires Edge(g, b, b) && Wanted(g, b, 0, d) && !LastStores(g.base[b], d)
    ensures !AllPathsMet(g)
  {
    hide LastStores, Wanted, Trace;
    var path, m := WantedPath(g, b, 0, d);
    var round := [b] + path;
    TraceCons(g, b, path, m);
    assert forall k :: 0 < k < |round| ==> round[k] == path[k - 1];
    NotStoredLast(g.base[b], Trace(g, path, m), d);
    assert DemandedAt(g, round, m, d) && !LastStores(Trace(g, round, m), d);
  }

  /** FENSURE C and an FCOMMIT of C, in a block that branches to itself. */
  const LOOP := Graph([[FEnsure(PH_C), FCommit(PH_C, PH_NONE, {})]], [AL], [[0]])

  /** The pass takes it, and never aborts on it. */
  lemma LoopIsTaken()
    ensures Good(LOOP) && !Fails(LOOP)
  {
    LoopWantsNothing(LOOP);
  }

  lemma LoopWantsNothing(h: Graph)
    requires Grows(LOOP, h)
    ensures WellFormed(h)
    ensures forall d :: !Wanted(h, 0, |h.base[0]|, d)
    ensures |h.base[0]| == 2 && h.base[0][0] == FEnsure(PH_C) && h.base[0][1].FCommit? && h.base[0][1].have == PH_C
  {
    assert CodeGrows(LOOP.base[0], h.base[0]);
    assert InstrGrows(LOOP.base[0][0], h.base[0][0]) && InstrGrows(LOOP.base[0][1], h.base[0][1]);
    forall d ensures !Wanted(h, 0, |h.base[0]|, d) {
      assert !exists s: nat :: Edge(h, 0, s) && s != 0;
    }
  }

  /** Whatever it leaves, the carry the next round needs is not stored. */
  lemma LoopIsMissed(h: Graph)
    requires Grows(LOOP, h) && Good(h) && AllMet(h)
    ensures !Stores(h.base[0][1], OfFlag(FlagC)) && !AllPathsMet(h)
  {
    var d := OfFlag(FlagC);
    LoopWantsNothing(h);
    assert Produces(h.base[0][1], d);
    StoresExactlyWanted(h, 0, 1, d);
    assert ClearIn(h.base[0], 2, 2, d) && !LastStores(h.base[0], d);
    assert RaisedAt(h, 0, 0, d) && Edge(h, 0, 0);
    LoopMissed(h, 0, d);
  }

  /**
   Soundness along paths: on every path to an FENSURE or SYNC the last FCOMMIT able to
   produce a demanded flag stores it, and on every path to a block's end the last FCOMMIT
   stores the block's condition.
   */
  lemma DemandsMetOnEveryPath(g: Graph, h: Graph, path: seq<nat>, i: nat, d: Demand)
    requires WellFormed(g) && Grows(g, h) && Good(h) && AllMet(h) && LoopsMet(g)
    requires DemandedAt(h, path, i, d)
    ensures LastStores(Trace(h, path, i), d)
  {
    AllPathsMetExactly(g, h);
  }
}
