/**
 Storing only demanded flags preserves meaning: along any path, code whose FCOMMITs store
 what FlagDemand selected computes the same temporaries and registers as code that stores
 everything, and the two agree on every demanded flag.
 */
module FlagPruning {
  import opened Words
  import opened Alu
  import Arm
  import opened Ph2
  import opened Translator
  import opened FlagDemand

  function FlagOf(f: Flags, x: Flag): bool {
    match x
    case FlagN => f.n
    case FlagZ => f.z
    case FlagC => f.c
    case FlagV => f.v
  }

  /** Execution after the pass: an FCOMMIT stores only the flags it needs to. */
  function StepPruned(i: Instr, p: Machine): (q: Machine)
    ensures |q.regs| == |p.regs|
  {
    StepStoring(i, if i.FCommit? then i.need else PH_NONE, p)
  }

  function ExecPruned(code: seq<Instr>, p: Machine): (q: Machine)
    ensures |q.regs| == |p.regs|
  {
    if code == [] then p else StepPruned(code[|code| - 1], ExecPruned(code[..|code| - 1], p))
  }

  /** ADC, SBC and RRX read the ARM carry. */
  predicate ReadsCarry(i: Instr) {
    || (i.Binary? && (i.op2.ADC? || i.op2.SBC?))
    || (i.Unary? && i.op1.RRX?)
  }

  predicate Uses(i: Instr, x: Flag) {
    Requires(i, OfFlag(x)) || (ReadsCarry(i) && x == FlagC)
  }

  /** Wherever a flag is used, the last FCOMMIT producing it has stored it. */
  ghost predicate Covered(code: seq<Instr>) {
    forall i, x :: 0 <= i < |code| && Uses(code[i], x) ==> LastStores(code[..i], OfFlag(x))
  }

  /** Equal but for flags nobody uses. */
  ghost predicate Agree(code: seq<Instr>, p: Machine, q: Machine) {
    && p.temps == q.temps && p.regs == q.regs && p.native == q.native
    && forall x :: LastStores(code, OfFlag(x)) ==> FlagOf(p.f, x) == FlagOf(q.f, x)
  }

  lemma LastStoresFront(code: seq<Instr>, i: Instr, d: Demand)
    requires LastStores(code + [i], d)
    ensures Produces(i, d) ==> Stores(i, d)
    ensures !Produces(i, d) ==> LastStores(code, d)
  {
    var all := code + [i];
    assert all[|code|] == i;
    assert ClearIn(all, |all|, |all|, d);
    if !Produces(i, d) {
      forall j | 0 <= j < |code| && Produces(code[j], d) && ClearIn(code, j + 1, |code|, d)
        ensures Stores(code[j], d)
      {
        assert all[j] == code[j];
        forall k | j + 1 <= k < |all| ensures !Produces(all[k], d) {
          assert k < |code| ==> all[k] == code[k];
        }
        assert ClearIn(all, j + 1, |all|, d);
      }
    }
  }

  /** An FCOMMIT keeps the agreement: a flag is stored in both, or was never produced. */
  lemma CommitAgrees(code: seq<Instr>, i: Instr, p: Machine, q: Machine)
    requires Agree(code, p, q) && SoundCommit(i) && i.FCommit?
    ensures Agree(code + [i], StepPruned(i, p), Ph2.Step(i, q))
  {
    hide Merge, LastStores;
    var p', q' := StepPruned(i, p), Ph2.Step(i, q);
    forall x | LastStores(code + [i], OfFlag(x)) ensures FlagOf(p'.f, x) == FlagOf(q'.f, x) {
      LastStoresFront(code, i, OfFlag(x));
      MergeFlag(i.need, p.native, p.f, x);
      MergeFlag(i.have, q.native, q.f, x);
    }
  }

  lemma WriteAgrees(code: seq<Instr>, i: Instr, p: Machine, q: Machine)
    requires Agree(code, p, q) && i.FWrite?
    ensures Agree(code + [i], StepPruned(i, p), Ph2.Step(i, q))
  {
    hide Merge, LastStores;
    var p', q' := StepPruned(i, p), Ph2.Step(i, q);
    var b := Get(p, i.src) != 0;
    forall x | LastStores(code + [i], OfFlag(x)) ensures FlagOf(p'.f, x) == FlagOf(q'.f, x) {
      LastStoresFront(code, i, OfFlag(x));
      MergeFlag(i.mask, Flags(b, b, b, b), p.f, x);
      MergeFlag(i.mask, Flags(b, b, b, b), q.f, x);
    }
  }

  /** One instruction keeps the agreement. */
  lemma StepAgrees(code: seq<Instr>, i: Instr, p: Machine, q: Machine)
    requires Agree(code, p, q) && SoundCommit(i)
    requires ReadsCarry(i) ==> LastStores(code, OfFlag(FlagC))
    ensures Agree(code + [i], StepPruned(i, p), Ph2.Step(i, q))
  {
    if i.FCommit? {
      CommitAgrees(code, i, p, q);
    } else if i.FWrite? {
      WriteAgrees(code, i, p, q);
    } else {
      OtherAgrees(code, i, p, q);
    }
  }

  /** What a two-operand instruction computes depends on the carry only if it reads it. */
  lemma SameBinary(op: BinaryOp, a: word, b: word, f: Flags, g: Flags, native: Flags)
    requires op.ADC? || op.SBC? ==> f.c == g.c
    ensures BinaryOutcome(op, a, b, f, native) == BinaryOutcome(op, a, b, g, native)
  {
    hide NativeShift, SignAndZero, Arm.LogicOutcome, Arm.SumOutcome, Arm.DifferenceOutcome, And, Orr, Eor, Times;
  }

  lemma SameUnary(op: UnaryOp, a: word, f: Flags, g: Flags, native: Flags)
    requires op.RRX? ==> f.c == g.c
    ensures UnaryOutcome(op, a, f, native) == UnaryOutcome(op, a, g, native)
  {
    hide SignAndZero, Arm.LogicOutcome, Rrx, Bit, Not;
  }

  /** An instruction that stores no flag reads no flag either, but for the carry. */
  lemma SameEffect(i: Instr, p: Machine, q: Machine)
    requires p.temps == q.temps && p.regs == q.regs && p.native == q.native && !i.FCommit? && !i.FWrite?
    requires ReadsCarry(i) ==> p.f.c == q.f.c
    ensures var p', q' := StepPruned(i, p), Ph2.Step(i, q);
            && p'.temps == q'.temps && p'.regs == q'.regs && p'.native == q'.native
            && p'.f == p.f && q'.f == q.f
  {
    hide BinaryOutcome, UnaryOutcome, TestFlags, Get;
    GetSame(p, q);
    match i {
      case Binary(op, _, a, b) => SameBinary(op, Get(p, a), Get(p, b), p.f, q.f, p.native);
      case Unary(op, _, a) => SameUnary(op, Get(p, a), p.f, q.f, p.native);
      case _ =>
    }
  }

  lemma GetSame(p: Machine, q: Machine)
    requires p.temps == q.temps
    ensures forall t :: Get(p, t) == Get(q, t)
  {
  }

  lemma OtherAgrees(code: seq<Instr>, i: Instr, p: Machine, q: Machine)
    requires Agree(code, p, q) && !i.FCommit? && !i.FWrite?
    requires ReadsCarry(i) ==> LastStores(code, OfFlag(FlagC))
    ensures Agree(code + [i], StepPruned(i, p), Ph2.Step(i, q))
  {
    hide StepPruned, Ph2.Step, ReadsCarry, LastStores;
    if ReadsCarry(i) {
      assert FlagOf(p.f, FlagC) == FlagOf(q.f, FlagC);
    }
    SameEffect(i, p, q);
    forall x | LastStores(code + [i], OfFlag(x)) ensures LastStores(code, OfFlag(x)) {
      NothingProduced(i, x);
      LastStoresFront(code, i, OfFlag(x));
    }
  }

  lemma NothingProduced(i: Instr, x: Flag)
    requires !i.FCommit? && !i.FWrite?
    ensures !Produces(i, OfFlag(x))
  {
  }

  lemma MergeFlag(mask: FlagMask, a: Flags, b: Flags, x: Flag)
    ensures FlagOf(Merge(mask, a, b), x) == if Has(mask, x) then FlagOf(a, x) else FlagOf(b, x)
  {
  }

  /** Pruned and full execution agree along any covered trace. */
  lemma {:induction false} PruningPreserves(code: seq<Instr>, p: Machine)
    requires Covered(code) && SoundCode(code)
    ensures Agree(code, ExecPruned(code, p), Exec(code, p))
  {
    hide StepPruned, Ph2.Step, Uses;
    if code != [] {
      var n := |code| - 1;
      var front := code[..n];
      assert code == front + [code[n]];
      forall i, x | 0 <= i < n && Uses(front[i], x) ensures LastStores(front[..i], OfFlag(x)) {
        assert front[..i] == code[..i] && Uses(code[i], x);
      }
      PruningPreserves(front, p);
      CarryReadIsUse(code[n]);
      StepAgrees(front, code[n], ExecPruned(front, p), Exec(front, p));
    }
  }

  lemma CarryReadIsUse(i: Instr)
    ensures ReadsCarry(i) ==> Uses(i, FlagC)
  {
  }

  // ---------- the translator guards its carry reads ----------

  /** The carry was ensured at some point, and nothing has produced it since. */
  ghost predicate CarryEnsured(code: seq<Instr>) {
    exists j :: 0 <= j < |code| && Requires(code[j], OfFlag(FlagC)) && ClearIn(code, j, |code|, OfFlag(FlagC))
  }

  ghost predicate Guarded(code: seq<Instr>) {
    forall i :: 0 <= i < |code| && ReadsCarry(code[i]) ==> CarryEnsured(code[..i])
  }

  /** All demands raised inside the trace are met. */
  ghost predicate RequirementsMet(code: seq<Instr>) {
    forall i, x :: 0 <= i < |code| && Requires(code[i], OfFlag(x)) ==> LastStores(code[..i], OfFlag(x))
  }

  /** A guarded carry read is covered by the FENSURE before it. */
  lemma GuardedIsCovered(code: seq<Instr>)
    requires Guarded(code) && RequirementsMet(code)
    ensures Covered(code)
  {
    forall i, x | 0 <= i < |code| && Uses(code[i], x) ensures LastStores(code[..i], OfFlag(x)) {
      if !Requires(code[i], OfFlag(x)) {
        var d := OfFlag(FlagC);
        var before := code[..i];
        var j :| 0 <= j < |before| && Requires(before[j], d) && ClearIn(before, j, |before|, d);
        assert LastStores(code[..j], d);
        forall k | 0 <= k < |before| && Produces(before[k], d) && ClearIn(before, k + 1, |before|, d)
          ensures Stores(before[k], d)
        {
          assert k < j;
          assert code[..j][k] == before[k];
          forall m | k + 1 <= m < j ensures !Produces(code[..j][m], d) {
            assert code[..j][m] == before[m];
          }
          assert ClearIn(code[..j], k + 1, j, d);
        }
      }
    }
  }

  /**
   After the pass, executing any path of guarded code with only the selected flags stored
   gives the same temporaries, registers and demanded flags.
   */
  lemma PassPreservesMeaning(g: Graph, path: seq<nat>, p: Machine)
    requires FlagDemand.WellFormed(g) && AllPathsMet(g) && IsPath(g, path)
    requires SoundCommits(g) && Guarded(Trace(g, path, |g.base[path[|path| - 1]]|))
    ensures var trace := Trace(g, path, |g.base[path[|path| - 1]]|);
            Agree(trace, ExecPruned(trace, p), Exec(trace, p))
  {
    var trace := Trace(g, path, |g.base[path[|path| - 1]]|);
    TraceRequirementsMet(g, path, |g.base[path[|path| - 1]]|);
    TraceSound(g, path, |g.base[path[|path| - 1]]|);
    GuardedIsCovered(trace);
    PruningPreserves(trace, p);
  }

  lemma {:induction false} TraceSound(g: Graph, path: seq<nat>, n: nat)
    requires FlagDemand.WellFormed(g) && SoundCommits(g) && IsPath(g, path)
    requires n <= |g.base[path[|path| - 1]]|
    ensures SoundCode(Trace(g, path, n))
  {
    if |path| > 1 {
      var front := path[..|path| - 1];
      assert Edge(g, front[|front| - 1], path[|path| - 1]);
      TraceSound(g, front, |g.base[front[|front| - 1]]|);
    }
  }

  /** Each demand inside the trace is one raised in the graph, on a shorter path. */
  lemma {:induction false} TraceRequirementsMet(g: Graph, path: seq<nat>, n: nat)
    requires FlagDemand.WellFormed(g) && AllPathsMet(g) && IsPath(g, path)
    requires n <= |g.base[path[|path| - 1]]|
    ensures RequirementsMet(Trace(g, path, n))
    decreases |path|, n
  {
    var last := path[|path| - 1];
    var trace := Trace(g, path, n);
    if n > 0 {
      var shorter := Trace(g, path, n - 1);
      assert g.base[last][..n] == g.base[last][..n - 1] + [g.base[last][n - 1]];
      assert trace == shorter + [g.base[last][n - 1]];
      TraceRequirementsMet(g, path, n - 1);
      forall i, x | 0 <= i < |trace| && Requires(trace[i], OfFlag(x)) ensures LastStores(trace[..i], OfFlag(x)) {
        if i == |trace| - 1 {
          assert trace[..i] == shorter;
          assert RaisedAt(g, last, n - 1, OfFlag(x));
          assert DemandedAt(g, path, n - 1, OfFlag(x));
        } else {
          assert trace[..i] == shorter[..i] && trace[i] == shorter[i];
        }
      }
    } else if |path| > 1 {
      var front := path[..|path| - 1];
      assert Edge(g, front[|front| - 1], last);
      TraceRequirementsMet(g, front, |g.base[front[|front| - 1]]|);
      assert trace == Trace(g, front, |g.base[front[|front| - 1]]|);
    }
  }

  // ---------- translated blocks are guarded ----------

  /** `u` continues the code of `t` with a guarded suffix. */
  ghost predicate Adds(t: TState, u: TState) {
    && |t.code| <= |u.code| && u.code[..|t.code|] == t.code
    && Guarded(u.code[|t.code|..])
  }

  lemma GuardedConcat(a: seq<Instr>, b: seq<Instr>)
    requires Guarded(a) && Guarded(b)
    ensures Guarded(a + b)
  {
    var all := a + b;
    forall i | 0 <= i < |all| && ReadsCarry(all[i]) ensures CarryEnsured(all[..i]) {
      if i < |a| {
        assert all[..i] == a[..i];
      } else {
        var k := i - |a|;
        var d := OfFlag(FlagC);
        assert CarryEnsured(b[..k]);
        var j :| 0 <= j < k && Requires(b[..k][j], d) && ClearIn(b[..k], j, k, d);
        assert all[..i][|a| + j] == b[..k][j];
        forall m | |a| + j <= m < i ensures !Produces(all[..i][m], d) {
          assert all[..i][m] == b[..k][m - |a|];
        }
        assert ClearIn(all[..i], |a| + j, i, d);
      }
    }
  }

  lemma AddsTransitive(t: TState, u: TState, w: TState)
    requires Adds(t, u) && Adds(u, w)
    ensures Adds(t, w)
  {
    GuardedConcat(u.code[|t.code|..], w.code[|u.code|..]);
    assert w.code[|t.code|..] == u.code[|t.code|..] + w.code[|u.code|..];
    assert w.code[..|t.code|] == w.code[..|u.code|][..|t.code|];
  }

  lemma AddsSelf(t: TState)
    ensures Adds(t, t)
  {
  }

  /** Appending a guarded group. */
  lemma AddsGroup(t: TState, u: TState, s: seq<Instr>)
    requires u.code == t.code + s && Guarded(s)
    ensures Adds(t, u)
  {
    assert u.code[|t.code|..] == s;
  }

  lemma AddsEmit(t: TState, i: Instr)
    requires !ReadsCarry(i)
    ensures Adds(t, Emit(t, i))
  {
    AddsGroup(t, Emit(t, i), [i]);
  }

  lemma AddsBracketed(t: TState, flags: bool, have: FlagMask, i: Instr)
    requires !ReadsCarry(i)
    ensures Adds(t, Bracketed(t, flags, have, i))
  {
    var s := if flags then [FExpect(have), i, FCommit(have, PH_NONE, {})] else [i];
    assert Bracketed(t, flags, have, i).code == t.code + s;
    AddsGroup(t, Bracketed(t, flags, have, i), s);
  }

  /** FENSURE and then a bracketed carry reader, with harmless instructions `mid` in between. */
  lemma AddsReader(t: TState, u: TState, s: seq<Instr>, n: nat)
    requires u.code == t.code + s && n < |s| && s[0] == FEnsure(PH_C)
    requires forall k :: 0 <= k < |s| ==> (ReadsCarry(s[k]) <==> k == n)
    requires forall k :: 0 <= k < n ==> !s[k].FCommit?
    ensures Adds(t, u)
  {
    forall i | 0 <= i < |s| && ReadsCarry(s[i]) ensures CarryEnsured(s[..i]) {
      assert Requires(s[..i][0], OfFlag(FlagC)) && ClearIn(s[..i], 0, i, OfFlag(FlagC));
    }
    AddsGroup(t, u, s);
  }

  lemma FetchAdds(t: TState, reg: RegNo)
    requires Translator.WellFormed(t)
    ensures Adds(t, LFetch(t, reg).0)
  {
    if t.lbuf[reg] == -1 {
      AddsEmit(t, Fetch(Field(t.tempno), reg));
    }
  }

  lemma CommitAdds(t: TState, reg: RegNo, temp: Temp)
    requires Translator.WellFormed(t)
    ensures Adds(t, LCommit(t, reg, temp))
  {
    AddsEmit(t, Assoc(reg, Field(temp)));
  }

  lemma ConstAdds(t: TState, imm: word)
    ensures Adds(t, EmitConst(t, imm)) && Adds(t, EmitConstB(t, imm))
  {
    AddsEmit(t, Const(Field(t.tempno), imm));
    AddsEmit(t, ConstB(Field(t.tempno), imm));
  }

  lemma ShiftBracketAdds(t: TState, setC: bool, ty: Arm.Shift, a: Temp, b: Temp)
    ensures Adds(t, ShiftBracket(t, setC, ty, a, b).0)
  {
    AddsBracketed(t, setC, PH_C, Binary(BinaryOp.Shift(ty), Field(t.tempno), Field(a), Field(b)));
  }

  lemma SignBitAdds(t: TState, op2: Temp)
    ensures Adds(t, SignBitToCarry(t, op2))
  {
    var e := Emit(t, FExpect(PH_C));
    var u := EmitConstB(e, 1);
    var w := EmitBinary(u, BinaryOp.Shift(Arm.ASR), op2, t.tempno);
    AddsEmit(t, FExpect(PH_C));
    ConstAdds(e, 1);
    AddsEmit(u, Binary(BinaryOp.Shift(Arm.ASR), Field(u.tempno), Field(op2), Field(t.tempno)));
    AddsEmit(w, FCommit(PH_C, PH_NONE, {}));
    AddsTransitive(t, e, u);
    AddsTransitive(t, u, w);
    AddsTransitive(t, w, SignBitToCarry(t, op2));
  }

  lemma RrxAdds(t: TState, setC: bool, a: Temp)
    ensures Adds(t, RrxBracket(Emit(t, FEnsure(PH_C)), setC, a).0)
  {
    var c, r := ConstB(Field(t.tempno), 1), Unary(RRX, Field(t.tempno + 1), Field(a));
    var s := if setC then [FEnsure(PH_C), FExpect(PH_C), c, r, FCommit(PH_C, PH_NONE, {})]
             else [FEnsure(PH_C), c, r];
    var u := RrxBracket(Emit(t, FEnsure(PH_C)), setC, a).0;
    assert u.code == t.code + s;
    AddsReader(t, u, s, if setC then 3 else 2);
  }

  lemma ShiftAdds(t: TState, ty: Arm.Shift, k: word, setC: bool, rm: Temp)
    ensures Adds(t, TranslateShift(t, ty, k, setC, rm).0)
  {
    hide Adds, ShiftBracket, SignBitToCarry, RrxBracket, EmitConstB;
    AddsSelf(t);
    var u := EmitConstB(t, k);
    ConstAdds(t, k);
    ShiftBracketAdds(u, setC, ty, rm, t.tempno);
    if k != 0 {
      AddsTransitive(t, u, ShiftBracket(u, setC, ty, rm, t.tempno).0);
    } else {
      match ty {
        case LSL =>
        case LSR =>
          var v := EmitConstB(u, 1);
          var w := if setC then ShiftBracket(v, true, Arm.LSL, rm, u.tempno).0 else u;
          ConstAdds(u, 1);
          ShiftBracketAdds(v, true, Arm.LSL, rm, u.tempno);
          if setC {
            AddsTransitive(t, u, v);
            AddsTransitive(t, v, w);
          }
          ConstAdds(w, 0);
          AddsTransitive(t, w, EmitConstB(w, 0));
        case ASR =>
          var v := EmitConstB(u, 31);
          var (w, op2) := ShiftBracket(v, false, Arm.ASR, rm, u.tempno);
          ConstAdds(u, 31);
          ShiftBracketAdds(v, false, Arm.ASR, rm, u.tempno);
          AddsTransitive(t, u, v);
          AddsTransitive(t, v, w);
          SignBitAdds(w, op2);
          if setC { AddsTransitive(t, w, SignBitToCarry(w, op2)); }
        case ROR =>
          RrxAdds(u, setC, rm);
          AddsTransitive(t, u, RrxBracket(Emit(u, FEnsure(PH_C)), setC, rm).0);
      }
    }
  }

  /** The operation, with its FENSURE when it reads the carry. */
  lemma OperationAdds(u: TState, op: Arm.DpOp, s: bool, op1: Temp, b: Temp)
    ensures var w := if Arm.UsesCarry(op) then Emit(u, FEnsure(PH_C)) else u;
            Adds(u, EmitPlan(w, PlanFor(op), s, op1, b))
  {
    hide Adds, Guarded, Bracketed;
    AddsSelf(u);
    if Arm.UsesCarry(op) {
      CarryOperationAdds(u, op, s, op1, b);
    } else {
      match PlanFor(op) {
        case TwoOperands(bop, reversed, have) =>
          AddsBracketed(u, s, have, Binary(bop, Field(u.tempno), Field(if reversed then b else op1), Field(if reversed then op1 else b)));
        case OneOperand(uop, have) => AddsBracketed(u, s, have, Unary(uop, Field(u.tempno), Field(b)));
        case Comparison(test, have) => AddsBracketed(u, true, have, Test(test, Field(op1), Field(b)));
      }
    }
  }

  lemma CarryOperationAdds(u: TState, op: Arm.DpOp, s: bool, op1: Temp, b: Temp)
    requires Arm.UsesCarry(op)
    ensures Adds(u, EmitPlan(Emit(u, FEnsure(PH_C)), PlanFor(op), s, op1, b))
  {
    hide Adds, Guarded;
    var w := Emit(u, FEnsure(PH_C));
    var plan := PlanFor(op);
    var i := Binary(plan.op, Field(w.tempno), Field(if plan.reversed then b else op1),
                    Field(if plan.reversed then op1 else b));
    var g := if s then [FEnsure(PH_C), FExpect(plan.have), i, FCommit(plan.have, PH_NONE, {})]
             else [FEnsure(PH_C), i];
    var y := EmitPlan(w, plan, s, op1, b);
    assert y.code == u.code + g;
    AddsReader(u, y, g, if s then 2 else 1);
  }

  lemma GutsAdds(t: TState, op: Arm.DpOp, s: bool, rn: Arm.Reg, rd: Arm.Reg, op2: Temp)
    requires Translator.WellFormed(t)
    ensures Adds(t, Guts(t, op, s, rn, rd, op2))
  {
    hide Adds, LFetch, LCommit, EmitPlan, PlanFor;
    AddsSelf(t);
    var (u, op1) := if NeedsOp1(op) then LFetch(t, rn) else (t, 0);
    if NeedsOp1(op) { FetchAdds(t, rn); }
    var (x, b) := if op.BIC? then (EmitUnary(u, NOT, op2), u.tempno) else (u, op2);
    if op.BIC? {
      AddsEmit(u, Unary(NOT, Field(u.tempno), Field(op2)));
      AddsTransitive(t, u, x);
    }
    OperationAdds(x, op, s, op1, b);
    var w := if Arm.UsesCarry(op) then Emit(x, FEnsure(PH_C)) else x;
    var y := EmitPlan(w, PlanFor(op), s, op1, b);
    AddsTransitive(t, x, y);
    if Arm.WritesRd(op) {
      CommitAdds(y, rd, w.tempno);
      AddsTransitive(t, y, LCommit(y, rd, w.tempno));
    }
  }

  lemma {:induction false} SyncAdds(t: TState, n: nat)
    requires Translator.WellFormed(t) && n <= NUMREG
    ensures Adds(t, SyncBelow(t, n))
  {
    hide Adds;
    AddsSelf(t);
    if n > 0 {
      SyncAdds(t, n - 1);
      var u := SyncBelow(t, n - 1);
      AddsSelf(u);
      if u.lbuf[n - 1] != -1 && u.dirty[n - 1] {
        SyncRegAdds(u, n - 1);
      }
      AddsTransitive(t, u, SyncBelow(t, n));
    }
  }

  lemma SyncRegAdds(t: TState, reg: RegNo)
    requires Translator.WellFormed(t)
    ensures Adds(t, SyncReg(t, reg))
  {
    if t.lbuf[reg] != -1 && t.dirty[reg] {
      AddsEmit(t, Commit(reg, Field(t.lbuf[reg])));
    }
  }

  lemma ItemAdds(t: TState, item: Item)
    requires Translator.WellFormed(t)
    ensures Adds(t, TranslateItem(t, item))
  {
    hide Adds, LFetch, LCommit, TranslateShift, Guts, SyncBelow, Bracketed, EmitConst, EmitConstB, EmitBinary,
         Arm.ImmByte, Arm.ImmRotation, Ror, ByteCarry, BoolWord, Arm.OperandReg, Arm.ShiftType, Arm.ShiftAmount;
    match item {
      case WriteBack => SyncAdds(t, NUMREG);
      case Instruction(i) =>
        match i {
          case Dp(op, s, rn, rd, o) =>
            var (u, rm) := LFetch(t, Arm.OperandReg(o));
            var setC := Arm.IsLogic(op) && s;
            var (w, op2) := TranslateShift(u, Arm.ShiftType(o), Arm.ShiftAmount(o), setC, rm);
            FetchAdds(t, Arm.OperandReg(o));
            ShiftAdds(u, Arm.ShiftType(o), Arm.ShiftAmount(o), setC, rm);
            GutsAdds(w, op, s, rn, rd, op2);
            AddsTransitive(t, u, w);
            AddsTransitive(t, w, Guts(w, op, s, rn, rd, op2));
          case DpImm(_, _, _, _, _) => ImmAdds(t, i);
          case Mul(_, _, _, _, _, _) => MulAdds(t, i);
        }
    }
  }

  lemma ImmAdds(t: TState, i: Arm.Inst)
    requires Translator.WellFormed(t) && i.DpImm?
    ensures Adds(t, TranslateDpImm(t, i))
  {
    hide Adds, Guts, EmitConst, EmitConstB, Arm.ImmByte, Arm.ImmRotation, Ror, ByteCarry, BoolWord;
    var value, amount := Arm.ImmByte(i.operand2), Arm.ImmRotation(i.operand2);
    var u := if amount == 0 then EmitConstB(t, value) else EmitConst(t, Ror(value, amount));
    ConstAdds(t, if amount == 0 then value else Ror(value, amount));
    var w := u;
    if amount != 0 && i.s && Arm.IsLogic(i.op) {
      var v := EmitConstB(u, BoolWord(ByteCarry(i.operand2)));
      ConstAdds(u, BoolWord(ByteCarry(i.operand2)));
      AddsEmit(v, FWrite(PH_C, Field(u.tempno)));
      w := Emit(v, FWrite(PH_C, Field(u.tempno)));
      AddsTransitive(t, u, v);
      AddsTransitive(t, v, w);
    }
    GutsAdds(w, i.op, i.s, i.rn, i.rd, t.tempno);
    AddsTransitive(t, w, Guts(w, i.op, i.s, i.rn, i.rd, t.tempno));
  }

  lemma MulAdds(t: TState, i: Arm.Inst)
    requires Translator.WellFormed(t) && i.Mul?
    ensures Adds(t, TranslateMul(t, i))
  {
    hide Adds, LFetch, LCommit, Bracketed;
    var (u, a) := LFetch(t, i.rm);
    var (w, b) := LFetch(u, i.rs);
    FetchAdds(t, i.rm);
    FetchAdds(u, i.rs);
    AddsTransitive(t, u, w);
    if i.accumulate {
      var x := EmitBinary(w, MUL, a, b);
      var y := if i.s then Emit(x, FExpect(PH_NZ)) else x;
      var (z, addend) := LFetch(y, i.rn);
      var v := EmitBinary(z, ADD, w.tempno, addend);
      var c := if i.s then Emit(v, FCommit(PH_NZ, PH_NONE, {})) else v;
      AddsEmit(w, Binary(MUL, Field(w.tempno), Field(a), Field(b)));
      AddsTransitive(t, w, x);
      if i.s {
        AddsEmit(x, FExpect(PH_NZ));
        AddsTransitive(t, x, y);
      }
      FetchAdds(y, i.rn);
      AddsTransitive(t, y, z);
      AddsEmit(z, Binary(ADD, Field(z.tempno), Field(w.tempno), Field(addend)));
      AddsTransitive(t, z, v);
      if i.s {
        AddsEmit(v, FCommit(PH_NZ, PH_NONE, {}));
        AddsTransitive(t, v, c);
      }
      CommitAdds(c, i.rd, z.tempno);
      AddsTransitive(t, c, LCommit(c, i.rd, z.tempno));
    } else {
      var x := Bracketed(w, i.s, PH_NZ, Binary(MUL, Field(w.tempno), Field(a), Field(b)));
      AddsBracketed(w, i.s, PH_NZ, Binary(MUL, Field(w.tempno), Field(a), Field(b)));
      AddsTransitive(t, w, x);
      CommitAdds(x, i.rd, w.tempno);
      AddsTransitive(t, x, LCommit(x, i.rd, w.tempno));
    }
  }

  /** Every block the translator produces guards its carry reads. */
  lemma {:induction false} TranslationIsGuarded(items: seq<Item>)
    ensures Guarded(Translate(items).code) && Guarded(LSync(Translate(items)).code)
  {
    hide TranslateItem, SyncBelow;
    var t := Translate(items);
    if items != [] {
      var front := Translate(items[..|items| - 1]);
      TranslationIsGuarded(items[..|items| - 1]);
      ItemAdds(front, items[|items| - 1]);
      WholeIsGuarded(front, t);
    }
    SyncAdds(t, NUMREG);
    WholeIsGuarded(t, LSync(t));
  }

  lemma WholeIsGuarded(t: TState, u: TState)
    requires Guarded(t.code) && Adds(t, u)
    ensures Guarded(u.code)
  {
    GuardedConcat(t.code, u.code[|t.code|..]);
    assert u.code == t.code + u.code[|t.code|..];
  }
}
