/**
 Conditional branches after the flag pass: the condition result that the last FCOMMIT before
 a branch stores is the condition on the flags of code that stores everything, so both take
 the same branches.
 */
module ConditionResults {
  import opened Words
  import opened Alu
  import Arm
  import Condition
  import opened Ph2
  import opened Translator
  import opened TranslationProof
  import opened FlagDemand
  import opened FlagPruning

  /** The ARM condition with a number. */
  function CodeOf(cc: nat): Condition.Code
    requires cc < 16
  {
    match cc
    case 0 => Condition.EQ
    case 1 => Condition.NE
    case 2 => Condition.CS
    case 3 => Condition.CC
    case 4 => Condition.MI
    case 5 => Condition.PL
    case 6 => Condition.VS
    case 7 => Condition.VC
    case 8 => Condition.HI
    case 9 => Condition.LS
    case 10 => Condition.GE
    case 11 => Condition.LT
    case 12 => Condition.GT
    case 13 => Condition.LE
    case 14 => Condition.AL
    case _ => Condition.NV
  }

  ghost predicate SameOn(m: FlagMask, f: Flags, g: Flags) {
    forall x :: Has(m, x) ==> FlagOf(f, x) == FlagOf(g, x)
  }

  lemma SameOnParts(m: FlagMask, f: Flags, g: Flags)
    requires SameOn(m, f, g)
    ensures (m.n ==> f.n == g.n) && (m.z ==> f.z == g.z) && (m.c ==> f.c == g.c) && (m.v ==> f.v == g.v)
  {
    assert m.n ==> Has(m, FlagN) && FlagOf(f, FlagN) == FlagOf(g, FlagN);
    assert m.z ==> Has(m, FlagZ) && FlagOf(f, FlagZ) == FlagOf(g, FlagZ);
    assert m.c ==> Has(m, FlagC) && FlagOf(f, FlagC) == FlagOf(g, FlagC);
    assert m.v ==> Has(m, FlagV) && FlagOf(f, FlagV) == FlagOf(g, FlagV);
  }

  /** The flags that ccflags lists for a condition decide it. */
  lemma FlagsDecide(cc: nat, f: Flags, g: Flags)
    requires cc < 16 && SameOn(CcFlags(cc), f, g)
    ensures Condition.Passes(CodeOf(cc), f) <==> Condition.Passes(CodeOf(cc), g)
  {
    SameOnParts(CcFlags(cc), f, g);
    hide SameOn, FlagOf;
  }

  /** What the sixteen numbers mean: the even ones by their flags, each odd one the opposite of the one before. */
  lemma ConditionNumbers(f: Flags)
    ensures Condition.Passes(CodeOf(0), f) == f.z && Condition.Passes(CodeOf(2), f) == f.c
    ensures Condition.Passes(CodeOf(4), f) == f.n && Condition.Passes(CodeOf(6), f) == f.v
    ensures Condition.Passes(CodeOf(8), f) == (f.c && !f.z) && Condition.Passes(CodeOf(10), f) == (f.n == f.v)
    ensures Condition.Passes(CodeOf(12), f) == (!f.z && f.n == f.v) && Condition.Passes(CodeOf(14), f)
    ensures forall cc: nat :: cc < 16 && cc % 2 == 1 ==>
              Condition.Passes(CodeOf(cc), f) == !Condition.Passes(CodeOf(cc - 1), f)
  {
  }

  // ---------- the flags a condition depends on ----------

  function Flipped(f: Flags, x: Flag): Flags {
    match x
    case FlagN => f.(n := !f.n)
    case FlagZ => f.(z := !f.z)
    case FlagC => f.(c := !f.c)
    case FlagV => f.(v := !f.v)
  }

  /** For some flags, turning `x` round turns the condition round. */
  ghost predicate DependsOn(cc: nat, x: Flag)
    requires cc < 16
  {
    exists f :: Condition.Passes(CodeOf(cc), f) != Condition.Passes(CodeOf(cc), Flipped(f, x))
  }

  /** ccflags lists a flag exactly when the condition depends on it. */
  lemma FlagsListedExactly(cc: nat, x: Flag)
    requires cc < 16
    ensures Has(CcFlags(cc), x) <==> DependsOn(cc, x)
  {
    if Has(CcFlags(cc), x) {
      var f := Flags(false, cc >= 12 && !x.FlagZ?, cc >= 8 && cc < 12, false);
      var g := Flags(false, false, true, false);
      assert forall h :: Condition.Passes(CodeOf(cc), h) != Condition.Passes(CodeOf(cc), Flipped(h, x)) ==> DependsOn(cc, x);
      assert Condition.Passes(CodeOf(cc), f) != Condition.Passes(CodeOf(cc), Flipped(f, x))
          || Condition.Passes(CodeOf(cc), g) != Condition.Passes(CodeOf(cc), Flipped(g, x));
    }
    if f :| Condition.Passes(CodeOf(cc), f) != Condition.Passes(CodeOf(cc), Flipped(f, x)) {
      if !Has(CcFlags(cc), x) {
        OthersUnflipped(CcFlags(cc), f, x);
        FlagsDecide(cc, f, Flipped(f, x));
      }
    }
  }

  lemma OthersUnflipped(m: FlagMask, f: Flags, x: Flag)
    requires !Has(m, x)
    ensures SameOn(m, f, Flipped(f, x))
  {
  }

  /** Condition `cc` is wanted after the FCOMMIT at `j` of block `b`, which lacks the flag `x` it depends on. */
  ghost predicate LacksAt(g: Graph, b: nat, j: nat, cc: nat, x: Flag)
    requires FlagDemand.WellFormed(g)
  {
    && b < |g.base| && j < |g.base[b]| && g.base[b][j].FCommit? && cc < 14
    && DependsOn(cc, x) && !Has(g.base[b][j].have, x) && Wanted(g, b, j + 1, OfCondition(cc))
  }

  lemma WithinExactly(a: FlagMask, b: FlagMask)
    ensures Within(a, b) <==> forall x :: Has(a, x) ==> Has(b, x)
  {
    if forall x :: Has(a, x) ==> Has(b, x) {
      assert a.n ==> Has(a, FlagN) && Has(b, FlagN);
      assert a.z ==> Has(a, FlagZ) && Has(b, FlagZ);
      assert a.c ==> Has(a, FlagC) && Has(b, FlagC);
      assert a.v ==> Has(a, FlagV) && Has(b, FlagV);
    }
  }

  /** The pass aborts exactly when a condition is wanted after an FCOMMIT without a flag it depends on. */
  lemma FailsExactly(g: Graph)
    requires FlagDemand.WellFormed(g)
    ensures Fails(g) <==> exists b: nat, j: nat, cc: nat, x :: LacksAt(g, b, j, cc, x)
  {
    hide Wanted, DependsOn, CcFlags, Within;
    forall b: nat, j: nat, cc: nat ensures FailsAt(g, b, j, cc) <==> exists x :: LacksAt(g, b, j, cc, x) {
      if b < |g.base| && j < |g.base[b]| && g.base[b][j].FCommit? && cc < 14 {
        WithinExactly(CcFlags(cc), g.base[b][j].have);
        forall x ensures Has(CcFlags(cc), x) <==> DependsOn(cc, x) { FlagsListedExactly(cc, x); }
        if Wanted(g, b, j + 1, OfCondition(cc)) {
          assert forall x :: LacksAt(g, b, j, cc, x) <==> Has(CcFlags(cc), x) && !Has(g.base[b][j].have, x);
        }
      }
    }
    if b: nat, j: nat, cc: nat :| FailsAt(g, b, j, cc) { assert exists x :: LacksAt(g, b, j, cc, x); }
    if b: nat, j: nat, cc: nat, x :| LacksAt(g, b, j, cc, x) { assert FailsAt(g, b, j, cc); }
  }

  /** Neither FCOMMIT nor FWRITE: the ARM flags stay. */
  predicate Touches(i: Instr) {
    i.FCommit? || i.FWrite?
  }

  lemma {:induction false} FlagsStay(code: seq<Instr>, more: seq<Instr>, p: Machine)
    requires forall k :: 0 <= k < |more| ==> !Touches(more[k])
    ensures Exec(code + more, p).f == Exec(code, p).f
  {
    if more == [] {
      assert code + more == code;
    } else {
      var front, last := more[..|more| - 1], more[|more| - 1];
      FlagsStay(code, front, p);
      assert code + more == (code + front) + [last];
      ExecAppend(code + front, last, p);
      StepKeepsFlags(last, Exec(code + front, p));
    }
  }

  lemma StepKeepsFlags(i: Instr, p: Machine)
    requires !Touches(i)
    ensures Ph2.Step(i, p).f == p.f
  {
    hide BinaryOutcome, UnaryOutcome, TestFlags;
  }

  /** An FCOMMIT leaves in the ARM flags what its operation had. */
  lemma CommitStoresHad(i: Instr, p: Machine, cc: nat)
    requires i.FCommit? && cc < 16 && Within(CcFlags(cc), i.have)
    ensures SameOn(CcFlags(cc), p.native, Ph2.Step(i, p).f)
  {
    forall x | Has(CcFlags(cc), x) ensures FlagOf(p.native, x) == FlagOf(Ph2.Step(i, p).f, x) {
      MergeFlag(i.have, p.native, p.f, x);
    }
  }

  /** The condition on the operation's flags at the last FCOMMIT is the condition on the flags at the end. */
  lemma ResultIsCondition(trace: seq<Instr>, j: nat, cc: nat, p: Machine)
    requires j < |trace| && trace[j].FCommit? && cc < 16 && Within(CcFlags(cc), trace[j].have)
    requires forall k :: j < k < |trace| ==> !Touches(trace[k])
    ensures Condition.Passes(CodeOf(cc), Exec(trace[..j], p).native) <==> Condition.Passes(CodeOf(cc), Exec(trace, p).f)
  {
    hide Exec, Condition.Passes, CodeOf, CcFlags, Ph2.Step;
    var upto := trace[..j] + [trace[j]];
    assert trace == upto + trace[j + 1..];
    ExecAppend(trace[..j], trace[j], p);
    CommitStoresHad(trace[j], Exec(trace[..j], p), cc);
    FlagsStay(upto, trace[j + 1..], p);
    FlagsDecide(cc, Exec(trace[..j], p).native, Exec(trace, p).f);
  }

  /** Runs of a guarded trace and of its front agree on the operation's flags. */
  lemma FrontAgrees(trace: seq<Instr>, j: nat, p: Machine)
    requires j <= |trace| && SoundCode(trace) && Guarded(trace) && RequirementsMet(trace)
    ensures ExecPruned(trace[..j], p).native == Exec(trace[..j], p).native
  {
    var front := trace[..j];
    forall i | 0 <= i < |front| && ReadsCarry(front[i]) ensures CarryEnsured(front[..i]) {
      assert front[..i] == trace[..i];
    }
    forall i, x | 0 <= i < |front| && Requires(front[i], OfFlag(x)) ensures LastStores(front[..i], OfFlag(x)) {
      assert front[..i] == trace[..i];
    }
    GuardedIsCovered(front);
    PruningPreserves(front, p);
  }

  /** Every FWRITE is followed by an FCOMMIT. */
  ghost predicate WritesCovered(code: seq<Instr>) {
    forall i :: 0 <= i < |code| && code[i].FWrite? ==> exists k :: i < k < |code| && code[k].FCommit?
  }

  lemma CoveredConcat(a: seq<Instr>, b: seq<Instr>)
    requires WritesCovered(a) && WritesCovered(b)
    ensures WritesCovered(a + b)
  {
    var all := a + b;
    forall i | 0 <= i < |all| && all[i].FWrite? ensures exists k :: i < k < |all| && all[k].FCommit? {
      if i < |a| {
        var k :| i < k < |a| && a[k].FCommit?;
        assert all[k] == a[k];
      } else {
        var k :| i - |a| < k < |b| && b[k].FCommit?;
        assert all[|a| + k] == b[k];
      }
    }
  }

  lemma {:induction false} TraceCovered(g: Graph, path: seq<nat>)
    requires FlagDemand.WellFormed(g) && IsPath(g, path) && forall b :: 0 <= b < |g.base| ==> WritesCovered(g.base[b])
    ensures WritesCovered(Trace(g, path, |g.base[path[|path| - 1]]|))
  {
    hide WritesCovered;
    var last := path[|path| - 1];
    assert g.base[last][..|g.base[last]|] == g.base[last];
    if |path| > 1 {
      var front := path[..|path| - 1];
      assert Edge(g, front[|front| - 1], last);
      TraceCovered(g, front);
      CoveredConcat(Trace(g, front, |g.base[front[|front| - 1]]|), g.base[last]);
    }
  }

  /** `j` is the last FCOMMIT. */
  predicate LastCommit(trace: seq<Instr>, j: nat) {
    j < |trace| && trace[j].FCommit? && forall k :: j < k < |trace| ==> !trace[k].FCommit?
  }

  lemma NothingTouchedAfter(trace: seq<Instr>, j: nat)
    requires WritesCovered(trace) && LastCommit(trace, j)
    ensures forall k :: j < k < |trace| ==> !Touches(trace[k])
  {
  }

  /**
   At the end of every path, the last FCOMMIT stores the result of the closing block's
   condition, and what it stores in the pruned run is the condition on the full run's flags:
   both branch the same way.  In every block an FCOMMIT follows each FWRITE.
   */
  lemma BranchesAgree(g: Graph, path: seq<nat>, j: nat, p: Machine)
    requires FlagDemand.WellFormed(g) && AllPathsMet(g) && SoundCommits(g) && IsPath(g, path)
    requires forall b :: 0 <= b < |g.base| ==> WritesCovered(g.base[b])
    requires Guarded(Trace(g, path, |g.base[path[|path| - 1]]|)) && g.predicates[path[|path| - 1]] < AL
    requires LastCommit(Trace(g, path, |g.base[path[|path| - 1]]|), j)
    ensures var trace, cc := Trace(g, path, |g.base[path[|path| - 1]]|), g.predicates[path[|path| - 1]];
            && Stores(trace[j], OfCondition(cc))
            && (Condition.Passes(CodeOf(cc), ExecPruned(trace[..j], p).native)
                <==> Condition.Passes(CodeOf(cc), Exec(trace, p).f))
  {
    hide Exec, ExecPruned, Condition.Passes, CodeOf, Guarded, CcFlags, WritesCovered;
    var last := path[|path| - 1];
    var n, cc := |g.base[last]|, g.predicates[last];
    var trace, d := Trace(g, path, n), OfCondition(cc);
    TraceSound(g, path, n);
    TraceRequirementsMet(g, path, n);
    TraceCovered(g, path);
    NothingTouchedAfter(trace, j);
    assert DemandedAt(g, path, n, d);
    assert LastStores(trace, d) && Produces(trace[j], d) && ClearIn(trace, j + 1, |trace|, d);
    assert SoundCommit(trace[j]);
    ResultIsCondition(trace, j, cc, p);
    FrontAgrees(trace, j, p);
  }

  // ---------- translated blocks ----------

  /** `u` continues the code of `t`; nothing new is an FWRITE, and if `commits`, something is an FCOMMIT. */
  ghost predicate Quiet(t: TState, u: TState, commits: bool) {
    && |t.code| <= |u.code| && u.code[..|t.code|] == t.code
    && (forall k :: |t.code| <= k < |u.code| ==> !u.code[k].FWrite?)
    && (commits ==> exists k :: |t.code| <= k < |u.code| && u.code[k].FCommit?)
  }

  lemma QuietTransitive(t: TState, u: TState, w: TState, x: bool, y: bool)
    requires Quiet(t, u, x) && Quiet(u, w, y)
    ensures Quiet(t, w, x || y)
  {
    assert w.code[..|t.code|] == w.code[..|u.code|][..|t.code|];
    forall k | |t.code| <= k < |w.code| ensures !w.code[k].FWrite? {
      if k < |u.code| { assert w.code[k] == w.code[..|u.code|][k]; }
    }
    if x {
      var k :| |t.code| <= k < |u.code| && u.code[k].FCommit?;
      assert w.code[k] == w.code[..|u.code|][k];
    }
  }

  lemma QuietSelf(t: TState)
    ensures Quiet(t, t, false)
  {
  }

  lemma QuietEmit(t: TState, i: Instr)
    requires !i.FWrite?
    ensures Quiet(t, Emit(t, i), i.FCommit?)
  {
    assert i.FCommit? ==> Emit(t, i).code[|t.code|].FCommit?;
  }

  lemma QuietBracket(t: TState, flags: bool, have: FlagMask, i: Instr)
    requires !i.FWrite?
    ensures Quiet(t, Bracketed(t, flags, have, i), flags)
  {
    hide Quiet;
    if flags {
      var e := Emit(t, FExpect(have));
      QuietEmit(t, FExpect(have));
      QuietEmit(e, i);
      QuietEmit(Emit(e, i), FCommit(have, PH_NONE, {}));
      QuietTransitive(t, e, Emit(e, i), false, i.FCommit?);
      QuietTransitive(t, Emit(e, i), Bracketed(t, flags, have, i), i.FCommit?, true);
    } else {
      QuietEmit(t, i);
      QuietWeaker(t, Emit(t, i), i.FCommit?);
    }
  }

  lemma QuietWeaker(t: TState, u: TState, commits: bool)
    requires Quiet(t, u, commits)
    ensures Quiet(t, u, false)
  {
  }

  lemma QuietFetch(t: TState, reg: RegNo)
    requires Translator.WellFormed(t)
    ensures Quiet(t, LFetch(t, reg).0, false)
  {
    if t.lbuf[reg] == -1 {
      QuietEmit(t, Fetch(Field(t.tempno), reg));
    }
  }

  lemma QuietCommit(t: TState, reg: RegNo, temp: Temp)
    requires Translator.WellFormed(t)
    ensures Quiet(t, LCommit(t, reg, temp), false)
  {
    QuietEmit(t, Assoc(reg, Field(temp)));
  }

  lemma QuietPlan(t: TState, plan: Plan, flags: bool, op1: Temp, op2: Temp)
    ensures Quiet(t, EmitPlan(t, plan, flags, op1, op2), flags)
  {
    hide Bracketed, Quiet;
    match plan {
      case TwoOperands(op, reversed, have) =>
        var a, b := if reversed then op2 else op1, if reversed then op1 else op2;
        QuietBracket(t, flags, have, Binary(op, Field(t.tempno), Field(a), Field(b)));
      case OneOperand(op, have) => QuietBracket(t, flags, have, Unary(op, Field(t.tempno), Field(op2)));
      case Comparison(op, have) =>
        QuietSelf(t);
        QuietBracket(t, true, have, Test(op, Field(op1), Field(op2)));
    }
  }

  /** An operation with S set commits. */
  lemma QuietGuts(t: TState, op: Arm.DpOp, s: bool, rn: Arm.Reg, rd: Arm.Reg, op2: Temp)
    requires Translator.WellFormed(t)
    ensures Quiet(t, Guts(t, op, s, rn, rd, op2), s)
  {
    hide Quiet, LFetch, EmitPlan, PlanFor, LCommit;
    var (u, op1) := if NeedsOp1(op) then LFetch(t, rn) else (t, 0);
    var w := if Arm.UsesCarry(op) then Emit(u, FEnsure(PH_C)) else u;
    var (x, b) := if op.BIC? then (EmitUnary(w, NOT, op2), w.tempno) else (w, op2);
    var y := EmitPlan(x, PlanFor(op), s, op1, b);
    QuietSelf(t);
    QuietSelf(u);
    QuietSelf(w);
    QuietFetch(t, rn);
    QuietEmit(u, FEnsure(PH_C));
    QuietEmit(w, Unary(NOT, Field(w.tempno), Field(op2)));
    QuietPlan(x, PlanFor(op), s, op1, b);
    QuietTransitive(t, u, w, false, false);
    QuietTransitive(t, w, x, false, false);
    QuietTransitive(t, x, y, false, s);
    if Arm.WritesRd(op) {
      QuietCommit(y, rd, x.tempno);
      QuietTransitive(t, y, LCommit(y, rd, x.tempno), s, false);
    }
  }

  lemma QuietShiftBracket(t: TState, setC: bool, ty: Arm.Shift, a: Temp, b: Temp)
    ensures Quiet(t, ShiftBracket(t, setC, ty, a, b).0, false)
  {
    hide Quiet, Bracketed;
    QuietBracket(t, setC, PH_C, Binary(Shift(ty), Field(t.tempno), Field(a), Field(b)));
    QuietWeaker(t, ShiftBracket(t, setC, ty, a, b).0, setC);
  }

  /** A stretch appended that holds no FWRITE. */
  lemma QuietGroup(t: TState, u: TState, s: seq<Instr>)
    requires u.code == t.code + s && forall k :: 0 <= k < |s| ==> !s[k].FWrite?
    ensures Quiet(t, u, false)
  {
  }

  lemma QuietConst(t: TState, k: word)
    ensures Quiet(t, EmitConstB(t, k), false)
  {
    QuietEmit(t, ConstB(Field(t.tempno), k));
  }

  lemma QuietSignBit(t: TState, op2: Temp)
    ensures Quiet(t, SignBitToCarry(t, op2), false)
  {
    hide Quiet;
    QuietGroup(t, SignBitToCarry(t, op2),
      [FExpect(PH_C), ConstB(Field(t.tempno), 1), Binary(Shift(Arm.ASR), Field(t.tempno + 1), Field(op2), Field(t.tempno)),
       FCommit(PH_C, PH_NONE, {})]);
  }

  lemma QuietRrx(t: TState, setC: bool, a: Temp)
    ensures Quiet(t, RrxBracket(t, setC, a).0, false)
  {
    hide Quiet;
    var c, r := ConstB(Field(t.tempno), 1), Unary(RRX, Field(t.tempno + 1), Field(a));
    QuietGroup(t, RrxBracket(t, setC, a).0, if setC then [FExpect(PH_C), c, r, FCommit(PH_C, PH_NONE, {})] else [c, r]);
  }

  lemma QuietShift(t: TState, ty: Arm.Shift, k: word, setC: bool, rm: Temp)
    ensures Quiet(t, TranslateShift(t, ty, k, setC, rm).0, false)
  {
    hide Quiet, ShiftBracket, SignBitToCarry, RrxBracket, EmitConstB;
    QuietSelf(t);
    if !(ty.LSL? && k == 0) {
      var u := EmitConstB(t, k);
      QuietConst(t, k);
      QuietShiftBracket(u, setC, ty, rm, t.tempno);
      QuietTransitive(t, u, ShiftBracket(u, setC, ty, rm, t.tempno).0, false, false);
      if k == 0 {
        match ty {
          case LSL =>
          case LSR =>
            var one := EmitConstB(u, 1);
            QuietConst(u, 1);
            QuietShiftBracket(one, true, Arm.LSL, rm, u.tempno);
            var x := ShiftBracket(one, true, Arm.LSL, rm, u.tempno).0;
            QuietTransitive(t, u, one, false, false);
            QuietTransitive(t, one, x, false, false);
            QuietConst(x, 0);
            QuietConst(u, 0);
            QuietTransitive(t, x, EmitConstB(x, 0), false, false);
            QuietTransitive(t, u, EmitConstB(u, 0), false, false);
          case ASR =>
            var w := EmitConstB(u, 31);
            QuietConst(u, 31);
            QuietShiftBracket(w, false, ty, rm, u.tempno);
            var (x, op2) := ShiftBracket(w, false, ty, rm, u.tempno);
            QuietTransitive(t, u, w, false, false);
            QuietTransitive(t, w, x, false, false);
            QuietSignBit(x, op2);
            QuietTransitive(t, x, SignBitToCarry(x, op2), false, false);
          case ROR =>
            var e := Emit(u, FEnsure(PH_C));
            QuietEmit(u, FEnsure(PH_C));
            QuietRrx(e, setC, rm);
            QuietTransitive(t, u, e, false, false);
            QuietTransitive(t, e, RrxBracket(e, setC, rm).0, false, false);
        }
      }
    }
  }

  lemma QuietSyncReg(t: TState, reg: RegNo)
    requires Translator.WellFormed(t)
    ensures Quiet(t, SyncReg(t, reg), false)
  {
    QuietSelf(t);
    if t.lbuf[reg] != -1 && t.dirty[reg] {
      QuietEmit(t, Commit(reg, Field(t.lbuf[reg])));
    }
  }

  lemma {:induction false} QuietSync(t: TState, n: nat)
    requires Translator.WellFormed(t) && n <= NUMREG
    ensures Quiet(t, SyncBelow(t, n), false)
  {
    hide Quiet, SyncReg;
    QuietSelf(t);
    if n > 0 {
      QuietSync(t, n - 1);
      QuietSyncReg(SyncBelow(t, n - 1), n - 1);
      QuietTransitive(t, SyncBelow(t, n - 1), SyncBelow(t, n), false, false);
    }
  }

  lemma QuietMul(t: TState, i: Arm.Inst)
    requires Translator.WellFormed(t) && i.Mul?
    ensures Quiet(t, TranslateMul(t, i), false)
  {
    hide Quiet, LFetch, LCommit;
    var (u, a) := LFetch(t, i.rm);
    var (w, b) := LFetch(u, i.rs);
    QuietFetch(t, i.rm);
    QuietFetch(u, i.rs);
    QuietTransitive(t, u, w, false, false);
    if i.accumulate {
      var x := EmitBinary(w, MUL, a, b);
      var y := if i.s then Emit(x, FExpect(PH_NZ)) else x;
      var (z, addend) := LFetch(y, i.rn);
      var v := EmitBinary(z, ADD, w.tempno, addend);
      var done := if i.s then Emit(v, FCommit(PH_NZ, PH_NONE, {})) else v;
      QuietEmit(w, Binary(MUL, Field(w.tempno), Field(a), Field(b)));
      QuietSelf(x);
      QuietEmit(x, FExpect(PH_NZ));
      QuietFetch(y, i.rn);
      QuietEmit(z, Binary(ADD, Field(z.tempno), Field(w.tempno), Field(addend)));
      QuietSelf(v);
      QuietEmit(v, FCommit(PH_NZ, PH_NONE, {}));
      QuietTransitive(t, w, x, false, false);
      QuietTransitive(t, x, y, false, false);
      QuietTransitive(t, y, z, false, false);
      QuietTransitive(t, z, v, false, false);
      QuietTransitive(t, v, done, false, i.s);
      QuietCommit(done, i.rd, z.tempno);
      QuietTransitive(t, done, TranslateMul(t, i), i.s, false);
      QuietWeaker(t, TranslateMul(t, i), i.s);
    } else {
      var x := Bracketed(w, i.s, PH_NZ, Binary(MUL, Field(w.tempno), Field(a), Field(b)));
      QuietBracket(w, i.s, PH_NZ, Binary(MUL, Field(w.tempno), Field(a), Field(b)));
      QuietTransitive(t, w, x, false, i.s);
      QuietCommit(x, i.rd, w.tempno);
      QuietTransitive(t, x, TranslateMul(t, i), i.s, false);
      QuietWeaker(t, TranslateMul(t, i), i.s);
    }
  }

  lemma CoveredOn(t: TState, u: TState, commits: bool)
    requires WritesCovered(t.code) && Quiet(t, u, commits)
    ensures WritesCovered(u.code)
  {
    forall i | 0 <= i < |u.code| && u.code[i].FWrite? ensures exists k :: i < k < |u.code| && u.code[k].FCommit? {
      assert u.code[i] == u.code[..|t.code|][i];
      var k :| i < k < |t.code| && t.code[k].FCommit?;
      assert u.code[k] == u.code[..|t.code|][k];
    }
  }

  /** An FWRITE and then a quiet stretch that commits. */
  lemma CoveredWrite(t: TState, i: Instr, u: TState)
    requires WritesCovered(t.code) && Quiet(Emit(t, i), u, true)
    ensures WritesCovered(u.code)
  {
    var w := Emit(t, i);
    var last :| |w.code| <= last < |u.code| && u.code[last].FCommit?;
    forall k | 0 <= k < |u.code| && u.code[k].FWrite? ensures exists l :: k < l < |u.code| && u.code[l].FCommit? {
      assert k < |w.code|;
    }
  }

  lemma ItemCovers(t: TState, item: Item)
    requires Translator.WellFormed(t) && WritesCovered(t.code)
    ensures WritesCovered(TranslateItem(t, item).code)
  {
    hide Quiet, LFetch, TranslateShift, TranslateMul, Guts, SyncBelow, WritesCovered, Arm.OperandReg, Arm.ShiftType, Arm.ShiftAmount;
    match item {
      case WriteBack =>
        QuietSync(t, NUMREG);
        CoveredOn(t, LSync(t), false);
      case Instruction(i) =>
        match i {
          case Dp(op, s, rn, rd, o) =>
            var (u, rm) := LFetch(t, Arm.OperandReg(o));
            var setC := Arm.IsLogic(op) && s;
            var (w, op2) := TranslateShift(u, Arm.ShiftType(o), Arm.ShiftAmount(o), setC, rm);
            QuietFetch(t, Arm.OperandReg(o));
            QuietShift(u, Arm.ShiftType(o), Arm.ShiftAmount(o), setC, rm);
            QuietGuts(w, op, s, rn, rd, op2);
            QuietTransitive(t, u, w, false, false);
            QuietTransitive(t, w, TranslateDp(t, i), false, s);
            CoveredOn(t, TranslateDp(t, i), s);
          case DpImm(_, _, _, _, _) => ImmCovers(t, i);
          case Mul(_, _, _, _, _, _) =>
            QuietMul(t, i);
            CoveredOn(t, TranslateMul(t, i), false);
        }
    }
  }

  lemma ImmCovers(t: TState, i: Arm.Inst)
    requires Translator.WellFormed(t) && i.DpImm? && WritesCovered(t.code)
    ensures WritesCovered(TranslateDpImm(t, i).code)
  {
    hide Quiet, Guts, WritesCovered, Ror, ByteCarry, Arm.ImmByte, Arm.ImmRotation;
    var value, amount := Arm.ImmByte(i.operand2), Arm.ImmRotation(i.operand2);
    var u := if amount == 0 then EmitConstB(t, value) else EmitConst(t, Ror(value, amount));
    QuietEmit(t, ConstB(Field(t.tempno), value));
    if amount != 0 { QuietEmit(t, Const(Field(t.tempno), Ror(value, amount))); }
    CoveredOn(t, u, false);
    if amount != 0 && i.s && Arm.IsLogic(i.op) {
      var c := ConstB(Field(u.tempno), BoolWord(ByteCarry(i.operand2)));
      var v := Emit(u, c);
      var w := Emit(v, FWrite(PH_C, Field(u.tempno)));
      QuietEmit(u, c);
      CoveredOn(u, v, false);
      QuietGuts(w, i.op, i.s, i.rn, i.rd, t.tempno);
      CoveredWrite(v, FWrite(PH_C, Field(u.tempno)), Guts(w, i.op, i.s, i.rn, i.rd, t.tempno));
    } else {
      QuietGuts(u, i.op, i.s, i.rn, i.rd, t.tempno);
      CoveredOn(u, Guts(u, i.op, i.s, i.rn, i.rd, t.tempno), i.s);
    }
  }

  /** In a translated block no FWRITE comes after the last FCOMMIT. */
  lemma {:induction false} TranslationCoversWrites(items: seq<Item>)
    ensures WritesCovered(Translate(items).code) && WritesCovered(LSync(Translate(items)).code)
  {
    hide TranslateItem, WritesCovered, Quiet, SyncBelow;
    if items == [] {
      NothingWritten(NewBlock());
    } else {
      TranslationCoversWrites(items[..|items| - 1]);
      ItemCovers(Translate(items[..|items| - 1]), items[|items| - 1]);
    }
    QuietSync(Translate(items), NUMREG);
    CoveredOn(Translate(items), LSync(Translate(items)), false);
  }

  lemma NothingWritten(t: TState)
    requires t.code == []
    ensures WritesCovered(t.code)
  {
  }
}
