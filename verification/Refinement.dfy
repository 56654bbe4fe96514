/**
 Translated blocks against the interpreter, and how long a block may be before the
 sixteen-bit temporary fields run out.
 */
module Refinement {
  import opened Words
  import opened Alu
  import Arm
  import opened Ph2
  import opened Translator
  import opened TranslationProof
  import Interpreter

  // ---------- how many temporaries a block needs ----------

  /** No instruction needs more temporaries than this. */
  const TEMPS_PER_ITEM := 9

  lemma FetchCost(t: TState, reg: RegNo)
    requires WellFormed(t)
    ensures LFetch(t, reg).0.tempno <= t.tempno + 1
  {
  }

  lemma ShiftCost(t: TState, ty: Arm.Shift, k: word, setC: bool, rm: Temp)
    ensures TranslateShift(t, ty, k, setC, rm).0.tempno <= t.tempno + 5
  {
  }

  lemma GutsCost(t: TState, op: Arm.DpOp, s: bool, rn: Arm.Reg, rd: Arm.Reg, op2: Temp)
    requires WellFormed(t) && (Arm.IsCompare(op) ==> s)
    ensures Guts(t, op, s, rn, rd, op2).tempno <= t.tempno + 3
  {
    hide EmitPlan, PlanFor, LFetch;
    var (u, op1) := if NeedsOp1(op) then LFetch(t, rn) else (t, 0);
    var w := if Arm.UsesCarry(op) then Emit(u, FEnsure(PH_C)) else u;
    var (x, b) := if op.BIC? then (EmitUnary(w, NOT, op2), w.tempno) else (w, op2);
    if NeedsOp1(op) { FetchCost(t, rn); }
    PlanTemps(x, op, s, op1, b);
  }

  lemma ItemCost(t: TState, item: Item)
    requires WellFormed(t) && (item.Instruction? ==> Translatable(item.inst))
    ensures TranslateItem(t, item).tempno <= t.tempno + TEMPS_PER_ITEM
  {
    hide LFetch, TranslateShift, Guts, SyncBelow, Arm.Supported, EmitConst, EmitConstB, Ror, ByteCarry,
         Arm.ImmByte, Arm.ImmRotation, Arm.OperandReg, Arm.ShiftType, Arm.ShiftAmount, Arm.ShiftsByRegister;
    if item.WriteBack? {
      SyncKeepsTemps(t, NUMREG);
    } else {
      var i := item.inst;
      IsSupported(i);
      match i {
        case Dp(op, s, rn, rd, o) =>
          var (u, rm) := LFetch(t, Arm.OperandReg(o));
          var setC := Arm.IsLogic(op) && s;
          var (w, op2) := TranslateShift(u, Arm.ShiftType(o), Arm.ShiftAmount(o), setC, rm);
          FetchCost(t, Arm.OperandReg(o));
          ShiftCost(u, Arm.ShiftType(o), Arm.ShiftAmount(o), setC, rm);
          GutsCost(w, op, s, rn, rd, op2);
        case DpImm(_, _, _, _, _) => ImmCost(t, i);
        case Mul(_, _, _, _, _, _) => MulCost(t, i);
      }
    }
  }

  lemma ImmCost(t: TState, i: Arm.Inst)
    requires WellFormed(t) && i.DpImm? && (Arm.IsCompare(i.op) ==> i.s)
    ensures TranslateDpImm(t, i).tempno <= t.tempno + TEMPS_PER_ITEM
  {
    hide Guts, Ror, ByteCarry, Arm.ImmByte, Arm.ImmRotation;
    var value, amount := Arm.ImmByte(i.operand2), Arm.ImmRotation(i.operand2);
    var u := if amount == 0 then EmitConstB(t, value) else EmitConst(t, Ror(value, amount));
    var w := if amount != 0 && i.s && Arm.IsLogic(i.op)
             then Emit(EmitConstB(u, BoolWord(ByteCarry(i.operand2))), FWrite(PH_C, Field(u.tempno)))
             else u;
    GutsCost(w, i.op, i.s, i.rn, i.rd, t.tempno);
  }

  lemma MulCost(t: TState, i: Arm.Inst)
    requires WellFormed(t) && i.Mul?
    ensures TranslateMul(t, i).tempno <= t.tempno + TEMPS_PER_ITEM
  {
    hide LFetch;
    var (u, a) := LFetch(t, i.rm);
    var (w, b) := LFetch(u, i.rs);
    FetchCost(t, i.rm);
    FetchCost(u, i.rs);
    var x := EmitBinary(w, MUL, a, b);
    var y := if i.s then Emit(x, FExpect(PH_NZ)) else x;
    FetchCost(y, i.rn);
  }

  lemma {:induction false} BlockCost(items: seq<Item>)
    requires AllTranslatable(items)
    ensures Translate(items).tempno <= TEMPS_PER_ITEM * |items|
  {
    hide TranslateItem, Translatable;
    if items != [] {
      var front, last := items[..|items| - 1], items[|items| - 1];
      BlockCost(front);
      ItemCost(Translate(front), last);
    }
  }

  /** Any block of up to 7281 items fits the sixteen-bit fields. */
  lemma ShortBlocksFit(items: seq<Item>)
    requires AllTranslatable(items) && |items| <= FIELD_LIMIT / TEMPS_PER_ITEM
    ensures Translate(items).tempno <= FIELD_LIMIT
  {
    BlockCost(items);
  }

  // ---------- against the interpreter ----------

  /** The interpreter run over the same items. */
  function InterpretItems(items: seq<Item>, st: Arm.ArmState): (st': Arm.ArmState)
    requires Arm.Valid(st)
    ensures Arm.Valid(st')
  {
    if items == [] then st
    else
      var before := InterpretItems(items[..|items| - 1], st);
      var last := items[|items| - 1];
      if last.Instruction? then Interpreter.Interpret(last.inst, before) else before
  }

  /** Where nothing deviates on the way, the interpreter runs the block as the architecture does. */
  lemma {:induction false} InterpreterAgrees(items: seq<Item>, st: Arm.ArmState)
    requires AllTranslatable(items) && Arm.Valid(st) && NothingDeviates(items, st)
    ensures InterpretItems(items, st) == RunItems(items, st)
  {
    hide Arm.Step, Interpreter.Interpret, Interpreter.Deviates, Translatable;
    if items != [] {
      var front, last := items[..|items| - 1], items[|items| - 1];
      forall k | 0 <= k < |front| && front[k].Instruction?
        ensures !Interpreter.Deviates(front[k].inst, RunItems(front[..k], st))
      {
        assert front[..k] == items[..k] && front[k] == items[k];
      }
      InterpreterAgrees(front, st);
      if last.Instruction? {
        var before := RunItems(front, st);
        assert items[..|items| - 1] == front;
        TranslatableIsSupported(last.inst);
        Interpreter.InterpreterAgreesExactly(last.inst, before);
      }
    }
  }

  /** No instruction of the block is, in the state it is reached in, one the interpreter gets wrong. */
  ghost predicate NothingDeviates(items: seq<Item>, st: Arm.ArmState)
    requires Arm.Valid(st)
  {
    forall k :: 0 <= k < |items| && items[k].Instruction?
      ==> !Interpreter.Deviates(items[k].inst, RunItems(items[..k], st))
  }

  lemma TranslatableIsSupported(i: Arm.Inst)
    requires Translatable(i)
    ensures Arm.Supported(i)
  {
  }

  /** The translated code, run with its write-back from `p0`, ends with the registers and flags of `end`. */
  ghost predicate EndsAs(items: seq<Item>, p0: Machine, end: Arm.ArmState)
    requires Arm.Valid(end)
  {
    var p := Exec(LSync(Translate(items)).code, p0);
    p.f == end.f && |p.regs| >= Arm.PC && p.regs[..Arm.PC] == end.r[..Arm.PC]
  }

  /**
   Translation refines interpretation: for any straight-line block, from any state in which
   the interpreter itself is right, the translated code and its write-back leave r0-r14 and
   NZCV as the interpreter.
   */
  lemma TranslationRefinesInterpretation(items: seq<Item>, p0: Machine, st: Arm.ArmState)
    requires AllTranslatable(items) && Translate(items).tempno <= FIELD_LIMIT
    requires |p0.regs| == NUMREG && Arm.Valid(st)
    requires p0.regs[..Arm.PC] == st.r[..Arm.PC] && p0.f == st.f
    requires NothingDeviates(items, st)
    ensures EndsAs(items, p0, InterpretItems(items, st))
  {
    InterpreterAgrees(items, st);
    hide Translate, LSync, Exec, RunItems, InterpretItems, AllTranslatable;
    TranslationCorrect(items, p0, st);
  }

  // ---------- exactly when one instruction agrees ----------

  /** Interpreter and architecture step the program counter alike. */
  lemma SamePc(i: Arm.Inst, st: Arm.ArmState)
    requires Arm.Valid(st) && Translatable(i)
    ensures Interpreter.Interpret(i, st).r[Arm.PC] == Arm.Step(i, st).r[Arm.PC]
  {
    hide Arm.NextPc, Arm.Operate, Arm.Operand2, Arm.Product, Arm.RotatedImm, Interpreter.InterpretedOperand2;
  }

  lemma SameButPc(x: Arm.ArmState, y: Arm.ArmState)
    requires Arm.Valid(x) && Arm.Valid(y) && x.r[Arm.PC] == y.r[Arm.PC]
    ensures x == y <==> x.f == y.f && x.r[..Arm.PC] == y.r[..Arm.PC]
  {
    if x.r[..Arm.PC] == y.r[..Arm.PC] {
      assert x.r == x.r[..Arm.PC] + [x.r[Arm.PC]] && y.r == y.r[..Arm.PC] + [y.r[Arm.PC]];
    }
  }

  /**
   For one instruction the translated code agrees with the interpreter exactly when the
   interpreter does not deviate from the architecture: for flag-setting ADC, SBC and RSC of a
   rotated immediate, when the rotated-out bit is the carry.
   */
  lemma TranslationAgreesExactly(i: Arm.Inst, p0: Machine, st: Arm.ArmState)
    requires Translatable(i) && |p0.regs| == NUMREG && Arm.Valid(st)
    requires p0.regs[..Arm.PC] == st.r[..Arm.PC] && p0.f == st.f
    ensures EndsAs([Instruction(i)], p0, Interpreter.Interpret(i, st)) <==> !Interpreter.Deviates(i, st)
  {
    hide Translate, LSync, Exec, Interpreter.Interpret, Arm.Step, Interpreter.Deviates;
    var items := [Instruction(i)];
    ShortBlocksFit(items);
    TranslationCorrect(items, p0, st);
    assert items[..0] == [];
    assert RunItems(items, st) == Arm.Step(i, st);
    TranslatableIsSupported(i);
    Interpreter.InterpreterAgreesExactly(i, st);
    SamePc(i, st);
    SameButPc(Interpreter.Interpret(i, st), Arm.Step(i, st));
  }

  /** Flag-setting ADC, SBC and RSC of a rotated immediate: the only form that can deviate. */
  predicate Excluded(i: Arm.Inst) {
    i.DpImm? && i.s && Arm.UsesCarry(i.op) && Arm.ImmRotation(i.operand2) != 0
  }

  lemma OnlyExcludedDeviate(i: Arm.Inst, st: Arm.ArmState)
    requires Arm.Valid(st) && Translatable(i)
    ensures Interpreter.Deviates(i, st) <==> Excluded(i) && Arm.RotatedImm(i.operand2, st.f.c).carry != st.f.c
  {
    hide Arm.RotatedImm, Interpreter.CarryDiffers;
  }

  /** It does: translated ADCS r0, r1, #0x80000000 with the carry clear is not what the interpreter does. */
  lemma ExcludedFormDiffers(p0: Machine, st: Arm.ArmState)
    requires |p0.regs| == NUMREG && Arm.Valid(st)
    requires p0.regs[..Arm.PC] == st.r[..Arm.PC] && p0.f == st.f && !st.f.c
    ensures var i := Arm.DpImm(Arm.ADC, true, 1, 0, 0x102);
            Translatable(i) && Excluded(i) && !EndsAs([Instruction(i)], p0, Interpreter.Interpret(i, st))
  {
    hide EndsAs, Interpreter.Interpret;
    var i := Arm.DpImm(Arm.ADC, true, 1, 0, 0x102);
    assert Arm.RotatedImm(0x102, false).carry;
    OnlyExcludedDeviate(i, st);
    TranslationAgreesExactly(i, p0, st);
  }
}
