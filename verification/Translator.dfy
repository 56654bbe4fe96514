/**
 Translation of ARM instructions to ph2 (dynarec/pheta.c): the emitter with its fresh
 temporaries, the per-block register cache, and the data-processing and multiply
 translators.  Each method of `Chunk` is tied to a function on its state; what those
 functions mean is proved in TranslationProof.
 */
module Translator {
  import opened Words
  import Arm
  import opened Ph2

  // ---------- the emitter's state ----------

  /** Code so far, next temporary, and for each register its cached temporary (or -1). */
  datatype TState = TState(code: seq<Instr>, tempno: nat, lbuf: seq<int>, dirty: seq<bool>)

  ghost predicate WellFormed(t: TState) {
    && |t.lbuf| == NUMREG && |t.dirty| == NUMREG
    && forall k :: 0 <= k < NUMREG ==> t.lbuf[k] >= -1
  }

  function NewBlock(): (t: TState)
    ensures WellFormed(t)
  {
    TState([], 0, seq(NUMREG, _ => -1), seq(NUMREG, _ => false))
  }

  type RegNo = r: nat | r < NUMREG

  /** pheta_emit: append, and number the result if there is one. */
  function Emit(t: TState, i: Instr): (t': TState)
    ensures t'.lbuf == t.lbuf && t'.dirty == t.dirty
  {
    t.(code := t.code + [i], tempno := if HasDest(i) then t.tempno + 1 else t.tempno)
  }

  function EmitConst(t: TState, imm: word): (t': TState)
    ensures t'.lbuf == t.lbuf && t'.dirty == t.dirty
  {
    Emit(t, Const(Field(t.tempno), imm))
  }

  function EmitConstB(t: TState, imm: word): (t': TState)
    ensures t'.lbuf == t.lbuf && t'.dirty == t.dirty
  {
    Emit(t, ConstB(Field(t.tempno), imm))
  }

  function EmitBinary(t: TState, op: BinaryOp, a: Temp, b: Temp): (t': TState)
    ensures t'.lbuf == t.lbuf && t'.dirty == t.dirty
  {
    Emit(t, Binary(op, Field(t.tempno), Field(a), Field(b)))
  }

  function EmitUnary(t: TState, op: UnaryOp, a: Temp): (t': TState)
    ensures t'.lbuf == t.lbuf && t'.dirty == t.dirty
  {
    Emit(t, Unary(op, Field(t.tempno), Field(a)))
  }

  /** An operation bracketed by FEXPECT and FCOMMIT when the flags are wanted. */
  function Bracketed(t: TState, flags: bool, have: FlagMask, i: Instr): (t': TState)
    ensures t'.lbuf == t.lbuf && t'.dirty == t.dirty
  {
    if flags then Emit(Emit(Emit(t, FExpect(have)), i), FCommit(have, PH_NONE, {})) else Emit(t, i)
  }

  // ---------- the register cache ----------

  /** pheta_lfetch: the temporary holding a register, fetching it the first time. */
  function LFetch(t: TState, reg: RegNo): (r: (TState, Temp))
    requires WellFormed(t)
    ensures WellFormed(r.0)
  {
    if t.lbuf[reg] != -1 then (t, t.lbuf[reg])
    else (Emit(t, Fetch(Field(t.tempno), reg)).(lbuf := t.lbuf[reg := t.tempno]), t.tempno)
  }

  /** pheta_lcommit: the register now lives in `temp`, to be stored at the next sync. */
  function LCommit(t: TState, reg: RegNo, temp: Temp): (t': TState)
    requires WellFormed(t)
    ensures WellFormed(t')
  {
    Emit(t.(lbuf := t.lbuf[reg := temp], dirty := t.dirty[reg := true]), Assoc(reg, Field(temp)))
  }

  /** One round of the loop of pheta_lsync. */
  function SyncReg(t: TState, reg: RegNo): (t': TState)
    requires WellFormed(t)
    ensures WellFormed(t')
  {
    if t.lbuf[reg] != -1 && t.dirty[reg]
    then Emit(t, Commit(reg, Field(t.lbuf[reg]))).(lbuf := t.lbuf[reg := -1])
    else t
  }

  /** pheta_lsync for the registers below `n`. */
  function SyncBelow(t: TState, n: nat): (t': TState)
    requires WellFormed(t) && n <= NUMREG
    ensures WellFormed(t')
  {
    if n == 0 then t else SyncReg(SyncBelow(t, n - 1), n - 1)
  }

  function LSync(t: TState): (t': TState)
    requires WellFormed(t)
    ensures WellFormed(t')
  {
    SyncBelow(t, NUMREG)
  }

  // ---------- data processing ----------

  /** The shift-by-immediate half of pheta_dp, given the fetched register. */
  function TranslateShift(t: TState, ty: Arm.Shift, amount: word, setC: bool, rm: Temp): (r: (TState, Temp))
    ensures r.0.lbuf == t.lbuf && r.0.dirty == t.dirty
  {
    var u := if ty.LSL? && amount == 0 then t else EmitConstB(t, amount);
    var amountreg := t.tempno;
    match ty
    case LSL =>
      if amount != 0
      then ShiftBracket(u, setC, ty, rm, amountreg)
      else (u, rm)
    case LSR =>
      if amount != 0 then ShiftBracket(u, setC, ty, rm, amountreg)
      else
        var w := if setC then ShiftBracket(EmitConstB(u, 1), true, Arm.LSL, rm, u.tempno).0 else u;
        (EmitConstB(w, 0), w.tempno)
    case ASR =>
      if amount != 0 then ShiftBracket(u, setC, ty, rm, amountreg)
      else
        var w := EmitConstB(u, 31);
        var (x, op2) := ShiftBracket(w, false, ty, rm, u.tempno);
        (if setC then SignBitToCarry(x, op2) else x, op2)
    case ROR =>
      if amount != 0 then ShiftBracket(u, setC, ty, rm, amountreg)
      else
        var w := Emit(u, FEnsure(PH_C));
        RrxBracket(w, setC, rm)
  }

  /** A shift that leaves its carry in the ARM flags when asked to. */
  function ShiftBracket(t: TState, setC: bool, ty: Arm.Shift, a: Temp, b: Temp): (r: (TState, Temp))
    ensures r.0.lbuf == t.lbuf && r.0.dirty == t.dirty
  {
    (Bracketed(t, setC, PH_C, Binary(Shift(ty), Field(t.tempno), Field(a), Field(b))), t.tempno)
  }

  /** After ASR #32 the carry comes from shifting the result once more. */
  function SignBitToCarry(t: TState, op2: Temp): (t': TState)
    ensures t'.lbuf == t.lbuf && t'.dirty == t.dirty
  {
    var u := EmitConstB(Emit(t, FExpect(PH_C)), 1);
    Emit(EmitBinary(u, Shift(Arm.ASR), op2, t.tempno), FCommit(PH_C, PH_NONE, {}))
  }

  /** The source emits the unused constant one inside the bracket, before the RRX. */
  function RrxBracket(t: TState, setC: bool, a: Temp): (r: (TState, Temp))
    ensures r.0.lbuf == t.lbuf && r.0.dirty == t.dirty
  {
    var u := if setC then Emit(t, FExpect(PH_C)) else t;
    var w := EmitConstB(u, 1);
    var x := EmitUnary(w, RRX, a);
    (if setC then Emit(x, FCommit(PH_C, PH_NONE, {})) else x, w.tempno)
  }

  /** Which ph2 operation, on which operands, with which flags. */
  datatype Plan =
    | TwoOperands(op: BinaryOp, reversed: bool, have: FlagMask)
    | OneOperand(uop: UnaryOp, have: FlagMask)
    | Comparison(test: TestOp, have: FlagMask)

  /** The operation switch of pheta_dp_guts. */
  function PlanFor(op: Arm.DpOp): Plan {
    match op
    case AND => TwoOperands(AND, false, PH_NZ)
    case EOR => TwoOperands(EOR, false, PH_NZ)
    case SUB => TwoOperands(SUB, false, PH_ALL)
    case RSB => TwoOperands(SUB, true, PH_ALL)
    case ADD => TwoOperands(ADD, false, PH_ALL)
    case ADC => TwoOperands(ADC, false, PH_ALL)
    case SBC => TwoOperands(SBC, false, PH_ALL)
    case RSC => TwoOperands(SBC, true, PH_ALL)
    case TST => Comparison(TST, PH_NZ)
    case TEQ => Comparison(TEQ, PH_NZ)
    case CMP => Comparison(CMP, PH_ALL)
    case CMN => Comparison(CMN, PH_ALL)
    case ORR => TwoOperands(OR, false, PH_NZ)
    case MOV => OneOperand(MOV, PH_NZ)
    case BIC => TwoOperands(AND, false, PH_NZ)
    case MVN => OneOperand(NOT, PH_NZ)
  }

  /** Emit the planned operation; the result temporary is the one before `tempno`. */
  function EmitPlan(t: TState, plan: Plan, flags: bool, op1: Temp, op2: Temp): (t': TState)
    ensures t'.lbuf == t.lbuf && t'.dirty == t.dirty
  {
    match plan
    case TwoOperands(op, reversed, have) =>
      var a, b := if reversed then op2 else op1, if reversed then op1 else op2;
      Bracketed(t, flags, have, Binary(op, Field(t.tempno), Field(a), Field(b)))
    case OneOperand(op, have) => Bracketed(t, flags, have, Unary(op, Field(t.tempno), Field(op2)))
    case Comparison(op, have) =>
      if flags then Bracketed(t, true, have, Test(op, Field(op1), Field(op2))) else t
  }

  predicate NeedsOp1(op: Arm.DpOp) {
    !op.MOV? && !op.MVN?
  }

  /** pheta_dp_guts. */
  function Guts(t: TState, op: Arm.DpOp, s: bool, rn: Arm.Reg, rd: Arm.Reg, op2: Temp): (t': TState)
    requires WellFormed(t)
    ensures WellFormed(t')
  {
    var (u, op1) := if NeedsOp1(op) then LFetch(t, rn) else (t, 0);
    var w := if Arm.UsesCarry(op) then Emit(u, FEnsure(PH_C)) else u;
    var (x, b) := if op.BIC? then (EmitUnary(w, NOT, op2), w.tempno) else (w, op2);
    var dest := x.tempno;
    var y := EmitPlan(x, PlanFor(op), s, op1, b);
    if Arm.WritesRd(op) then LCommit(y, rd, dest) else y
  }

  /** pheta_dp, shift by immediate. */
  function TranslateDp(t: TState, i: Arm.Inst): (t': TState)
    requires WellFormed(t) && i.Dp?
    ensures WellFormed(t')
  {
    var (u, rm) := LFetch(t, Arm.OperandReg(i.operand2));
    var (w, op2) := TranslateShift(u, Arm.ShiftType(i.operand2), Arm.ShiftAmount(i.operand2),
                                   Arm.IsLogic(i.op) && i.s, rm);
    Guts(w, i.op, i.s, i.rn, i.rd, op2)
  }

  /** pheta_dp_imm. */
  function TranslateDpImm(t: TState, i: Arm.Inst): (t': TState)
    requires WellFormed(t) && i.DpImm?
    ensures WellFormed(t')
  {
    var value, amount := Arm.ImmByte(i.operand2), Arm.ImmRotation(i.operand2);
    var op2 := t.tempno;
    var u := if amount == 0 then EmitConstB(t, value) else EmitConst(t, Ror(value, amount));
    var w := if amount != 0 && i.s && Arm.IsLogic(i.op)
             then Emit(EmitConstB(u, BoolWord(ByteCarry(i.operand2))), FWrite(PH_C, Field(u.tempno)))
             else u;
    Guts(w, i.op, i.s, i.rn, i.rd, op2)
  }

  /** The bit of the unrotated byte that the rotation moves to the top. */
  predicate ByteCarry(o: bv12)
    requires Arm.ImmRotation(o) != 0
  {
    Arm.ImmByte(o) & (1 << (Arm.ImmRotation(o) - 1)) != 0
  }

  /** pheta_mul. */
  function TranslateMul(t: TState, i: Arm.Inst): (t': TState)
    requires WellFormed(t) && i.Mul?
    ensures WellFormed(t')
  {
    var (u, a) := LFetch(t, i.rm);
    var (w, b) := LFetch(u, i.rs);
    if i.accumulate then
      var product := w.tempno;
      var x := EmitBinary(w, MUL, a, b);
      var y := if i.s then Emit(x, FExpect(PH_NZ)) else x;
      var (z, addend) := LFetch(y, i.rn);
      var v := EmitBinary(z, ADD, product, addend);
      LCommit(if i.s then Emit(v, FCommit(PH_NZ, PH_NONE, {})) else v, i.rd, z.tempno)
    else
      var x := Bracketed(w, i.s, PH_NZ, Binary(MUL, Field(w.tempno), Field(a), Field(b)));
      LCommit(x, i.rd, w.tempno)
  }

  // ---------- a straight-line block ----------

  /** What the translator is given: instructions, and points where the cache is written back. */
  datatype Item = Instruction(inst: Arm.Inst) | WriteBack

  /** Instructions this half of the translator handles: no r15, immediate shifts. */
  predicate Translatable(i: Arm.Inst) {
    && Arm.Supported(i) && (i.Dp? || i.DpImm? ==> i.rn != Arm.PC)
    && (i.Dp? ==> !Arm.ShiftsByRegister(i.operand2) && Arm.OperandReg(i.operand2) != Arm.PC)
    && (i.Mul? ==> i.rn != Arm.PC && i.rs != Arm.PC && i.rm != Arm.PC)
  }

  function TranslateItem(t: TState, item: Item): (t': TState)
    requires WellFormed(t)
    ensures WellFormed(t')
  {
    match item
    case WriteBack => LSync(t)
    case Instruction(i) =>
      match i
      case Dp(_, _, _, _, _) => TranslateDp(t, i)
      case DpImm(_, _, _, _, _) => TranslateDpImm(t, i)
      case Mul(_, _, _, _, _, _) => TranslateMul(t, i)
  }

  function Translate(items: seq<Item>): (t: TState)
    ensures WellFormed(t)
  {
    if items == [] then NewBlock()
    else TranslateItem(Translate(items[..|items| - 1]), items[|items| - 1])
  }
}
