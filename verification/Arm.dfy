/**
 Decoded data-processing and multiply instructions, and what the ARM Architecture
 Reference Manual (DDI 0100) says they do: sections A5.1 (shifter operand) and A4.1
 (instructions).  This is the reference for both the interpreter and the translator.
 */
module Arm {
  import opened Words
  import opened Alu

  type Reg = r: nat | r < 16

  const PC: Reg := 15

  datatype DpOp =
    | AND | EOR | SUB | RSB | ADD | ADC | SBC | RSC
    | TST | TEQ | CMP | CMN | ORR | MOV | BIC | MVN

  datatype Shift = LSL | LSR | ASR | ROR

  /** The instruction fields the decoder separates.  `operand2` keeps its raw twelve bits. */
  datatype Inst =
    | Dp(op: DpOp, s: bool, rn: Reg, rd: Reg, operand2: bv12)
    | DpImm(op: DpOp, s: bool, rn: Reg, rd: Reg, operand2: bv12)
    | Mul(accumulate: bool, s: bool, rd: Reg, rn: Reg, rs: Reg, rm: Reg)

  /** What the instructions of this model can see and change. */
  datatype ArmState = ArmState(r: seq<word>, f: Flags)

  ghost predicate Valid(st: ArmState) {
    |st.r| == 16
  }

  // ---------- fields of operand2 ----------

  function OperandReg(o: bv12): Reg {
    ((o & 15) as bv4) as int
  }

  function ShiftType(o: bv12): Shift {
    var t := (o >> 5) & 3;
    if t == 0 then LSL else if t == 1 then LSR else if t == 2 then ASR else ROR
  }

  predicate ShiftsByRegister(o: bv12) {
    o & 16 != 0
  }

  function ShiftAmount(o: bv12): (k: word)
    ensures k < 32
  {
    (o >> 7) as word
  }

  function ShiftReg(o: bv12): Reg {
    ((o >> 8) as bv4) as int
  }

  function ImmByte(o: bv12): (b: word)
    ensures b < 256
  {
    (o & 255) as word
  }

  function ImmRotation(o: bv12): (k: word)
    ensures k < 32
  {
    ((o >> 8) as word) << 1
  }

  // ---------- classes of operation ----------

  /** Operations whose carry comes from the shifter. */
  predicate IsLogic(op: DpOp) {
    op.AND? || op.EOR? || op.TST? || op.TEQ? || op.ORR? || op.MOV? || op.BIC? || op.MVN?
  }

  predicate IsCompare(op: DpOp) {
    op.TST? || op.TEQ? || op.CMP? || op.CMN?
  }

  predicate WritesRd(op: DpOp) {
    !IsCompare(op)
  }

  predicate UsesCarry(op: DpOp) {
    op.ADC? || op.SBC? || op.RSC?
  }

  // ---------- the shifter operand, section A5.1 ----------

  datatype Shifted = Shifted(value: word, carry: bool)

  /** Shift by an immediate; amount zero is read as the manual says. */
  function ShiftByImm(t: Shift, k: word, rm: word, carry: bool): Shifted
    requires k < 32
  {
    match t
    case LSL => if k == 0 then Shifted(rm, carry) else Shifted(Lsl(rm, k), Bit(rm, 32 - k))
    case LSR => if k == 0 then Shifted(0, Negative(rm)) else Shifted(Lsr(rm, k), Bit(rm, k - 1))
    case ASR =>
      if k == 0 then Shifted(if Negative(rm) then 0xffff_ffff else 0, Negative(rm))
      else Shifted(Asr(rm, k), Bit(rm, k - 1))
    case ROR => if k == 0 then Shifted(Rrx(rm, carry), Bit(rm, 0)) else Shifted(Ror(rm, k), Bit(rm, k - 1))
  }

  /** Shift by the low byte of a register. */
  function ShiftByReg(t: Shift, rs: word, rm: word, carry: bool): Shifted {
    var k := rs & 255;
    if k == 0 then Shifted(rm, carry)
    else match t
      case LSL =>
        if k < 32 then Shifted(Lsl(rm, k), Bit(rm, 32 - k))
        else Shifted(0, k == 32 && Bit(rm, 0))
      case LSR =>
        if k < 32 then Shifted(Lsr(rm, k), Bit(rm, k - 1))
        else Shifted(0, k == 32 && Negative(rm))
      case ASR =>
        if k < 32 then Shifted(Asr(rm, k), Bit(rm, k - 1))
        else Shifted(if Negative(rm) then 0xffff_ffff else 0, Negative(rm))
      case ROR =>
        var j := k & 31;
        if j == 0 then Shifted(rm, Negative(rm)) else Shifted(Ror(rm, j), Bit(rm, j - 1))
  }

  /** An eight-bit immediate rotated right by an even amount. */
  function RotatedImm(o: bv12, carry: bool): Shifted {
    var k := ImmRotation(o);
    var value := Ror(ImmByte(o), k);
    Shifted(value, if k == 0 then carry else Negative(value))
  }

  /** The operand and carry of a data-processing instruction in state `st`. */
  function Operand2(i: Inst, st: ArmState): Shifted
    requires !i.Mul? && Valid(st)
  {
    if i.DpImm? then RotatedImm(i.operand2, st.f.c)
    else
      var rm := st.r[OperandReg(i.operand2)];
      if ShiftsByRegister(i.operand2)
      then ShiftByReg(ShiftType(i.operand2), st.r[ShiftReg(i.operand2)], rm, st.f.c)
      else ShiftByImm(ShiftType(i.operand2), ShiftAmount(i.operand2), rm, st.f.c)
  }

  // ---------- the operations, section A4.1 ----------

  datatype Outcome = Outcome(value: word, f: Flags)

  function LogicOutcome(value: word, carry: bool, f: Flags): Outcome {
    Outcome(value, Flags(Negative(value), value == 0, carry, f.v))
  }

  function SumOutcome(a: word, b: word, carry: bool): Outcome {
    Outcome(SumWord(a, b, carry), SumFlags(a, b, carry))
  }

  function DifferenceOutcome(a: word, b: word, carry: bool): Outcome {
    Outcome(DifferenceWord(a, b, carry), DifferenceFlags(a, b, carry))
  }

  function LogicValue(op: DpOp, a: word, b: word): word
    requires IsLogic(op)
  {
    match op
    case AND | TST => And(a, b)
    case EOR | TEQ => Eor(a, b)
    case ORR => Orr(a, b)
    case MOV => b
    case BIC => And(a, Not(b))
    case MVN => Not(b)
  }

  function ArithmeticOutcome(op: DpOp, a: word, b: word, carry: bool): Outcome
    requires !IsLogic(op)
  {
    match op
    case SUB | CMP => DifferenceOutcome(a, b, true)
    case RSB => DifferenceOutcome(b, a, true)
    case ADD | CMN => SumOutcome(a, b, false)
    case ADC => SumOutcome(a, b, carry)
    case SBC => DifferenceOutcome(a, b, carry)
    case RSC => DifferenceOutcome(b, a, carry)
  }

  function Operate(op: DpOp, a: word, b: Shifted, f: Flags): Outcome {
    if IsLogic(op)
    then LogicOutcome(LogicValue(op, a, b.value), b.carry, f)
    else ArithmeticOutcome(op, a, b.value, f.c)
  }

  /** The shifter's carry reaches the flags of a logical operation only. */
  lemma OnlyLogicTakesCarry(op: DpOp, a: word, b: Shifted, f: Flags, s: bool)
    ensures var taken := if IsLogic(op) && s then b.carry else f.c;
            var out := Operate(op, a, Shifted(b.value, taken), f.(c := taken));
            && out.value == Operate(op, a, b, f).value
            && (if s then out.f == Operate(op, a, b, f).f else f.(c := taken) == f)
  {
    hide LogicValue, ArithmeticOutcome, Negative;
  }

  function Product(i: Inst, st: ArmState): word
    requires i.Mul? && Valid(st)
  {
    var p := Times(st.r[i.rm], st.r[i.rs]);
    if i.accumulate then Add(p, st.r[i.rn]) else p
  }

  /**
   The instructions covered: r15 is no destination, and an operand only where the interpreter
   takes it; comparisons set the flags.
   */
  predicate Supported(i: Inst) {
    match i
    case Mul(_, _, rd, _, _, _) => rd != PC
    case Dp(op, s, rn, rd, o) =>
      && rd != PC && (IsCompare(op) ==> s)
      && (ShiftsByRegister(o) ==> rn != PC && OperandReg(o) != PC)
    case DpImm(op, s, rn, rd, _) => rd != PC && (IsCompare(op) ==> s)
  }

  /** The program counter moves to the next instruction. */
  function NextPc(pc: word): word {
    pc + 4
  }

  function Advance(st: ArmState): (st': ArmState)
    requires Valid(st)
    ensures Valid(st')
  {
    st.(r := st.r[PC := NextPc(st.r[PC])])
  }

  /** A data-processing instruction once its shifter operand is known. */
  function Execute(i: Inst, st: ArmState, b: Shifted): (st': ArmState)
    requires !i.Mul? && Valid(st)
    ensures Valid(st')
  {
    var out := Operate(i.op, st.r[i.rn], b, st.f);
    var r := if WritesRd(i.op) then st.r[i.rd := out.value] else st.r;
    Advance(ArmState(r, if i.s then out.f else st.f))
  }

  function Multiply(i: Inst, st: ArmState): (st': ArmState)
    requires i.Mul? && Valid(st)
    ensures Valid(st')
  {
    var p := Product(i, st);
    Advance(ArmState(st.r[i.rd := p], if i.s then Flags(Negative(p), p == 0, st.f.c, st.f.v) else st.f))
  }

  /** One instruction, as the manual defines it. */
  function Step(i: Inst, st: ArmState): (st': ArmState)
    requires Valid(st)
    ensures Valid(st')
  {
    if i.Mul? then Multiply(i, st) else Execute(i, st, Operand2(i, st))
  }
}
