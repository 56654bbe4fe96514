/**
 The interpreter's data-processing and multiply instructions (core/execute.inc.c) as
 methods on a register file, proved against the architecture, together with the exact
 conditions under which they part from it.
 */
module Interpreter {
  import opened Words
  import opened Alu
  import opened Arm

  // ---------- what the interpreter's shifter computes ----------

  /** The interpreter's tests of a single bit. */
  predicate TestBit(x: word, k: word)
    requires k < 32
  {
    x & (1 << k) != 0
  }

  predicate TestTop(x: word) {
    x & TOPBIT != 0
  }

  predicate ShiftedTop(x: word) {
    x >> 31 != 0
  }

  /** Operand and carry of a shift by the low byte of a register, by the interpreter's own formulas. */
  function InterpretedShift(t: Shift, rs: word, rm: word, carry: bool): Shifted {
    var amount := rs & 255;
    match t
    case LSL =>
      Shifted(if amount > 31 then 0 else Lsl(rm, amount),
              if amount == 0 then carry else if amount > 31 then false else TestBit(rm, 32 - amount))
    case LSR =>
      Shifted(if amount > 31 then 0 else Lsr(rm, amount),
              if amount == 0 then carry else if amount > 32 then false else TestBit(rm, amount - 1))
    case ASR =>
      Shifted(if amount > 31 then (if TestTop(rm) then 0xffff_ffff else 0) else Asr(rm, amount),
              if amount == 0 then carry else if amount > 32 then ShiftedTop(rm) else TestBit(rm, amount - 1))
    case ROR =>
      var turn := amount & 31;
      Shifted(Ror(rm, turn), TestBit(rm, if turn == 0 then 31 else turn - 1))
  }

  function InterpretedOperand2(i: Inst, st: ArmState): Shifted
    requires i.Dp? && Valid(st)
  {
    if ShiftsByRegister(i.operand2)
    then InterpretedShift(ShiftType(i.operand2), st.r[ShiftReg(i.operand2)], st.r[OperandReg(i.operand2)], st.f.c)
    else Operand2(i, st)
  }

  /** The carry is overwritten by the rotation before the operation reads it. */
  function EarlyCarry(i: Inst, st: ArmState): ArmState
    requires i.DpImm? && Valid(st)
  {
    if i.s && ImmRotation(i.operand2) != 0
    then st.(f := st.f.(c := RotatedImm(i.operand2, st.f.c).carry))
    else st
  }

  /** One instruction as the interpreter executes it. */
  function Interpret(i: Inst, st: ArmState): (st': ArmState)
    requires Valid(st)
    ensures Valid(st')
  {
    match i
    case Mul(_, _, _, _, _, _) => Multiply(i, st)
    case Dp(_, _, _, _, _) => Execute(i, st, InterpretedOperand2(i, st))
    case DpImm(_, _, _, _, _) => Execute(i, EarlyCarry(i, st), Operand2(i, st))
  }

  // ---------- where interpreter and architecture agree ----------

  lemma BitTest(x: word, k: word)
    requires k < 32
    ensures TestBit(x, k) == Bit(x, k)
  {
  }

  lemma TopBitTest(x: word)
    ensures TestTop(x) == Negative(x)
  {
  }

  lemma ShiftedTopTest(x: word)
    ensures ShiftedTop(x) == Negative(x)
  {
  }

  lemma TopBitTests(x: word)
    ensures Bit(x, 31) == Negative(x) == TestTop(x) == ShiftedTop(x)
  {
    hide Bit, TestTop, ShiftedTop;
    TopBitTest(x);
    ShiftedTopTest(x);
  }

  lemma AddZero(x: word)
    ensures Add(x, 0) == x
  {
  }

  lemma SubZero(x: word)
    ensures Sub(x, 0) == x
  {
  }

  lemma PlainSum(a: word, b: word)
    ensures SumWord(a, b, false) == Add(a, b)
  {
    hide Add;
    AddZero(Add(a, b));
  }

  lemma PlainDifference(a: word, b: word)
    ensures DifferenceWord(a, b, true) == Sub(a, b)
  {
    hide Sub;
    SubZero(Sub(a, b));
  }

  lemma ShiftByZero(x: word)
    ensures Lsl(x, 0) == x && Lsr(x, 0) == x && Asr(x, 0) == x && Ror(x, 0) == x
  {
  }

  /** The bit of the raw operand field that becomes the carry before the operation. */
  predicate RawCarry(o: bv12)
    requires ImmRotation(o) != 0
  {
    TestBit(o as word, ImmRotation(o) - 1)
  }

  /** The carry written before the operation is the architecture's shifter carry. */
  lemma EarlyCarryBit(o: bv12)
    requires ImmRotation(o) != 0
    ensures RawCarry(o) == Negative(Ror(ImmByte(o), ImmRotation(o)))
  {
  }

  /** ADC and ADD: the macros' flags are the architecture's. */
  lemma SumCase(a: word, b: word, carry: bool)
    ensures var rd := SumWord(a, b, carry);
            var macros := AddFlags(a, b, rd);
            && Outcome(rd, macros) == SumOutcome(a, b, carry)
            && macros.z == (rd == 0) && macros.n == ShiftedTop(rd)
  {
    hide SumWord, SumFlags;
    AddFlagsExact(a, b, carry);
  }

  lemma DifferenceCase(a: word, b: word, carry: bool)
    ensures var rd := DifferenceWord(a, b, carry);
            var macros := SubFlags(a, b, rd);
            && Outcome(rd, macros) == DifferenceOutcome(a, b, carry)
            && macros.z == (rd == 0) && macros.n == ShiftedTop(rd)
  {
    hide DifferenceWord, DifferenceFlags;
    SubFlagsExact(a, b, carry);
  }

  // ---------- exactly when the interpreter follows the architecture ----------

  /** The two register shifts whose carry the interpreter gets wrong. */
  predicate CarryDiffers(t: Shift, rs: word, rm: word, carry: bool) {
    || (t == LSL && rs & 255 == 32 && Bit(rm, 0))
    || (t == ROR && rs & 255 == 0 && carry != Negative(rm))
  }

  lemma ShiftAgreesExactly(t: Shift, rs: word, rm: word, carry: bool)
    ensures InterpretedShift(t, rs, rm, carry).value == ShiftByReg(t, rs, rm, carry).value
    ensures InterpretedShift(t, rs, rm, carry) == ShiftByReg(t, rs, rm, carry)
       <==> !CarryDiffers(t, rs, rm, carry)
  {
    hide Bit, Negative, Lsl, Lsr, Asr, Ror, TestBit, TestTop, ShiftedTop;
    var amount := rs & 255;
    ShiftByZero(rm);
    TopBitTests(rm);
    if amount != 0 && amount < 32 {
      BitTest(rm, 32 - amount);
    }
    if amount != 0 && amount <= 32 {
      BitTest(rm, amount - 1);
    }
    var turn := amount & 31;
    BitTest(rm, if turn == 0 then 31 else turn - 1);
  }

  /** The instructions and states on which interpreter and architecture part. */
  predicate Deviates(i: Inst, st: ArmState)
    requires Valid(st)
  {
    match i
    case Dp(op, s, _, _, o) =>
      && s && IsLogic(op) && ShiftsByRegister(o)
      && CarryDiffers(ShiftType(o), st.r[ShiftReg(o)], st.r[OperandReg(o)], st.f.c)
    case DpImm(op, s, _, _, o) =>
      && s && UsesCarry(op) && ImmRotation(o) != 0
      && RotatedImm(o, st.f.c).carry != st.f.c
    case Mul(_, _, _, _, _, _) => false
  }

  lemma CarryChangesSum(x: word)
    ensures Add(x, 1) != Add(x, 0)
  {
  }

  lemma CarryChangesDifference(x: word)
    ensures Sub(x, 1) != Sub(x, 0)
  {
  }

  /** An operation that reads the carry gives another result for another carry. */
  lemma CarryMatters(op: DpOp, a: word, b: word)
    requires UsesCarry(op)
    ensures ArithmeticOutcome(op, a, b, true).value != ArithmeticOutcome(op, a, b, false).value
  {
    hide Add, Sub, SumFlags, DifferenceFlags;
    CarryChangesSum(Add(a, b));
    CarryChangesDifference(Sub(a, b));
    CarryChangesDifference(Sub(b, a));
  }

  /** The interpreter is the architecture, except exactly where `Deviates` says. */
  lemma InterpreterAgreesExactly(i: Inst, st: ArmState)
    requires Valid(st) && Supported(i)
    ensures Interpret(i, st) == Step(i, st) <==> !Deviates(i, st)
  {
    hide NextPc, LogicValue;
    match i {
      case Mul(_, _, _, _, _, _) =>
      case Dp(op, s, rn, rd, o) => RegisterOperandAgrees(i, st);
      case DpImm(op, s, rn, rd, o) => ImmediateOperandAgrees(i, st);
    }
  }

  lemma RegisterOperandAgrees(i: Inst, st: ArmState)
    requires Valid(st) && Supported(i) && i.Dp?
    ensures Interpret(i, st) == Step(i, st) <==> !Deviates(i, st)
  {
    hide NextPc, LogicValue, ArithmeticOutcome, Negative, Bit, Lsl, Lsr, Asr, Ror, Rrx, CarryDiffers, InterpretedShift,
         ShiftByImm, ShiftByReg, ShiftType, ShiftReg, OperandReg, ShiftAmount, ShiftsByRegister;
    var o := i.operand2;
    if ShiftsByRegister(o) {
      ShiftAgreesExactly(ShiftType(o), st.r[ShiftReg(o)], st.r[OperandReg(o)], st.f.c);
    }
  }

  lemma ImmediateOperandAgrees(i: Inst, st: ArmState)
    requires Valid(st) && Supported(i) && i.DpImm?
    ensures Interpret(i, st) == Step(i, st) <==> !Deviates(i, st)
  {
    hide NextPc, LogicValue, ArithmeticOutcome, Negative, Ror, ImmByte, ImmRotation;
    var b := Operand2(i, st);
    assert Operand2(i, EarlyCarry(i, st)).value == b.value;
    if UsesCarry(i.op) {
      CarryMatters(i.op, st.r[i.rn], b.value);
      var x, y := Interpret(i, st), Step(i, st);
      assert x.r[i.rd] == ArithmeticOutcome(i.op, st.r[i.rn], b.value, EarlyCarry(i, st).f.c).value;
      assert y.r[i.rd] == ArithmeticOutcome(i.op, st.r[i.rn], b.value, st.f.c).value;
    } else if !IsLogic(i.op) {
      CarryIgnored(i.op, st.r[i.rn], b.value, st.f.c);
    }
  }

  lemma CarryIgnored(op: DpOp, a: word, b: word, carry: bool)
    requires !IsLogic(op) && !UsesCarry(op)
    ensures ArithmeticOutcome(op, a, b, carry) == ArithmeticOutcome(op, a, b, true)
         == ArithmeticOutcome(op, a, b, false)
  {
  }

  /** The live registers and flags of the emulated processor. */
  class Cpu {
    const r: array<word>
    var n: bool
    var z: bool
    var c: bool
    var v: bool

    ghost predicate Valid() {
      r.Length == 16
    }

    function Psr(): Flags
      reads this
    {
      Flags(n, z, c, v)
    }

    function State(): ArmState
      reads this, r
    {
      ArmState(r[..], Psr())
    }

    constructor (st: ArmState)
      requires Arm.Valid(st)
      ensures Valid() && fresh(r) && State() == st
    {
      r := new word[16](k requires 0 <= k < 16 => st.r[k]);
      n, z, c, v := st.f.n, st.f.z, st.f.c, st.f.v;
    }

    /** Shift by a register: the operand, and the carry if the operation is to take it. */
    method RegisterShift(t: Shift, rs: word, rm: word, setCarry: bool) returns (op2: word)
      modifies this`c
      ensures var b := InterpretedShift(t, rs, rm, old(c));
              op2 == b.value && c == if setCarry then b.carry else old(c)
    {
      hide InterpretedShift;
      match t {
        case LSL => op2 := ShiftLeft(rs, rm, setCarry);
        case LSR => op2 := ShiftRight(rs, rm, setCarry);
        case ASR => op2 := ShiftRightArithmetic(rs, rm, setCarry);
        case ROR => op2 := RotateRight(rs, rm, setCarry);
      }
    }

    method ShiftLeft(rs: word, rm: word, setCarry: bool) returns (op2: word)
      modifies this`c
      ensures var b := InterpretedShift(LSL, rs, rm, old(c));
              op2 == b.value && c == if setCarry then b.carry else old(c)
    {
      hide TestBit, TestTop, ShiftedTop, Lsl, Lsr, Asr, Ror;
      var amount := rs & 255;
      op2 := if amount > 31 then 0 else Lsl(rm, amount);
      if setCarry && amount != 0 {
        c := if amount > 31 then false else TestBit(rm, 32 - amount);
      }
    }

    method ShiftRight(rs: word, rm: word, setCarry: bool) returns (op2: word)
      modifies this`c
      ensures var b := InterpretedShift(LSR, rs, rm, old(c));
              op2 == b.value && c == if setCarry then b.carry else old(c)
    {
      hide TestBit, TestTop, ShiftedTop, Lsl, Lsr, Asr, Ror;
      var amount := rs & 255;
      op2 := if amount > 31 then 0 else Lsr(rm, amount);
      if setCarry && amount != 0 {
        c := if amount > 32 then false else TestBit(rm, amount - 1);
      }
    }

    method ShiftRightArithmetic(rs: word, rm: word, setCarry: bool) returns (op2: word)
      modifies this`c
      ensures var b := InterpretedShift(ASR, rs, rm, old(c));
              op2 == b.value && c == if setCarry then b.carry else old(c)
    {
      hide TestBit, TestTop, ShiftedTop, Lsl, Lsr, Asr, Ror;
      var amount := rs & 255;
      op2 := if amount > 31 then (if TestTop(rm) then 0xffff_ffff else 0) else Asr(rm, amount);
      if setCarry && amount != 0 {
        c := if amount > 32 then ShiftedTop(rm) else TestBit(rm, amount - 1);
      }
    }

    method RotateRight(rs: word, rm: word, setCarry: bool) returns (op2: word)
      modifies this`c
      ensures var b := InterpretedShift(ROR, rs, rm, old(c));
              op2 == b.value && c == if setCarry then b.carry else old(c)
    {
      hide TestBit, TestTop, ShiftedTop, Lsl, Lsr, Asr, Ror;
      var amount := rs & 255;
      amount := amount & 31;
      op2 := Ror(rm, amount);
      if setCarry {
        if amount == 0 {
          amount := 32;
        }
        c := TestBit(rm, amount - 1);
      }
    }

    /** Shift by an immediate. */
    method ImmediateShift(t: Shift, k: word, rm: word, setCarry: bool) returns (op2: word)
      requires k < 32
      modifies this`c
      ensures var b := ShiftByImm(t, k, rm, old(c));
              op2 == b.value && c == if setCarry then b.carry else old(c)
    {
      hide Bit, Lsl, Lsr, Asr, Ror, Rrx, Negative, TestBit, TestTop, ShiftedTop;
      var amount := k;
      ShiftByZero(rm);
      TopBitTests(rm);
      match t {
        case LSL =>
          op2 := if amount != 0 then Lsl(rm, amount) else rm;
          if setCarry && amount != 0 {
            BitTest(rm, 32 - amount);
            c := TestBit(rm, 32 - amount);
          }
        case LSR =>
          op2 := if amount != 0 then Lsr(rm, amount) else 0;
          if setCarry {
            if amount == 0 {
              amount := 32;
            }
            BitTest(rm, amount - 1);
            c := TestBit(rm, amount - 1);
          }
        case ASR =>
          op2 := if amount != 0 then Asr(rm, amount) else if TestTop(rm) then 0xffff_ffff else 0;
          if setCarry {
            if amount == 0 {
              amount := 32;
            }
            BitTest(rm, amount - 1);
            c := TestBit(rm, amount - 1);
          }
        case ROR =>
          if amount == 0 {
            op2 := Rrx(rm, c);
            if setCarry {
              BitTest(rm, 0);
              c := TestBit(rm, 0);
            }
          } else {
            op2 := Ror(rm, amount);
            if setCarry {
              BitTest(rm, amount - 1);
              c := TestBit(rm, amount - 1);
            }
          }
      }
    }

    /** The arithmetic cases of the operation switch, with the macros' carry and overflow. */
    method Arithmetic(op: DpOp, op1: word, op2: word) returns (rd: word, macros: Flags)
      requires !IsLogic(op)
      ensures Outcome(rd, macros) == ArithmeticOutcome(op, op1, op2, c)
      ensures macros.z == (rd == 0) && macros.n == ShiftedTop(rd)
    {
      hide SumOutcome, DifferenceOutcome, LogicOutcome, AddFlags, SubFlags, Add, Sub, SumWord, DifferenceWord;
      match op {
        case SUB | CMP =>
          rd := Sub(op1, op2);
          PlainDifference(op1, op2);
          macros := SubFlags(op1, op2, rd);
          DifferenceCase(op1, op2, true);
        case RSB =>
          rd := Sub(op2, op1);
          PlainDifference(op2, op1);
          macros := SubFlags(op2, op1, rd);
          DifferenceCase(op2, op1, true);
        case ADD | CMN =>
          rd := Add(op1, op2);
          PlainSum(op1, op2);
          macros := AddFlags(op1, op2, rd);
          SumCase(op1, op2, false);
        case ADC =>
          rd := SumWord(op1, op2, c);
          macros := AddFlags(op1, op2, rd);
          SumCase(op1, op2, c);
        case SBC =>
          rd := DifferenceWord(op1, op2, c);
          macros := SubFlags(op1, op2, rd);
          DifferenceCase(op1, op2, c);
        case RSC =>
          rd := DifferenceWord(op2, op1, c);
          macros := SubFlags(op2, op1, rd);
          DifferenceCase(op2, op1, c);
      }
    }

    /** The logical cases. */
    method Logic(op: DpOp, op1: word, op2: word) returns (rd: word)
      requires IsLogic(op)
      ensures rd == LogicValue(op, op1, op2)
    {
      hide And, Orr, Eor, Not;
      match op {
        case AND | TST => rd := And(op1, op2);
        case EOR | TEQ => rd := Eor(op1, op2);
        case ORR => rd := Orr(op1, op2);
        case MOV => rd := op2;
        case BIC => rd := And(op1, Not(op2));
        case MVN => rd := Not(op2);
      }
    }

    /** The whole operation switch followed by ZNFLAGS. */
    method Compute(op: DpOp, op1: word, op2: word, setFlags: bool) returns (rd: word)
      modifies this
      ensures var out := Operate(op, op1, Shifted(op2, old(c)), old(Psr()));
              rd == out.value && Psr() == if setFlags then out.f else old(Psr())
    {
      hide LogicValue, ArithmeticOutcome, Negative, ShiftedTop;
      if IsLogic(op) {
        rd := Logic(op, op1, op2);
      } else {
        var macros;
        rd, macros := Arithmetic(op, op1, op2);
        if setFlags {
          v := macros.v;
          c := macros.c;
        }
      }
      TopBitTests(rd);
      if setFlags {
        z := rd == 0;
        n := ShiftedTop(rd);
      }
    }

    /** exec_dp: the second operand is a shifted register. */
    method ExecDp(i: Inst)
      requires Valid() && i.Dp? && Supported(i)
      modifies this, r
      ensures Valid() && State() == Interpret(i, old(State()))
    {
      hide InterpretedShift, ShiftByImm, Operate, NextPc, OperandReg, ShiftReg, ShiftsByRegister, ShiftType, ShiftAmount;
      ghost var st := State();
      var op1 := r[i.rn];
      var rm := r[OperandReg(i.operand2)];
      var t := ShiftType(i.operand2);
      var op2;
      if ShiftsByRegister(i.operand2) {
        op2 := RegisterShift(t, r[ShiftReg(i.operand2)], rm, IsLogic(i.op) && i.s);
      } else {
        op2 := ImmediateShift(t, ShiftAmount(i.operand2), rm, IsLogic(i.op) && i.s);
      }
      OnlyLogicTakesCarry(i.op, op1, InterpretedOperand2(i, st), st.f, i.s);
      var rd := Compute(i.op, op1, op2, i.s);
      WriteBack(i, rd);
    }

    /** The common tail: write the destination unless it is a comparison, then step the pc. */
    method WriteBack(i: Inst, rd: word)
      requires Valid() && !i.Mul?
      modifies r
      ensures Valid()
      ensures var written := if WritesRd(i.op) then old(r[..])[i.rd := rd] else old(r[..]);
              r[..] == written[PC := NextPc(written[PC])]
    {
      hide NextPc;
      if WritesRd(i.op) {
        r[i.rd] := rd;
      }
      r[PC] := NextPc(r[PC]);
    }

    /** exec_dp_imm: the second operand is a rotated byte. */
    method ExecDpImm(i: Inst)
      requires Valid() && i.DpImm? && Supported(i)
      modifies this, r
      ensures Valid() && State() == Interpret(i, old(State()))
    {
      hide Operate, Ror, Negative, RawCarry, ImmByte, ImmRotation, NextPc;
      ghost var st := State();
      var op1 := r[i.rn];
      var amount := ImmRotation(i.operand2);
      var op2 := Ror(ImmByte(i.operand2), amount);
      if i.s && amount != 0 {
        EarlyCarryBit(i.operand2);
        c := RawCarry(i.operand2);
      }
      ghost var early := EarlyCarry(i, st);
      OnlyLogicTakesCarry(i.op, op1, Operand2(i, early), early.f, i.s);
      var rd := Compute(i.op, op1, op2, i.s);
      WriteBack(i, rd);
    }

    /** exec_mul: MUL and MLA. */
    method ExecMul(i: Inst)
      requires Valid() && i.Mul? && Supported(i)
      modifies this, r
      ensures Valid() && State() == Interpret(i, old(State()))
    {
      hide Times, Add, Negative, ShiftedTop, NextPc, Bit, TestTop;
      var rd := if i.accumulate then Add(Times(r[i.rm], r[i.rs]), r[i.rn]) else Times(r[i.rm], r[i.rs]);
      r[i.rd] := rd;
      if i.s {
        TopBitTests(rd);
        z := rd == 0;
        n := ShiftedTop(rd);
      }
      r[PC] := NextPc(r[PC]);
    }
  }
}
