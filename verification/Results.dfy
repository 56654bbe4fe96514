/**
 What a data-processing or multiply instruction leaves, said by truth tables, exact
 numbers and instruction bits, beside the functions that compute it.
 */
module Results {
  import opened Words
  import opened Alu
  import opened Arm
  import opened Interpreter

  // ---------- the second operand, bit by bit ----------

  /** The operand field of `Rm, <shift> #k`. */
  ghost function ByAmount(k: bv5, t: bv2, m: bv4): bv12 {
    (k as bv12 << 7) | (t as bv12 << 5) | (m as bv12)
  }

  /** The operand field of `Rm, <shift> Rs`. */
  ghost function ByRegister(n: bv4, t: bv2, m: bv4): bv12 {
    (n as bv12 << 8) | (t as bv12 << 5) | 16 | (m as bv12)
  }

  /** The operand field of an immediate byte, rotated right by twice `turn`. */
  ghost function RotatedByte(turn: bv4, byte: bv8): bv12 {
    (turn as bv12 << 8) | (byte as bv12)
  }

  ghost predicate IsShift(t: bv2, shift: Shift) {
    match shift
    case LSL => t == 0
    case LSR => t == 1
    case ASR => t == 2
    case ROR => t == 3
  }

  lemma LowReg(o: bv12, m: bv4)
    requires o & 15 == m as bv12
    ensures OperandReg(o) == m as int
  {
    assert (o & 15) as bv4 == m;
  }

  /** The decoder takes an encoded operand apart again. */
  lemma AmountDecodes(k: bv5, t: bv2, m: bv4)
    ensures var o := ByAmount(k, t, m);
            && !ShiftsByRegister(o) && OperandReg(o) == m as int
            && IsShift(t, ShiftType(o)) && ShiftAmount(o) == k as word
  {
    hide OperandReg;
    LowReg(ByAmount(k, t, m), m);
  }

  lemma RegisterDecodes(n: bv4, t: bv2, m: bv4)
    ensures var o := ByRegister(n, t, m);
            && ShiftsByRegister(o) && OperandReg(o) == m as int
            && IsShift(t, ShiftType(o)) && ShiftReg(o) == n as int
  {
    hide OperandReg;
    LowReg(ByRegister(n, t, m), m);
    assert ((ByRegister(n, t, m) >> 8) as bv4) == n;
  }

  lemma ByteDecodes(turn: bv4, byte: bv8)
    ensures var o := RotatedByte(turn, byte);
            && ImmByte(o) == byte as word && ImmRotation(o) == 2 * (turn as word)
  {
  }

  /** Bit `k + n` of a rotated word, counted round. */
  ghost function Around(k: word, n: word): word
    requires k < 32 && n < 256
  {
    (k + n) & 31
  }

  lemma Turned(x: word, n: word, k: word)
    requires n < 32 && k < 32
    ensures Around(k, n) < 32
    ensures Bit(Ror(x, n), k) <==> Bit(x, Around(k, n))
  {
    hide Bit, Ror;
    RorBits(x, n, k);
    assert Around(k, n) == if k + n < 32 then k + n else k + n - 32;
  }

  lemma AllOnes(k: word)
    requires k < 32
    ensures Bit(0xffff_ffff, k)
  {
  }

  /** Bit `k` of `x` shifted by `n`, which may be more than a word is wide. */
  ghost predicate ShiftedBit(t: Shift, x: word, n: word, k: word)
    requires n < 256 && k < 32
  {
    match t
    case LSL => k >= n && Bit(x, k - n)
    case LSR => k + n < 32 && Bit(x, k + n)
    case ASR => Bit(x, if k + n < 32 then k + n else 31)
    case ROR => Bit(x, Around(k, n))
  }

  lemma LslShifted(x: word, n: word, k: word)
    requires n < 256 && k < 32
    ensures ShiftedBit(LSL, x, n, k) <==> Bit(if n < 32 then Lsl(x, n) else 0, k)
  {
    hide Bit, Lsl;
    ZeroBits(k);
    if n < 32 { LslBits(x, n, k); }
  }

  lemma LsrShifted(x: word, n: word, k: word)
    requires n < 256 && k < 32
    ensures ShiftedBit(LSR, x, n, k) <==> Bit(if n < 32 then Lsr(x, n) else 0, k)
  {
    hide Bit, Lsr;
    ZeroBits(k);
    if n < 32 { LsrBits(x, n, k); }
  }

  lemma FarBelow(n: word, k: word)
    requires 32 <= n < 256 && k < 32
    ensures (if k + n < 32 then k + n else 31) == 31
  {
  }

  lemma AsrShifted(x: word, n: word, k: word)
    requires n < 256 && k < 32
    ensures ShiftedBit(ASR, x, n, k)
       <==> Bit(if n < 32 then Asr(x, n) else if Negative(x) then 0xffff_ffff else 0, k)
  {
    hide Bit, Asr;
    if n < 32 {
      AsrBits(x, n, k);
    } else {
      FarBelow(n, k);
      ZeroBits(k);
      AllOnes(k);
    }
  }

  lemma RorShifted(x: word, n: word, k: word)
    requires n < 256 && k < 32
    ensures ShiftedBit(ROR, x, n, k) <==> Bit(Ror(x, n & 31), k)
  {
    hide Bit, Ror;
    Turned(x, n & 31, k);
  }

  lemma NoneShifted(t: Shift, x: word, k: word)
    requires k < 32
    ensures ShiftedBit(t, x, 0, k) <==> Bit(x, k)
  {
    hide Bit;
  }

  /** The bits a shift by an immediate gives; LSR and ASR read amount 0 as 32, ROR as RRX. */
  lemma ShiftByImmBits(t: Shift, n: word, rm: word, carry: bool, k: word)
    requires n < 32 && k < 32
    ensures Bit(ShiftByImm(t, n, rm, carry).value, k) <==>
            if n > 0 || t == LSL then ShiftedBit(t, rm, n, k)
            else if t == ROR then (if k == 31 then carry else Bit(rm, k + 1))
            else ShiftedBit(t, rm, 32, k)
  {
    hide Bit, Lsl, Lsr, Asr, Ror, Rrx, ShiftedBit;
    NoneShifted(t, rm, k);
    var m := if n == 0 then 32 else n;
    match t {
      case LSL => LslShifted(rm, m, k);
      case LSR => LsrShifted(rm, m, k);
      case ASR => AsrShifted(rm, m, k);
      case ROR => RorShifted(rm, n, k); RrxBits(rm, carry, k); Small(n);
    }
  }

  lemma Small(n: word)
    requires n < 32
    ensures n & 31 == n
  {
  }

  /** The last bit a shift by an immediate drops; LSL by nothing leaves the carry. */
  lemma ShiftByImmCarry(t: Shift, n: word, rm: word, carry: bool)
    requires n < 32
    ensures var out, m := ShiftByImm(t, n, rm, carry).carry, if n == 0 then 32 else n;
            out == match t
                   case LSL => if n == 0 then carry else Bit(rm, 32 - n)
                   case LSR => Bit(rm, m - 1)
                   case ASR => Bit(rm, m - 1)
                   case ROR => Bit(rm, if n == 0 then 0 else n - 1)
  {
    hide Bit, Lsl, Lsr, Asr, Ror, Rrx;
  }

  /** The bits a shift by the low byte of a register gives. */
  lemma ShiftByRegBits(t: Shift, rs: word, rm: word, carry: bool, k: word)
    requires k < 32
    ensures Bit(ShiftByReg(t, rs, rm, carry).value, k) <==> ShiftedBit(t, rm, rs & 0xff, k)
  {
    hide Bit, Lsl, Lsr, Asr, Ror, ShiftedBit;
    var n := rs & 0xff;
    NoneShifted(t, rm, k);
    match t {
      case LSL => LslShifted(rm, n, k);
      case LSR => LsrShifted(rm, n, k);
      case ASR => AsrShifted(rm, n, k);
      case ROR => RorShifted(rm, n, k); NotTurned(rm, k);
    }
  }

  lemma NotTurned(x: word, k: word)
    requires k < 32
    ensures Bit(Ror(x, 0), k) == Bit(x, k)
  {
    hide Bit;
  }

  /** The last bit it drops. */
  lemma ShiftByRegCarry(t: Shift, rs: word, rm: word, carry: bool)
    ensures var out, n := ShiftByReg(t, rs, rm, carry).carry, rs & 0xff;
            out == if n == 0 then carry else match t
                   case LSL => n <= 32 && Bit(rm, 32 - n)
                   case LSR => n <= 32 && Bit(rm, n - 1)
                   case ASR => Bit(rm, if n < 32 then n - 1 else 31)
                   case ROR => Bit(rm, (n - 1) & 31)
  {
    hide Bit, Lsl, Lsr, Asr, Ror;
  }

  lemma RotatedImmBits(turn: bv4, byte: bv8, carry: bool, k: word)
    requires k < 32
    ensures var b, n := RotatedImm(RotatedByte(turn, byte), carry), 2 * (turn as word);
            && (Bit(b.value, k) <==> Bit(byte as word, Around(k, n)))
            && b.carry == if n == 0 then carry else Bit(b.value, 31)
  {
    hide Bit, Ror, ImmByte, ImmRotation;
    ByteDecodes(turn, byte);
    Turned(byte as word, 2 * (turn as word), k);
  }

  /** The operand of an encoded instruction: which register, how far, by which shift. */
  lemma AmountOperand(i: Inst, st: ArmState, n: bv5, t: bv2, m: bv4)
    requires Valid(st) && i.Dp? && i.operand2 == ByAmount(n, t, m)
    ensures IsShift(t, ShiftType(i.operand2))
    ensures Operand2(i, st) == ShiftByImm(ShiftType(i.operand2), n as word, st.r[m as int], st.f.c)
  {
    hide ShiftsByRegister, OperandReg, ShiftType, ShiftAmount, ShiftByImm, ByAmount;
    AmountDecodes(n, t, m);
  }

  lemma RegisterOperand(i: Inst, st: ArmState, n: bv4, t: bv2, m: bv4)
    requires Valid(st) && i.Dp? && i.operand2 == ByRegister(n, t, m)
    ensures IsShift(t, ShiftType(i.operand2))
    ensures Operand2(i, st) == ShiftByReg(ShiftType(i.operand2), st.r[n as int], st.r[m as int], st.f.c)
  {
    hide ShiftsByRegister, OperandReg, ShiftReg, ShiftType, ShiftByReg, ByRegister;
    RegisterDecodes(n, t, m);
  }

  /**
   The instructions covered, by their encoding: none writes r15, comparisons set the flags, and
   with a shift by register neither operand is r15.
   */
  lemma CoveredExactly(i: Inst, k: bv5, n: bv4, t: bv2, m: bv4)
    ensures i.Mul? ==> (Supported(i) <==> i.rd != 15)
    ensures i.DpImm? ==> (Supported(i) <==> i.rd != 15 && (i.op in {TST, TEQ, CMP, CMN} ==> i.s))
    ensures i.Dp? && i.operand2 == ByAmount(k, t, m) ==>
              (Supported(i) <==> i.rd != 15 && (i.op in {TST, TEQ, CMP, CMN} ==> i.s))
    ensures i.Dp? && i.operand2 == ByRegister(n, t, m) ==>
              (Supported(i) <==> i.rd != 15 && (i.op in {TST, TEQ, CMP, CMN} ==> i.s) && i.rn != 15 && m != 15)
  {
    hide ShiftsByRegister, OperandReg, ShiftReg, ShiftType, ShiftAmount, ByAmount, ByRegister;
    AmountDecodes(k, t, m);
    RegisterDecodes(n, t, m);
    RegisterFifteen(m);
  }

  lemma RegisterFifteen(m: bv4)
    ensures m as int == 15 <==> m == 15
  {
  }

  // ---------- the logical operations, bit by bit ----------

  /** The truth table of a logical operation. */
  ghost predicate LogicBit(op: DpOp, x: bool, y: bool) {
    match op
    case AND | TST => x && y
    case EOR | TEQ => x != y
    case ORR => x || y
    case BIC => x && !y
    case MOV => y
    case MVN => !y
    case _ => false
  }

  ghost predicate Logical(op: DpOp) {
    op in {AND, EOR, TST, TEQ, ORR, MOV, BIC, MVN}
  }

  lemma LogicValueBits(op: DpOp, a: word, b: word, k: word)
    requires Logical(op) && k < 32
    ensures IsLogic(op)
    ensures Bit(LogicValue(op, a, b), k) <==> LogicBit(op, Bit(a, k), Bit(b, k))
  {
    hide Bit, And, Orr, Eor, Not;
    AndBits(a, b, k);
    AndBits(a, Not(b), k);
    OrrBits(a, b, k);
    EorBits(a, b, k);
    NotBits(b, k);
  }

  lemma LogicFlags(op: DpOp, a: word, b: word)
    requires Logical(op)
    ensures IsLogic(op)
    ensures Negative(LogicValue(op, a, b)) <==> LogicBit(op, Bit(a, 31), Bit(b, 31))
    ensures LogicValue(op, a, b) == 0 <==> forall k: word :: k < 32 ==> !LogicBit(op, Bit(a, k), Bit(b, k))
  {
    hide Bit, LogicBit, LogicValue;
    LogicValueBits(op, a, b, 31);
    var value := LogicValue(op, a, b);
    if value == 0 {
      forall k: word | k < 32 ensures !LogicBit(op, Bit(a, k), Bit(b, k)) {
        LogicValueBits(op, a, b, k);
        ZeroBits(k);
      }
    } else {
      var k := SomeBit(value);
      LogicValueBits(op, a, b, k);
    }
  }

  /** The step of either machine is one execution, with the architecture's operand. */
  lemma RanAsOne(i: Inst, st: ArmState, st': ArmState) returns (b: Shifted, c: bool)
    requires Valid(st) && !i.Mul?
    requires st' == Step(i, st) || st' == Interpret(i, st)
    ensures b.value == Operand2(i, st).value
    ensures st' == Execute(i, st.(f := st.f.(c := c)), b)
    ensures st' == Step(i, st) || !i.s ==> c == st.f.c
    ensures st' == Step(i, st) ==> b == Operand2(i, st)
  {
    hide Execute, ShiftByImm, ShiftByReg, InterpretedShift, RotatedImm,
         ShiftType, ShiftReg, OperandReg, ShiftAmount, ShiftsByRegister, ImmRotation;
    if st' == Step(i, st) {
      b, c := Operand2(i, st), st.f.c;
    } else if i.Dp? {
      b, c := InterpretedOperand2(i, st), st.f.c;
      var o := i.operand2;
      if ShiftsByRegister(o) {
        ShiftAgreesExactly(ShiftType(o), st.r[ShiftReg(o)], st.r[OperandReg(o)], st.f.c);
      }
    } else {
      b, c := Operand2(i, st), EarlyCarry(i, st).f.c;
    }
  }

  lemma StepAdvances(i: Inst, st: ArmState, b: Shifted)
    requires Valid(st) && i.rd != 15
    ensures var st' := if i.Mul? then Multiply(i, st) else Execute(i, st, b);
            && Valid(st')
            && (forall g: Reg :: g != i.rd && g != 15 ==> st'.r[g] == st.r[g])
            && st'.r[15] == NextPc(st.r[15])
            && (!i.s ==> st'.f == st.f)
  {
    hide Product, Negative, Operate, NextPc;
  }

  /** What an instruction never changes. */
  lemma OthersStay(i: Inst, st: ArmState, st': ArmState)
    requires Valid(st) && i.rd != 15
    requires st' == Step(i, st) || st' == Interpret(i, st)
    ensures Valid(st')
    ensures forall g: Reg :: g != i.rd && g != 15 ==> st'.r[g] == st.r[g]
    ensures st'.r[15] == st.r[15] + 4
    ensures !i.s ==> st'.f == st.f
  {
    if i.Mul? {
      hide Multiply;
      StepAdvances(i, st, Shifted(0, false));
    } else {
      hide Step, Interpret, Operand2, Execute;
      var b, c := RanAsOne(i, st, st');
      StepAdvances(i, st.(f := st.f.(c := c)), b);
    }
  }

  lemma LogicExecuted(i: Inst, st: ArmState, st': ArmState)
    requires Valid(st) && !i.Mul? && i.rd != 15 && IsLogic(i.op)
    requires st' == Step(i, st) || st' == Interpret(i, st)
    ensures Valid(st')
    ensures var value := LogicValue(i.op, st.r[i.rn], Operand2(i, st).value);
            && st'.r[i.rd] == (if i.op in {TST, TEQ} then st.r[i.rd] else value)
            && (i.s ==> st'.f.n == Negative(value) && st'.f.z == (value == 0) && st'.f.v == st.f.v)
  {
    hide Operand2, InterpretedOperand2, Step, Interpret, LogicValue, Negative, NextPc;
    var b, c := RanAsOne(i, st, st');
  }

  /**
   Each logical operation by its truth table, in interpreter and architecture alike: the
   bits of the result, and N and Z.
   */
  lemma LogicExactly(i: Inst, st: ArmState, st': ArmState)
    requires Valid(st) && !i.Mul? && i.rd != 15 && Logical(i.op)
    requires st' == Step(i, st) || st' == Interpret(i, st)
    ensures Valid(st')
    ensures var a, b := st.r[i.rn], Operand2(i, st).value;
            && (i.op in {TST, TEQ} ==> st'.r[i.rd] == st.r[i.rd])
            && (i.op !in {TST, TEQ} ==>
                  forall k: word :: k < 32 ==> (Bit(st'.r[i.rd], k) <==> LogicBit(i.op, Bit(a, k), Bit(b, k))))
            && (i.s ==>
                  && (st'.f.n <==> LogicBit(i.op, Bit(a, 31), Bit(b, 31)))
                  && (st'.f.z <==> forall k: word :: k < 32 ==> !LogicBit(i.op, Bit(a, k), Bit(b, k)))
                  && st'.f.v == st.f.v)
  {
    hide Bit, LogicBit, LogicValue, Negative, Operand2, InterpretedOperand2, Step, Interpret;
    var a, b := st.r[i.rn], Operand2(i, st).value;
    LogicFlags(i.op, a, b);
    LogicExecuted(i, st, st');
    forall k: word | k < 32 ensures Bit(LogicValue(i.op, a, b), k) <==> LogicBit(i.op, Bit(a, k), Bit(b, k)) {
      LogicValueBits(i.op, a, b, k);
    }
  }

  /** The architecture's C after a logical operation is the shifter's. */
  lemma LogicCarry(i: Inst, st: ArmState)
    requires Valid(st) && !i.Mul? && Logical(i.op)
    ensures i.s ==> Step(i, st).f.c == Operand2(i, st).carry
  {
    hide Operand2, LogicValue, Negative, NextPc;
  }

  // ---------- the arithmetic operations, by their numbers ----------

  /** The number a sum or difference stands for, of operands `a` and `b` and a carry of 0 or 1. */
  ghost function Exact(op: DpOp, a: int, b: int, carry: int): int {
    match op
    case ADD | CMN => a + b
    case ADC => a + b + carry
    case SUB | CMP => a - b
    case RSB => b - a
    case SBC => a - b + carry - 1
    case RSC => b - a + carry - 1
    case _ => 0
  }

  ghost predicate Summing(op: DpOp) {
    op in {ADD, ADC, CMN}
  }

  lemma SignAndNothing(y: word)
    ensures Negative(y) == (Unsigned(y) >= 0x8000_0000)
    ensures (y == 0) == (Unsigned(y) == 0)
  {
    hide Unsigned, Negative;
    NegativeIsLarge(y);
    SmallValues();
    if Unsigned(y) == 0 { ZeroValue(y); }
  }

  lemma SumExactly(a: word, b: word, carry: bool, exact: int, signed: int)
    requires exact == Unsigned(a) + Unsigned(b) + if carry then 1 else 0
    requires signed == Signed(a) + Signed(b) + if carry then 1 else 0
    ensures var out := SumOutcome(a, b, carry);
            && Unsigned(out.value) == exact % MODULUS
            && out.f.n == (exact % MODULUS >= 0x8000_0000)
            && out.f.z == (exact % MODULUS == 0)
            && out.f.c == (exact >= MODULUS)
            && out.f.v == !(-0x8000_0000 <= signed < 0x8000_0000)
  {
    hide SumWord, Unsigned, Signed, Negative;
    var y := SumWord(a, b, carry);
    SumValue(a, b, carry);
    NegativeIsLarge(y);
    NegativeIsLarge(a);
    NegativeIsLarge(b);
    SignAndNothing(y);
  }

  lemma DifferenceExactly(a: word, b: word, carry: bool, exact: int, signed: int)
    requires exact == Unsigned(a) - Unsigned(b) - if carry then 0 else 1
    requires signed == Signed(a) - Signed(b) - if carry then 0 else 1
    ensures var out := DifferenceOutcome(a, b, carry);
            && Unsigned(out.value) == exact % MODULUS
            && out.f.n == (exact % MODULUS >= 0x8000_0000)
            && out.f.z == (exact % MODULUS == 0)
            && out.f.c == (exact >= 0)
            && out.f.v == !(-0x8000_0000 <= signed < 0x8000_0000)
  {
    hide DifferenceWord, Unsigned, Signed, Negative;
    var y := DifferenceWord(a, b, carry);
    DifferenceValue(a, b, carry);
    NegativeIsLarge(y);
    NegativeIsLarge(a);
    NegativeIsLarge(b);
    SignAndNothing(y);
  }

  lemma OutcomeExactly(op: DpOp, a: word, b: word, carry: bool, exact: int, signed: int)
    requires !Logical(op)
    requires exact == Exact(op, Unsigned(a), Unsigned(b), if carry then 1 else 0)
    requires signed == Exact(op, Signed(a), Signed(b), if carry then 1 else 0)
    ensures !IsLogic(op)
    ensures var out := ArithmeticOutcome(op, a, b, carry);
            && Unsigned(out.value) == exact % MODULUS
            && out.f.n == (exact % MODULUS >= 0x8000_0000)
            && out.f.z == (exact % MODULUS == 0)
            && out.f.c == (if Summing(op) then exact >= MODULUS else exact >= 0)
            && out.f.v == !(-0x8000_0000 <= signed < 0x8000_0000)
  {
    hide Unsigned, Signed, SumOutcome, DifferenceOutcome;
    match op {
      case ADD | CMN => SumExactly(a, b, false, exact, signed);
      case ADC => SumExactly(a, b, carry, exact, signed);
      case SUB | CMP => DifferenceExactly(a, b, true, exact, signed);
      case RSB => DifferenceExactly(b, a, true, exact, signed);
      case SBC => DifferenceExactly(a, b, carry, exact, signed);
      case RSC => DifferenceExactly(b, a, carry, exact, signed);
      case _ =>
    }
  }

  /**
   Each sum and difference by its exact number: the result is that number modulo 2^32, C is
   the carry out of a sum and the absence of a borrow, V says that the signed number does not fit.
   */
  lemma ArithmeticExactly(i: Inst, st: ArmState)
    requires Valid(st) && !i.Mul? && i.rd != 15 && !Logical(i.op)
    ensures var st', a, b, carry := Step(i, st), st.r[i.rn], Operand2(i, st).value, if st.f.c then 1 else 0;
            var exact := Exact(i.op, Unsigned(a), Unsigned(b), carry);
            && (i.op in {CMP, CMN} ==> st'.r[i.rd] == st.r[i.rd])
            && (i.op !in {CMP, CMN} ==> Unsigned(st'.r[i.rd]) == exact % MODULUS)
            && (i.s ==>
                  && st'.f.n == (exact % MODULUS >= 0x8000_0000)
                  && st'.f.z == (exact % MODULUS == 0)
                  && st'.f.c == (if Summing(i.op) then exact >= MODULUS else exact >= 0)
                  && st'.f.v == !(-0x8000_0000 <= Exact(i.op, Signed(a), Signed(b), carry) < 0x8000_0000))
  {
    hide Unsigned, Signed, ArithmeticOutcome, Operand2, NextPc, Exact;
    var a, b, carry := st.r[i.rn], Operand2(i, st).value, if st.f.c then 1 else 0;
    OutcomeExactly(i.op, a, b, st.f.c,
                   Exact(i.op, Unsigned(a), Unsigned(b), carry), Exact(i.op, Signed(a), Signed(b), carry));
  }

  // ---------- multiplication ----------

  lemma SumReduced(p: word, z: word, m: nat)
    requires Unsigned(p) == m % MODULUS
    ensures Unsigned(Add(p, z)) == (m + Unsigned(z)) % MODULUS
  {
    hide Add, Unsigned, Negative;
    AddWraps(p, z);
    NegativeIsLarge(Add(p, z));
    Reduced(m, Unsigned(z), Unsigned(p), Unsigned(Add(p, z)));
  }

  lemma ProductExactly(x: word, y: word, z: word)
    ensures Unsigned(Times(x, y)) == Unsigned(x) * Unsigned(y) % MODULUS
    ensures Unsigned(Add(Times(x, y), z)) == (Unsigned(x) * Unsigned(y) + Unsigned(z)) % MODULUS
  {
    hide *;
    TimesValue(x, y);
    SumReduced(Times(x, y), z, Unsigned(x) * Unsigned(y));
  }

  /** MUL and MLA, in interpreter and architecture alike. */
  lemma MultiplyExactly(i: Inst, st: ArmState, st': ArmState)
    requires Valid(st) && i.Mul? && i.rd != 15
    requires st' == Step(i, st) || st' == Interpret(i, st)
    ensures Valid(st')
    ensures var exact := Unsigned(st.r[i.rm]) * Unsigned(st.r[i.rs]) + if i.accumulate then Unsigned(st.r[i.rn]) else 0;
            && Unsigned(st'.r[i.rd]) == exact % MODULUS
            && (i.s ==>
                  && st'.f.n == (exact % MODULUS >= 0x8000_0000)
                  && st'.f.z == (exact % MODULUS == 0)
                  && st'.f.c == st.f.c && st'.f.v == st.f.v)
  {
    hide Times, Add, Unsigned, Negative, NextPc;
    ProductExactly(st.r[i.rm], st.r[i.rs], st.r[i.rn]);
    SignAndNothing(Product(i, st));
  }

  lemma Reduced(m: nat, n: nat, p: nat, sum: nat)
    requires p == m % MODULUS && sum < MODULUS && Wraps(p + n, sum)
    ensures sum == (m + n) % MODULUS
  {
    assert m == MODULUS * (m / MODULUS) + p;
    assert m + n == MODULUS * (m / MODULUS) + (p + n);
  }
}
