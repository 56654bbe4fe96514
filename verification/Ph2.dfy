/**
 The recompiler's intermediate code: ph2 instructions over numbered temporaries, and
 what they do to the temporaries, the ARM registers and the ARM flags
 (docs/html/design2.html).
 */
module Ph2 {
  import opened Words
  import opened Alu
  import Arm

  type Temp = nat

  /** Temporary numbers are stored in sixteen-bit instruction fields. */
  const FIELD_LIMIT := 0x1_0000

  function Field(t: Temp): Temp {
    t % FIELD_LIMIT
  }

  /** A field keeps sixteen bits of a number. */
  lemma FieldExactly(t: Temp)
    ensures t < 0x1_0000 ==> Field(t) == t
    ensures Field(t + 0x1_0000) == Field(t) < 0x1_0000
  {
    var q := t / 0x1_0000;
    assert t + 0x1_0000 == 0x1_0000 * (q + 1) + t % 0x1_0000;
  }

  // ---------- flag masks ----------

  /** A set of flags (a four-bit mask in the source). */
  datatype FlagMask = Mask(n: bool, z: bool, c: bool, v: bool)

  const PH_C := Mask(false, false, true, false)
  const PH_NZ := Mask(true, true, false, false)
  const PH_ALL := Mask(true, true, true, true)
  const PH_NONE := Mask(false, false, false, false)

  // ---------- instructions ----------

  /** The ARM-side registers a ph2 instruction can name (r0-r14, three views of r15, status, clock). */
  const NUMREG := 22

  datatype BinaryOp = Shift(t: Arm.Shift) | AND | OR | EOR | ADD | ADC | SUB | SBC | MUL

  datatype UnaryOp = RRX | MOV | NOT

  datatype TestOp = TEQ | TST | CMP | CMN

  datatype Instr =
    | Const(dest: Temp, imm: word)
    | ConstB(dest: Temp, imm: word)
    | Fetch(dest: Temp, reg: nat)
    | Commit(reg: nat, src: Temp)
    | Assoc(reg: nat, src: Temp)
    | Binary(op2: BinaryOp, dest: Temp, src1: Temp, src2: Temp)
    | Unary(op1: UnaryOp, dest: Temp, src: Temp)
    | Test(test: TestOp, src1: Temp, src2: Temp)
    | FExpect(mask: FlagMask)
    | FCommit(have: FlagMask, need: FlagMask, pred: set<nat>)
    | NFCommit(have: FlagMask, npred: set<nat>)
    | FEnsure(mask: FlagMask)
    | FWrite(mask: FlagMask, src: Temp)
    | Sync

  predicate HasDest(i: Instr) {
    i.Const? || i.ConstB? || i.Fetch? || i.Binary? || i.Unary?
  }

  /** pheta_getused: the temporaries an instruction reads, in operand order. */
  function Sources(i: Instr): seq<Temp> {
    match i
    case Commit(_, src) => [src]
    case Assoc(_, src) => [src]
    case FWrite(_, src) => [src]
    case Binary(_, _, a, b) => [a, b]
    case Unary(_, _, a) => [a]
    case Test(_, a, b) => [a, b]
    case _ => []
  }

  // ---------- meaning ----------

  /** `native` holds the flags of the last operation, waiting for an FCOMMIT. */
  datatype Machine = Machine(temps: map<Temp, word>, regs: seq<word>, f: Flags, native: Flags)

  function Get(p: Machine, t: Temp): word {
    if t in p.temps then p.temps[t] else 0
  }

  function Put(p: Machine, t: Temp, v: word): Machine {
    p.(temps := p.temps[t := v])
  }

  /** Flags named in `mask` from `a`, the others from `b`. */
  function Merge(mask: FlagMask, a: Flags, b: Flags): Flags {
    Flags(if mask.n then a.n else b.n,
          if mask.z then a.z else b.z,
          if mask.c then a.c else b.c,
          if mask.v then a.v else b.v)
  }

  /** Native shifts use the low five bits of the count; a zero count keeps the carry. */
  function NativeShift(t: Arm.Shift, x: word, count: word, carry: bool): Arm.Shifted {
    var k := count & 31;
    if k == 0 then Arm.Shifted(x, carry) else Arm.ShiftByImm(t, k, x, carry)
  }

  /** By a multiple of 32 they leave value and carry. */
  lemma WholeTurn(t: Arm.Shift, x: word, n: word, carry: bool)
    ensures NativeShift(t, x, n << 5, carry) == Arm.Shifted(x, carry)
  {
    NoLowBits(n);
  }

  lemma NoLowBits(n: word)
    ensures (n << 5) & 31 == 0
  {
  }

  function SignAndZero(v: word, native: Flags): Flags {
    Flags(Negative(v), v == 0, native.c, native.v)
  }

  /** Value and native flags of a two-operand instruction. */
  function BinaryOutcome(op: BinaryOp, a: word, b: word, f: Flags, native: Flags): Arm.Outcome {
    match op
    case Shift(t) =>
      var s := NativeShift(t, a, b, native.c);
      Arm.LogicOutcome(s.value, s.carry, native)
    case AND => Arm.Outcome(And(a, b), SignAndZero(And(a, b), native))
    case OR => Arm.Outcome(Orr(a, b), SignAndZero(Orr(a, b), native))
    case EOR => Arm.Outcome(Eor(a, b), SignAndZero(Eor(a, b), native))
    case ADD => Arm.SumOutcome(a, b, false)
    case ADC => Arm.SumOutcome(a, b, f.c)
    case SUB => Arm.DifferenceOutcome(a, b, true)
    case SBC => Arm.DifferenceOutcome(a, b, f.c)
    case MUL => Arm.Outcome(Times(a, b), SignAndZero(Times(a, b), native))
  }

  function UnaryOutcome(op: UnaryOp, a: word, f: Flags, native: Flags): Arm.Outcome {
    match op
    case RRX => Arm.LogicOutcome(Rrx(a, f.c), Bit(a, 0), native)
    case MOV => Arm.Outcome(a, SignAndZero(a, native))
    case NOT => Arm.Outcome(Not(a), SignAndZero(Not(a), native))
  }

  function TestFlags(op: TestOp, a: word, b: word, native: Flags): Flags {
    match op
    case TEQ => SignAndZero(Eor(a, b), native)
    case TST => SignAndZero(And(a, b), native)
    case CMP => Arm.DifferenceOutcome(a, b, true).f
    case CMN => Arm.SumOutcome(a, b, false).f
  }

  /** One instruction.  An FCOMMIT stores into the ARM flags those named by `stored(i)`. */
  function StepStoring(i: Instr, stored: FlagMask, p: Machine): (q: Machine)
    ensures |q.regs| == |p.regs|
  {
    match i
    case Const(d, imm) => Put(p, d, imm)
    case ConstB(d, imm) => Put(p, d, imm)
    case Fetch(d, r) => Put(p, d, if r < |p.regs| then p.regs[r] else 0)
    case Commit(r, s) => if r < |p.regs| then p.(regs := p.regs[r := Get(p, s)]) else p
    case Binary(op, d, a, b) =>
      var out := BinaryOutcome(op, Get(p, a), Get(p, b), p.f, p.native);
      Put(p, d, out.value).(native := out.f)
    case Unary(op, d, a) =>
      var out := UnaryOutcome(op, Get(p, a), p.f, p.native);
      Put(p, d, out.value).(native := out.f)
    case Test(op, a, b) => p.(native := TestFlags(op, Get(p, a), Get(p, b), p.native))
    case FCommit(_, _, _) => p.(f := Merge(stored, p.native, p.f))
    case FWrite(m, s) =>
      var b := Get(p, s) != 0;
      p.(f := Merge(m, Flags(b, b, b, b), p.f))
    case _ => p
  }

  /** As translated, an FCOMMIT stores every flag its operation has. */
  function Step(i: Instr, p: Machine): (q: Machine)
    ensures |q.regs| == |p.regs|
  {
    StepStoring(i, if i.FCommit? then i.have else PH_NONE, p)
  }

  function Exec(code: seq<Instr>, p: Machine): (q: Machine)
    ensures |q.regs| == |p.regs|
  {
    if code == [] then p else Step(code[|code| - 1], Exec(code[..|code| - 1], p))
  }

  lemma ExecAppend(code: seq<Instr>, i: Instr, p: Machine)
    ensures Exec(code + [i], p) == Step(i, Exec(code, p))
  {
    hide Step;
    var all := code + [i];
    assert all[..|all| - 1] == code && all[|all| - 1] == i;
  }
}
