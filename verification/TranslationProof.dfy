/**
 The translator is correct: running the ph2 code of a straight-line block, through the
 final write-back of the register cache, leaves r0-r14 and the flags exactly as the
 instructions would one at a time.
 */
module TranslationProof {
  import opened Words
  import opened Alu
  import Arm
  import opened Ph2
  import opened Translator

  // ---------- the simulation relation ----------

  /** Register `reg` has value `v`: in its cached temporary, or (if clean) in the register file. */
  ghost predicate Tracks(t: TState, p: Machine, reg: RegNo, v: word)
    requires WellFormed(t) && |p.regs| == NUMREG
  {
    if t.lbuf[reg] == -1 then p.regs[reg] == v
    else
      && t.lbuf[reg] < t.tempno
      && Get(p, t.lbuf[reg]) == v
      && (!t.dirty[reg] ==> p.regs[reg] == v)
  }

  /** The code emitted so far, run from `p0`, stands for ARM state `st`. */
  ghost predicate Simulates(t: TState, p0: Machine, st: Arm.ArmState) {
    && WellFormed(t) && t.tempno <= FIELD_LIMIT
    && |p0.regs| == NUMREG && Arm.Valid(st)
    && Exec(t.code, p0).f == st.f
    && forall r: RegNo :: r < Arm.PC ==> Tracks(t, Exec(t.code, p0), r, st.r[r])
  }

  /** `u` continues `t` with work on new temporaries only, and leaves the flags at `f`. */
  ghost predicate Extends(t: TState, u: TState, p0: Machine, f: Flags) {
    && u.lbuf == t.lbuf && u.dirty == t.dirty
    && t.tempno <= u.tempno <= FIELD_LIMIT
    && Exec(u.code, p0).regs == Exec(t.code, p0).regs
    && Exec(u.code, p0).f == f
    && forall k: Temp :: k < t.tempno ==> Get(Exec(u.code, p0), k) == Get(Exec(t.code, p0), k)
  }

  ghost predicate Holds(t: TState, p0: Machine, temp: Temp, v: word) {
    temp < t.tempno && Get(Exec(t.code, p0), temp) == v
  }

  lemma ExtendsTransitive(t: TState, u: TState, w: TState, p0: Machine, f: Flags, g: Flags)
    requires Extends(t, u, p0, f) && Extends(u, w, p0, g)
    ensures Extends(t, w, p0, g)
  {
  }

  lemma HoldsOn(t: TState, u: TState, p0: Machine, f: Flags, temp: Temp, v: word)
    requires Holds(t, p0, temp, v) && Extends(t, u, p0, f)
    ensures Holds(u, p0, temp, v)
  {
  }

  lemma SimulatesOn(t: TState, u: TState, p0: Machine, f: Flags, st: Arm.ArmState)
    requires Simulates(t, p0, st) && Extends(t, u, p0, f)
    ensures Simulates(u, p0, st.(f := f))
  {
    hide Exec;
    forall r: RegNo | r < Arm.PC ensures Tracks(u, Exec(u.code, p0), r, st.r[r]) {
      assert Tracks(t, Exec(t.code, p0), r, st.r[r]);
    }
  }

  // ---------- what each emission does ----------

  lemma EmitRuns(t: TState, i: Instr, p0: Machine)
    ensures Exec(Emit(t, i).code, p0) == Ph2.Step(i, Exec(t.code, p0))
  {
    hide Ph2.Step;
    ExecAppend(t.code, i, p0);
  }

  lemma ConstExtends(t: TState, p0: Machine, imm: word)
    requires t.tempno < FIELD_LIMIT
    ensures var f := Exec(t.code, p0).f;
            && Extends(t, EmitConst(t, imm), p0, f) && Holds(EmitConst(t, imm), p0, t.tempno, imm)
            && Extends(t, EmitConstB(t, imm), p0, f) && Holds(EmitConstB(t, imm), p0, t.tempno, imm)
  {
    hide Exec;
    EmitRuns(t, Const(t.tempno, imm), p0);
    EmitRuns(t, ConstB(t.tempno, imm), p0);
  }

  lemma EnsureExtends(t: TState, p0: Machine, mask: FlagMask)
    requires t.tempno <= FIELD_LIMIT
    ensures Extends(t, Emit(t, FEnsure(mask)), p0, Exec(t.code, p0).f)
    ensures Extends(t, Emit(t, FExpect(mask)), p0, Exec(t.code, p0).f)
  {
    hide Exec;
    EmitRuns(t, FEnsure(mask), p0);
    EmitRuns(t, FExpect(mask), p0);
  }

  /** A value-producing operation on its own. */
  lemma BinaryExtends(t: TState, p0: Machine, op: BinaryOp, a: Temp, b: Temp)
    requires a < t.tempno && b < t.tempno && t.tempno < FIELD_LIMIT
    ensures var p := Exec(t.code, p0);
            var out := BinaryOutcome(op, Get(p, a), Get(p, b), p.f, p.native);
            && EmitBinary(t, op, a, b) == Emit(t, Binary(op, t.tempno, a, b))
            && Extends(t, EmitBinary(t, op, a, b), p0, p.f)
            && Holds(EmitBinary(t, op, a, b), p0, t.tempno, out.value)
            && Exec(EmitBinary(t, op, a, b).code, p0).native == out.f
  {
    hide Exec, BinaryOutcome;
    EmitRuns(t, Binary(op, t.tempno, a, b), p0);
  }

  lemma UnaryExtends(t: TState, p0: Machine, op: UnaryOp, a: Temp)
    requires a < t.tempno && t.tempno < FIELD_LIMIT
    ensures var p := Exec(t.code, p0);
            var out := UnaryOutcome(op, Get(p, a), p.f, p.native);
            && EmitUnary(t, op, a) == Emit(t, Unary(op, t.tempno, a))
            && Extends(t, EmitUnary(t, op, a), p0, p.f)
            && Holds(EmitUnary(t, op, a), p0, t.tempno, out.value)
            && Exec(EmitUnary(t, op, a).code, p0).native == out.f
  {
    hide Exec, UnaryOutcome;
    EmitRuns(t, Unary(op, t.tempno, a), p0);
  }

  lemma ExpectRuns(t: TState, p0: Machine, mask: FlagMask)
    ensures Exec(Emit(t, FExpect(mask)).code, p0) == Exec(t.code, p0)
  {
    hide Exec;
    EmitRuns(t, FExpect(mask), p0);
  }

  lemma CommitFlagsExtends(t: TState, p0: Machine, have: FlagMask)
    requires t.tempno <= FIELD_LIMIT
    ensures var p := Exec(t.code, p0);
            Extends(t, Emit(t, FCommit(have, PH_NONE, {})), p0, Merge(have, p.native, p.f))
  {
    hide Merge;
    EmitRuns(t, FCommit(have, PH_NONE, {}), p0);
  }

  /** A bracketed two-operand instruction. */
  lemma BracketedBinary(t: TState, p0: Machine, flags: bool, have: FlagMask, op: BinaryOp, a: Temp, b: Temp)
    requires a < t.tempno && b < t.tempno && t.tempno < FIELD_LIMIT
    ensures var p := Exec(t.code, p0);
            var out := BinaryOutcome(op, Get(p, a), Get(p, b), p.f, p.native);
            var u := Bracketed(t, flags, have, Binary(op, Field(t.tempno), Field(a), Field(b)));
            && u.tempno == t.tempno + 1
            && Extends(t, u, p0, if flags then Merge(have, out.f, p.f) else p.f)
            && Holds(u, p0, t.tempno, out.value)
  {
    hide BinaryOutcome, Merge, Exec;
    if flags {
      var e := Emit(t, FExpect(have));
      ExpectRuns(t, p0, have);
      BinaryExtends(e, p0, op, a, b);
      CommitFlagsExtends(EmitBinary(e, op, a, b), p0, have);
    } else {
      BinaryExtends(t, p0, op, a, b);
    }
  }

  lemma BracketedUnary(t: TState, p0: Machine, flags: bool, have: FlagMask, op: UnaryOp, a: Temp)
    requires a < t.tempno && t.tempno < FIELD_LIMIT
    ensures var p := Exec(t.code, p0);
            var out := UnaryOutcome(op, Get(p, a), p.f, p.native);
            var u := Bracketed(t, flags, have, Unary(op, Field(t.tempno), Field(a)));
            && u.tempno == t.tempno + 1
            && Extends(t, u, p0, if flags then Merge(have, out.f, p.f) else p.f)
            && Holds(u, p0, t.tempno, out.value)
  {
    hide UnaryOutcome, Merge, Exec;
    if flags {
      var e := Emit(t, FExpect(have));
      ExpectRuns(t, p0, have);
      UnaryExtends(e, p0, op, a);
      CommitFlagsExtends(EmitUnary(e, op, a), p0, have);
    } else {
      UnaryExtends(t, p0, op, a);
    }
  }

  lemma BracketedTest(t: TState, p0: Machine, have: FlagMask, op: TestOp, a: Temp, b: Temp)
    requires a < t.tempno && b < t.tempno && t.tempno <= FIELD_LIMIT
    ensures var p := Exec(t.code, p0);
            var u := Bracketed(t, true, have, Test(op, Field(a), Field(b)));
            && u.tempno == t.tempno
            && Extends(t, u, p0, Merge(have, TestFlags(op, Get(p, a), Get(p, b), p.native), p.f))
  {
    hide TestFlags, Merge, Exec;
    var e := Emit(t, FExpect(have));
    ExpectRuns(t, p0, have);
    EmitRuns(e, Test(op, a, b), p0);
    CommitFlagsExtends(Emit(e, Test(op, a, b)), p0, have);
  }

  // ---------- facts about masks and shifts ----------

  lemma MergeMasks(g: Flags, f: Flags)
    ensures Merge(PH_C, g, f) == f.(c := g.c)
    ensures Merge(PH_NZ, g, f) == Flags(g.n, g.z, f.c, f.v)
    ensures Merge(PH_ALL, g, f) == g
  {
  }

  lemma LowFiveBits(k: word)
    requires 0 < k < 32
    ensures k & 31 == k
  {
  }

  /** A native shift by a small non-zero count is the ARM immediate shift. */
  lemma NativeIsImmediate(ty: Arm.Shift, x: word, k: word, c: bool, d: bool)
    requires 0 < k < 32
    ensures NativeShift(ty, x, k, c) == Arm.ShiftByImm(ty, k, x, d)
  {
    hide Lsl, Lsr, Asr, Ror, Rrx, Bit, Negative;
    LowFiveBits(k);
  }

  lemma AsrBy31(x: word)
    ensures Asr(x, 31) == if Negative(x) then 0xffff_ffff else 0
    ensures Bit(Asr(x, 31), 0) == Negative(x)
  {
  }

  lemma LslByOneCarry(x: word, c: bool)
    ensures Arm.ShiftByImm(Arm.LSL, 1, x, c).carry == Negative(x)
  {
  }

  // ---------- the shifter ----------

  lemma ShiftBracketCorrect(t: TState, p0: Machine, setC: bool, ty: Arm.Shift, a: Temp, b: Temp,
                            x: word, k: word, c: bool)
    requires t.tempno < FIELD_LIMIT && 0 < k < 32
    requires Holds(t, p0, a, x) && Holds(t, p0, b, k)
    ensures var f := Exec(t.code, p0).f;
            var s := Arm.ShiftByImm(ty, k, x, c);
            var (u, r) := ShiftBracket(t, setC, ty, a, b);
            && u.tempno == t.tempno + 1
            && Extends(t, u, p0, if setC then f.(c := s.carry) else f)
            && Holds(u, p0, r, s.value)
  {
    hide Exec, Bracketed, NativeShift, Arm.ShiftByImm, Merge, Negative;
    var p := Exec(t.code, p0);
    BracketedBinary(t, p0, setC, PH_C, BinaryOp.Shift(ty), a, b);
    NativeIsImmediate(ty, x, k, p.native.c, c);
    MergeMasks(BinaryOutcome(BinaryOp.Shift(ty), x, k, p.f, p.native).f, p.f);
  }

  /** `u` and `op2` come out of the shifter with operand `b`, started in `t` with flags `f`. */
  ghost predicate Shifts(t: TState, u: TState, p0: Machine, setC: bool, op2: Temp, b: Arm.Shifted) {
    var f := Exec(t.code, p0).f;
    Extends(t, u, p0, if setC then f.(c := b.carry) else f) && Holds(u, p0, op2, b.value)
  }

  /** Shifts by a non-zero immediate. */
  lemma PlainShift(t: TState, p0: Machine, ty: Arm.Shift, k: word, setC: bool, rm: Temp, x: word)
    requires 0 < k < 32 && Holds(t, p0, rm, x)
    requires TranslateShift(t, ty, k, setC, rm).0.tempno <= FIELD_LIMIT
    ensures var (u, op2) := TranslateShift(t, ty, k, setC, rm);
            Shifts(t, u, p0, setC, op2, Arm.ShiftByImm(ty, k, x, Exec(t.code, p0).f.c))
  {
    hide Exec, Bracketed, Arm.ShiftByImm, Extends, Holds, EmitConstB, RrxBracket, SignBitToCarry;
    var f := Exec(t.code, p0).f;
    var u := EmitConstB(t, k);
    var w := ShiftBracket(u, setC, ty, rm, t.tempno).0;
    TempNumbers(t, k);
    TempNumbersBracket(u, setC, ty, rm, t.tempno);
    ConstExtends(t, p0, k);
    HoldsOn(t, u, p0, f, rm, x);
    ExtendsFlags(t, u, p0, f);
    ShiftBracketCorrect(u, p0, setC, ty, rm, t.tempno, x, k, f.c);
    var s := Arm.ShiftByImm(ty, k, x, f.c);
    ExtendsTransitive(t, u, w, p0, f, if setC then f.(c := s.carry) else f);
  }

  lemma ExtendsFlags(t: TState, u: TState, p0: Machine, f: Flags)
    requires Extends(t, u, p0, f)
    ensures Exec(u.code, p0).f == f && u.tempno <= FIELD_LIMIT
  {
  }

  lemma TempNumbers(t: TState, k: word)
    ensures EmitConstB(t, k).tempno == t.tempno + 1 == EmitConst(t, k).tempno
  {
  }

  lemma TempNumbersBracket(t: TState, setC: bool, ty: Arm.Shift, a: Temp, b: Temp)
    ensures ShiftBracket(t, setC, ty, a, b) == (ShiftBracket(t, setC, ty, a, b).0, t.tempno)
    ensures ShiftBracket(t, setC, ty, a, b).0.tempno == t.tempno + 1
  {
  }

  /** LSL #0 is no shift at all. */
  lemma NoShift(t: TState, p0: Machine, setC: bool, rm: Temp, x: word)
    requires Holds(t, p0, rm, x) && t.tempno <= FIELD_LIMIT
    ensures var (u, op2) := TranslateShift(t, Arm.LSL, 0, setC, rm);
            Shifts(t, u, p0, setC, op2, Arm.ShiftByImm(Arm.LSL, 0, x, Exec(t.code, p0).f.c))
  {
    hide Exec;
  }

  /** LSR #0 means a shift by 32: the value is zero and the carry the top bit. */
  lemma LogicalShiftBy32(t: TState, p0: Machine, setC: bool, rm: Temp, x: word)
    requires Holds(t, p0, rm, x)
    requires TranslateShift(t, Arm.LSR, 0, setC, rm).0.tempno <= FIELD_LIMIT
    ensures var (u, op2) := TranslateShift(t, Arm.LSR, 0, setC, rm);
            Shifts(t, u, p0, setC, op2, Arm.ShiftByImm(Arm.LSR, 0, x, Exec(t.code, p0).f.c))
  {
    hide Exec, Bracketed, Extends, Holds, EmitConstB, ShiftBracket, RrxBracket, SignBitToCarry, Negative;
    var f := Exec(t.code, p0).f;
    var u := EmitConstB(t, 0);
    TempNumbers(t, 0);
    if setC {
      var v := EmitConstB(u, 1);
      TempNumbers(u, 1);
      var w := ShiftBracket(v, true, Arm.LSL, rm, u.tempno).0;
      TempNumbersBracket(v, true, Arm.LSL, rm, u.tempno);
      TempNumbers(w, 0);
      ConstExtends(t, p0, 0);
      HoldsOn(t, u, p0, f, rm, x);
      ExtendsFlags(t, u, p0, f);
      ConstExtends(u, p0, 1);
      HoldsOn(u, v, p0, f, rm, x);
      ExtendsFlags(u, v, p0, f);
      ShiftBracketCorrect(v, p0, true, Arm.LSL, rm, u.tempno, x, 1, f.c);
      LslByOneCarry(x, f.c);
      var g := f.(c := Negative(x));
      ExtendsTransitive(t, u, v, p0, f, f);
      ExtendsTransitive(t, v, w, p0, f, g);
      ExtendsFlags(v, w, p0, g);
      ConstExtends(w, p0, 0);
      ExtendsTransitive(t, w, EmitConstB(w, 0), p0, g, g);
    } else {
      TempNumbers(u, 0);
      ConstExtends(t, p0, 0);
      ExtendsFlags(t, u, p0, f);
      ConstExtends(u, p0, 0);
      ExtendsTransitive(t, u, EmitConstB(u, 0), p0, f, f);
    }
  }

  lemma SignBitCorrect(t: TState, p0: Machine, op2: Temp, v: word)
    requires Holds(t, p0, op2, v) && t.tempno + 2 <= FIELD_LIMIT
    ensures var u := SignBitToCarry(t, op2);
            && u.tempno == t.tempno + 2
            && Extends(t, u, p0, Exec(t.code, p0).f.(c := Bit(v, 0)))
  {
    hide Exec, Merge, Bit, Asr, Negative, NativeShift;
    var f := Exec(t.code, p0).f;
    var e := Emit(t, FExpect(PH_C));
    ExpectRuns(t, p0, PH_C);
    EnsureExtends(t, p0, PH_C);
    HoldsOn(t, e, p0, f, op2, v);
    var u := EmitConstB(e, 1);
    ConstExtends(e, p0, 1);
    HoldsOn(e, u, p0, f, op2, v);
    ExtendsTransitive(t, e, u, p0, f, f);
    var p := Exec(u.code, p0);
    BinaryExtends(u, p0, BinaryOp.Shift(Arm.ASR), op2, t.tempno);
    var w := EmitBinary(u, BinaryOp.Shift(Arm.ASR), op2, t.tempno);
    ExtendsTransitive(t, u, w, p0, f, f);
    NativeIsImmediate(Arm.ASR, v, 1, p.native.c, p.native.c);
    CommitFlagsExtends(w, p0, PH_C);
    MergeMasks(Exec(w.code, p0).native, f);
    ExtendsTransitive(t, w, SignBitToCarry(t, op2), p0, f, f.(c := Bit(v, 0)));
  }

  /** ASR #0 means a shift by 32: sign bits throughout. */
  lemma ArithmeticShiftBy32(t: TState, p0: Machine, setC: bool, rm: Temp, x: word)
    requires Holds(t, p0, rm, x)
    requires TranslateShift(t, Arm.ASR, 0, setC, rm).0.tempno <= FIELD_LIMIT
    ensures var (u, op2) := TranslateShift(t, Arm.ASR, 0, setC, rm);
            Shifts(t, u, p0, setC, op2, Arm.ShiftByImm(Arm.ASR, 0, x, Exec(t.code, p0).f.c))
  {
    hide Exec, Bracketed, Extends, Holds, EmitConstB, ShiftBracket, RrxBracket, SignBitToCarry,
         Negative, Asr, Bit;
    var f := Exec(t.code, p0).f;
    var u := EmitConstB(t, 0);
    var v := EmitConstB(u, 31);
    var (w, op2) := ShiftBracket(v, false, Arm.ASR, rm, u.tempno);
    TempNumbers(t, 0);
    TempNumbers(u, 31);
    TempNumbersBracket(v, false, Arm.ASR, rm, u.tempno);
    SignBitTemps(w, op2);
    ConstExtends(t, p0, 0);
    HoldsOn(t, u, p0, f, rm, x);
    ExtendsFlags(t, u, p0, f);
    ConstExtends(u, p0, 31);
    HoldsOn(u, v, p0, f, rm, x);
    ExtendsFlags(u, v, p0, f);
    ShiftBracketCorrect(v, p0, false, Arm.ASR, rm, u.tempno, x, 31, f.c);
    ExtendsTransitive(t, u, v, p0, f, f);
    ExtendsTransitive(t, v, w, p0, f, f);
    ExtendsFlags(v, w, p0, f);
    AsrBy31(x);
    if setC {
      var y := SignBitToCarry(w, op2);
      SignBitCorrect(w, p0, op2, Asr(x, 31));
      ExtendsTransitive(t, w, y, p0, f, f.(c := Negative(x)));
      HoldsOn(w, y, p0, f.(c := Negative(x)), op2, Asr(x, 31));
    }
  }

  lemma SignBitTemps(t: TState, op2: Temp)
    ensures SignBitToCarry(t, op2).tempno == t.tempno + 2
  {
  }

  /** ROR #0 means rotate right through the carry. */
  lemma RotateThroughCarry(t: TState, p0: Machine, setC: bool, rm: Temp, x: word)
    requires Holds(t, p0, rm, x)
    requires TranslateShift(t, Arm.ROR, 0, setC, rm).0.tempno <= FIELD_LIMIT
    ensures var (u, op2) := TranslateShift(t, Arm.ROR, 0, setC, rm);
            Shifts(t, u, p0, setC, op2, Arm.ShiftByImm(Arm.ROR, 0, x, Exec(t.code, p0).f.c))
  {
    hide Exec, Extends, Holds, EmitConstB, SignBitToCarry, ShiftBracket, RrxBracket;
    var f := Exec(t.code, p0).f;
    var u := EmitConstB(t, 0);
    var e := Emit(u, FEnsure(PH_C));
    TempNumbers(t, 0);
    RrxTemps(e, setC, rm);
    ConstExtends(t, p0, 0);
    HoldsOn(t, u, p0, f, rm, x);
    ExtendsFlags(t, u, p0, f);
    EnsureExtends(u, p0, PH_C);
    ExtendsTransitive(t, u, e, p0, f, f);
    HoldsOn(u, e, p0, f, rm, x);
    ExtendsFlags(u, e, p0, f);
    RrxCorrect(e, p0, setC, rm, x);
    var (w, op2) := RrxBracket(e, setC, rm);
    ExtendsTransitive(t, e, w, p0, f, if setC then f.(c := Bit(x, 0)) else f);
  }

  lemma RrxTemps(t: TState, setC: bool, a: Temp)
    ensures RrxBracket(t, setC, a).0.tempno == t.tempno + 2
    ensures RrxBracket(t, setC, a).1 == t.tempno + 1
  {
  }

  lemma RrxCorrect(t: TState, p0: Machine, setC: bool, a: Temp, x: word)
    requires Holds(t, p0, a, x) && t.tempno + 2 <= FIELD_LIMIT
    ensures var f := Exec(t.code, p0).f;
            var (u, op2) := RrxBracket(t, setC, a);
            && Extends(t, u, p0, if setC then f.(c := Bit(x, 0)) else f)
            && Holds(u, p0, op2, Rrx(x, f.c))
  {
    hide Exec, Merge, Bit, Rrx, Negative, Extends;
    var f := Exec(t.code, p0).f;
    ExpectRuns(t, p0, PH_C);
    EnsureExtends(t, p0, PH_C);
    ExtendsSelf(t, p0);
    var e := if setC then Emit(t, FExpect(PH_C)) else t;
    HoldsOn(t, e, p0, f, a, x);
    var u := EmitConstB(e, 1);
    ConstExtends(e, p0, 1);
    HoldsOn(e, u, p0, f, a, x);
    ExtendsTransitive(t, e, u, p0, f, f);
    ExtendsFlags(e, u, p0, f);
    UnaryExtends(u, p0, RRX, a);
    var w := EmitUnary(u, RRX, a);
    ExtendsTransitive(t, u, w, p0, f, f);
    ExtendsFlags(u, w, p0, f);
    if setC {
      CommitFlagsExtends(w, p0, PH_C);
      MergeMasks(Exec(w.code, p0).native, f);
      var y := Emit(w, FCommit(PH_C, PH_NONE, {}));
      var g := f.(c := Bit(x, 0));
      ExtendsTransitive(t, w, y, p0, f, g);
      HoldsOn(w, y, p0, g, u.tempno, Rrx(x, f.c));
    }
  }

  lemma ExtendsSelf(t: TState, p0: Machine)
    requires t.tempno <= FIELD_LIMIT
    ensures Extends(t, t, p0, Exec(t.code, p0).f)
  {
  }

  /** All immediate shifts: the operand and carry are the architecture's. */
  lemma ShiftCorrect(t: TState, p0: Machine, ty: Arm.Shift, k: word, setC: bool, rm: Temp, x: word)
    requires k < 32 && Holds(t, p0, rm, x) && t.tempno <= FIELD_LIMIT
    requires TranslateShift(t, ty, k, setC, rm).0.tempno <= FIELD_LIMIT
    ensures var (u, op2) := TranslateShift(t, ty, k, setC, rm);
            Shifts(t, u, p0, setC, op2, Arm.ShiftByImm(ty, k, x, Exec(t.code, p0).f.c))
  {
    hide Exec, TranslateShift, Shifts, Arm.ShiftByImm, Holds;
    if k != 0 {
      PlainShift(t, p0, ty, k, setC, rm, x);
    } else {
      match ty {
        case LSL => NoShift(t, p0, setC, rm, x);
        case LSR => LogicalShiftBy32(t, p0, setC, rm, x);
        case ASR => ArithmeticShiftBy32(t, p0, setC, rm, x);
        case ROR => RotateThroughCarry(t, p0, setC, rm, x);
      }
    }
  }

  // ---------- the register cache ----------

  /** The first fetch of a register emits a FETCH; later ones reuse its temporary. */
  lemma FetchCorrect(t: TState, p0: Machine, st: Arm.ArmState, reg: RegNo)
    requires Simulates(t, p0, st) && reg < Arm.PC
    requires LFetch(t, reg).0.tempno <= FIELD_LIMIT
    ensures var (u, temp) := LFetch(t, reg);
            Simulates(u, p0, st) && Holds(u, p0, temp, st.r[reg])
    ensures Keeps(t, LFetch(t, reg).0, p0)
  {
    hide Exec;
    assert Tracks(t, Exec(t.code, p0), reg, st.r[reg]);
    if t.lbuf[reg] == -1 {
      var (u, temp) := LFetch(t, reg);
      var p, q := Exec(t.code, p0), Exec(u.code, p0);
      EmitRuns(t, Fetch(t.tempno, reg), p0);
      assert q == Put(p, t.tempno, p.regs[reg]);
      forall r: RegNo | r < Arm.PC ensures Tracks(u, q, r, st.r[r]) {
        assert Tracks(t, p, r, st.r[r]);
      }
    }
  }

  /** Temporaries already in use keep their values. */
  ghost predicate Keeps(t: TState, u: TState, p0: Machine) {
    && t.tempno <= u.tempno
    && forall k: Temp :: k < t.tempno ==> Get(Exec(u.code, p0), k) == Get(Exec(t.code, p0), k)
  }

  lemma HoldsAfter(t: TState, u: TState, p0: Machine, temp: Temp, v: word)
    requires Holds(t, p0, temp, v) && Keeps(t, u, p0)
    ensures Holds(u, p0, temp, v)
  {
  }

  /** Committing a temporary to the cache changes that register only. */
  lemma CommitCorrect(t: TState, p0: Machine, st: Arm.ArmState, reg: RegNo, temp: Temp, v: word)
    requires Simulates(t, p0, st) && reg < Arm.PC && Holds(t, p0, temp, v)
    ensures Simulates(LCommit(t, reg, temp), p0, st.(r := st.r[reg := v]))
  {
    hide Exec;
    var u := LCommit(t, reg, temp);
    var cached := t.(lbuf := t.lbuf[reg := temp], dirty := t.dirty[reg := true]);
    EmitRuns(cached, Assoc(reg, Field(temp)), p0);
    var p := Exec(t.code, p0);
    assert Exec(u.code, p0) == p;
    var updated := st.r[reg := v];
    forall r: RegNo | r < Arm.PC ensures Tracks(u, p, r, updated[r]) {
      assert Tracks(t, p, r, st.r[r]);
    }
  }

  /** One register written back: the register file catches up, the cache forgets it. */
  lemma SyncRegCorrect(t: TState, p0: Machine, st: Arm.ArmState, reg: RegNo)
    requires Simulates(t, p0, st)
    ensures Simulates(SyncReg(t, reg), p0, st)
  {
    hide Exec;
    if t.lbuf[reg] != -1 && t.dirty[reg] {
      var u := SyncReg(t, reg);
      var p, q := Exec(t.code, p0), Exec(u.code, p0);
      var temp := t.lbuf[reg];
      EmitRuns(t, Commit(reg, Field(temp)), p0);
      forall r: RegNo | r < Arm.PC ensures Tracks(u, q, r, st.r[r]) {
        assert Tracks(t, p, r, st.r[r]);
      }
    }
  }

  /** Nothing below `n` is left dirty in the cache. */
  ghost predicate CleanBelow(t: TState, n: nat)
    requires WellFormed(t) && n <= NUMREG
  {
    forall r: RegNo :: r < n ==> t.lbuf[r] == -1 || !t.dirty[r]
  }

  lemma {:induction false} SyncBelowCorrect(t: TState, p0: Machine, st: Arm.ArmState, n: nat)
    requires Simulates(t, p0, st) && n <= NUMREG
    ensures Simulates(SyncBelow(t, n), p0, st)
    ensures CleanBelow(SyncBelow(t, n), n)
  {
    hide Exec;
    if n > 0 {
      SyncBelowCorrect(t, p0, st, n - 1);
      SyncRegCorrect(SyncBelow(t, n - 1), p0, st, n - 1);
    }
  }

  /** After the write-back the register file itself holds r0-r14. */
  lemma SyncedRegisters(t: TState, p0: Machine, st: Arm.ArmState)
    requires Simulates(t, p0, st)
    ensures var p := Exec(LSync(t).code, p0);
            p.f == st.f && p.regs[..Arm.PC] == st.r[..Arm.PC]
  {
    hide Exec, SyncBelow;
    SyncBelowCorrect(t, p0, st, NUMREG);
    var u := LSync(t);
    var p := Exec(u.code, p0);
    forall r: RegNo | r < Arm.PC ensures p.regs[r] == st.r[r] {
      assert Tracks(u, p, r, st.r[r]);
    }
  }

  // ---------- the operation ----------

  /** Committing N and Z after a logical operation leaves C and V alone. */
  lemma LogicFlags(value: word, f: Flags, native: Flags)
    ensures Merge(PH_NZ, SignAndZero(value, native), f) == Arm.LogicOutcome(value, f.c, f).f
    ensures Arm.LogicOutcome(value, f.c, f).value == value
  {
    hide Negative;
  }

  lemma AllFlags(g: Flags, f: Flags)
    ensures Merge(PH_ALL, g, f) == g
  {
  }

  /** Value and committed flags of the planned operation are those of the ARM operation. */
  lemma TwoOperandMeaning(op: Arm.DpOp, a: word, v: word, f: Flags, native: Flags)
    requires PlanFor(op).TwoOperands?
    ensures var plan := PlanFor(op);
            var out := Arm.Operate(op, a, Arm.Shifted(v, f.c), f);
            var w := if op.BIC? then Not(v) else v;
            var got := BinaryOutcome(plan.op, if plan.reversed then w else a, if plan.reversed then a else w, f, native);
            got.value == out.value && Merge(plan.have, got.f, f) == out.f
  {
    hide Merge, And, Orr, Eor, Not, SignAndZero, Arm.LogicOutcome, Arm.SumOutcome, Arm.DifferenceOutcome;
    var out := Arm.Operate(op, a, Arm.Shifted(v, f.c), f);
    if Arm.IsLogic(op) {
      LogicFlags(Arm.LogicValue(op, a, v), f, native);
    } else {
      AllFlags(out.f, f);
    }
  }

  lemma OneOperandMeaning(op: Arm.DpOp, a: word, v: word, f: Flags, native: Flags)
    requires PlanFor(op).OneOperand?
    ensures var plan := PlanFor(op);
            var out := Arm.Operate(op, a, Arm.Shifted(v, f.c), f);
            var got := UnaryOutcome(plan.uop, v, f, native);
            got.value == out.value && Merge(plan.have, got.f, f) == out.f
  {
    hide Merge, Not, Rrx, Bit, SignAndZero, Arm.LogicOutcome;
    LogicFlags(Arm.LogicValue(op, a, v), f, native);
  }

  lemma ComparisonMeaning(op: Arm.DpOp, a: word, v: word, f: Flags, native: Flags)
    requires PlanFor(op).Comparison?
    ensures var plan := PlanFor(op);
            Merge(plan.have, TestFlags(plan.test, a, v, native), f)
            == Arm.Operate(op, a, Arm.Shifted(v, f.c), f).f
  {
    hide Merge, And, Eor, SignAndZero, Arm.LogicOutcome, Arm.SumOutcome, Arm.DifferenceOutcome;
    if Arm.IsLogic(op) {
      LogicFlags(Arm.LogicValue(op, a, v), f, native);
    } else {
      AllFlags(Arm.Operate(op, a, Arm.Shifted(v, f.c), f).f, f);
    }
  }

  lemma PlanKinds(op: Arm.DpOp)
    ensures PlanFor(op).Comparison? == Arm.IsCompare(op)
    ensures PlanFor(op).OneOperand? == !NeedsOp1(op)
    ensures op.BIC? ==> PlanFor(op).TwoOperands?
  {
  }

  /** The planned ph2 operation computes the ARM operation and its flags. */
  lemma PlanCorrect(t: TState, p0: Machine, op: Arm.DpOp, s: bool, op1: Temp, b: Temp, a: word, v: word)
    requires NeedsOp1(op) ==> Holds(t, p0, op1, a)
    requires Holds(t, p0, b, if op.BIC? then Not(v) else v)
    requires Arm.IsCompare(op) ==> s
    requires t.tempno < FIELD_LIMIT || (t.tempno == FIELD_LIMIT && Arm.IsCompare(op))
    ensures var f := Exec(t.code, p0).f;
            var out := Arm.Operate(op, a, Arm.Shifted(v, f.c), f);
            var u := EmitPlan(t, PlanFor(op), s, op1, b);
            && u.tempno == t.tempno + (if Arm.WritesRd(op) then 1 else 0)
            && Extends(t, u, p0, if s then out.f else f)
            && (Arm.WritesRd(op) ==> Holds(u, p0, t.tempno, out.value))
  {
    hide Exec, Bracketed, Merge, Extends, Not, Arm.Operate, PlanFor, NeedsOp1, Arm.IsCompare,
         BinaryOutcome, UnaryOutcome, TestFlags;
    var p := Exec(t.code, p0);
    PlanKinds(op);
    match PlanFor(op) {
      case TwoOperands(bop, reversed, have) =>
        BracketedBinary(t, p0, s, have, bop, if reversed then b else op1, if reversed then op1 else b);
        TwoOperandMeaning(op, a, v, p.f, p.native);
      case OneOperand(uop, have) =>
        BracketedUnary(t, p0, s, have, uop, b);
        OneOperandMeaning(op, a, v, p.f, p.native);
      case Comparison(test, have) =>
        BracketedTest(t, p0, have, test, op1, b);
        ComparisonMeaning(op, a, v, p.f, p.native);
    }
  }

  /** The state an operation leads to, with the carry from the shifter already in the flags. */
  function Operated(st: Arm.ArmState, op: Arm.DpOp, s: bool, rn: Arm.Reg, rd: Arm.Reg, v: word): Arm.ArmState
    requires Arm.Valid(st)
  {
    var out := Arm.Operate(op, st.r[rn], Arm.Shifted(v, st.f.c), st.f);
    Arm.ArmState(if Arm.WritesRd(op) then st.r[rd := out.value] else st.r, if s then out.f else st.f)
  }

  /** pheta_dp_guts after its register fetch. */
  lemma GutsTail(u: TState, p0: Machine, st: Arm.ArmState, op: Arm.DpOp, s: bool, rn: Arm.Reg, rd: Arm.Reg,
                 op1: Temp, op2: Temp, v: word, w: TState, x: TState, b: Temp, y: TState)
    requires Simulates(u, p0, st) && rd < Arm.PC && (Arm.IsCompare(op) ==> s)
    requires NeedsOp1(op) ==> Holds(u, p0, op1, st.r[rn])
    requires Holds(u, p0, op2, v)
    requires w == if Arm.UsesCarry(op) then Emit(u, FEnsure(PH_C)) else u
    requires (x, b) == if op.BIC? then (EmitUnary(w, NOT, op2), w.tempno) else (w, op2)
    requires y == EmitPlan(x, PlanFor(op), s, op1, b) && y.tempno <= FIELD_LIMIT
    ensures Simulates(if Arm.WritesRd(op) then LCommit(y, rd, x.tempno) else y, p0, Operated(st, op, s, rn, rd, v))
  {
    hide Exec, Extends, Simulates, Holds, EmitPlan, PlanFor, LCommit, Not, Arm.Operate;
    var f := st.f;
    SimulatesFlags(u, p0, st);
    PlanTemps(x, op, s, op1, b);
    ExtendsSelf(u, p0);
    EnsureExtends(u, p0, PH_C);
    var g := Arm.Operate(op, st.r[rn], Arm.Shifted(v, f.c), f);
    assert Extends(u, w, p0, f);
    if NeedsOp1(op) { HoldsOn(u, w, p0, f, op1, st.r[rn]); }
    HoldsOn(u, w, p0, f, op2, v);
    ExtendsFlags(u, w, p0, f);
    if op.BIC? {
      HoldsBound(w, p0, op2, v);
      UnaryExtends(w, p0, NOT, op2);
      HoldsOn(w, x, p0, f, op1, st.r[rn]);
    } else {
      ExtendsSelf(w, p0);
    }
    ExtendsFlags(w, x, p0, f);
    ExtendsTransitive(u, w, x, p0, f, f);
    PlanCorrect(x, p0, op, s, op1, b, st.r[rn], v);
    var h := if s then g.f else f;
    ExtendsTransitive(u, x, y, p0, f, h);
    SimulatesOn(u, y, p0, h, st);
    if Arm.WritesRd(op) {
      CommitCorrect(y, p0, st.(f := h), rd, x.tempno, g.value);
    }
  }

  lemma SimulatesFlags(t: TState, p0: Machine, st: Arm.ArmState)
    requires Simulates(t, p0, st)
    ensures Exec(t.code, p0).f == st.f && t.tempno <= FIELD_LIMIT && WellFormed(t)
    ensures |p0.regs| == NUMREG && |st.r| == 16
  {
  }

  lemma HoldsBound(t: TState, p0: Machine, temp: Temp, v: word)
    requires Holds(t, p0, temp, v)
    ensures temp < t.tempno && Get(Exec(t.code, p0), temp) == v
  {
  }

  lemma PlanTemps(t: TState, op: Arm.DpOp, s: bool, op1: Temp, b: Temp)
    requires Arm.IsCompare(op) ==> s
    ensures EmitPlan(t, PlanFor(op), s, op1, b).tempno == t.tempno + if Arm.WritesRd(op) then 1 else 0
  {
  }

  /** pheta_dp_guts performs the operation. */
  lemma GutsCorrect(t: TState, p0: Machine, st: Arm.ArmState, op: Arm.DpOp, s: bool,
                    rn: Arm.Reg, rd: Arm.Reg, op2: Temp, v: word)
    requires Simulates(t, p0, st) && Holds(t, p0, op2, v)
    requires rn < Arm.PC && rd < Arm.PC && (Arm.IsCompare(op) ==> s)
    requires Guts(t, op, s, rn, rd, op2).tempno <= FIELD_LIMIT
    ensures Simulates(Guts(t, op, s, rn, rd, op2), p0, Operated(st, op, s, rn, rd, v))
  {
    hide Exec, Simulates, Holds, Keeps, EmitPlan, PlanFor, LCommit, LFetch, Operated, EmitUnary, Emit;
    SimulatesFlags(t, p0, st);
    var (u, op1) := if NeedsOp1(op) then LFetch(t, rn) else (t, 0);
    var w := if Arm.UsesCarry(op) then Emit(u, FEnsure(PH_C)) else u;
    var (x, b) := if op.BIC? then (EmitUnary(w, NOT, op2), w.tempno) else (w, op2);
    var y := EmitPlan(x, PlanFor(op), s, op1, b);
    GutsTemps(t, op, s, rn, rd, op2, u, w, x, y, op1, b);
    if NeedsOp1(op) {
      FetchCorrect(t, p0, st, rn);
      HoldsAfter(t, u, p0, op2, v);
    }
    GutsTail(u, p0, st, op, s, rn, rd, op1, op2, v, w, x, b, y);
  }

  lemma GutsTemps(t: TState, op: Arm.DpOp, s: bool, rn: Arm.Reg, rd: Arm.Reg, op2: Temp,
                  u: TState, w: TState, x: TState, y: TState, op1: Temp, b: Temp)
    requires WellFormed(t) && (Arm.IsCompare(op) ==> s)
    requires (u, op1) == if NeedsOp1(op) then LFetch(t, rn) else (t, 0)
    requires w == if Arm.UsesCarry(op) then Emit(u, FEnsure(PH_C)) else u
    requires (x, b) == if op.BIC? then (EmitUnary(w, NOT, op2), w.tempno) else (w, op2)
    requires y == EmitPlan(x, PlanFor(op), s, op1, b)
    ensures t.tempno <= u.tempno <= y.tempno == Guts(t, op, s, rn, rd, op2).tempno
  {
    hide EmitPlan, PlanFor;
    PlanTemps(x, op, s, op1, b);
  }

  // ---------- whole instructions ----------

  lemma SimulatesAdvance(t: TState, p0: Machine, st: Arm.ArmState)
    requires Simulates(t, p0, st)
    ensures Simulates(t, p0, Arm.Advance(st))
  {
    hide Exec, Arm.NextPc;
    var next := Arm.Advance(st);
    forall r: RegNo | r < Arm.PC ensures Tracks(t, Exec(t.code, p0), r, next.r[r]) {
      assert Tracks(t, Exec(t.code, p0), r, st.r[r]);
    }
  }

  lemma GutsGrows(t: TState, op: Arm.DpOp, s: bool, rn: Arm.Reg, rd: Arm.Reg, op2: Temp)
    requires WellFormed(t) && (Arm.IsCompare(op) ==> s)
    ensures t.tempno <= Guts(t, op, s, rn, rd, op2).tempno
  {
    hide EmitPlan, PlanFor, LFetch, LCommit;
    var (u, op1) := if NeedsOp1(op) then LFetch(t, rn) else (t, 0);
    var w := if Arm.UsesCarry(op) then Emit(u, FEnsure(PH_C)) else u;
    var (x, b) := if op.BIC? then (EmitUnary(w, NOT, op2), w.tempno) else (w, op2);
    GutsTemps(t, op, s, rn, rd, op2, u, w, x, EmitPlan(x, PlanFor(op), s, op1, b), op1, b);
  }

  lemma ShiftGrows(t: TState, ty: Arm.Shift, k: word, setC: bool, rm: Temp)
    ensures t.tempno <= TranslateShift(t, ty, k, setC, rm).0.tempno
  {
  }

  /** Given the shifter's operand and carry, the rest of the instruction follows. */
  lemma OperatedIsExecuted(i: Arm.Inst, st: Arm.ArmState, b: Arm.Shifted)
    requires Arm.Valid(st) && !i.Mul?
    ensures var f := if Arm.IsLogic(i.op) && i.s then st.f.(c := b.carry) else st.f;
            Arm.Advance(Operated(st.(f := f), i.op, i.s, i.rn, i.rd, b.value)) == Arm.Execute(i, st, b)
  {
    hide Arm.Operate, Arm.NextPc;
    Arm.OnlyLogicTakesCarry(i.op, st.r[i.rn], b, st.f, i.s);
  }

  lemma DpCorrect(t: TState, p0: Machine, st: Arm.ArmState, i: Arm.Inst)
    requires Simulates(t, p0, st) && i.Dp? && Translatable(i)
    requires TranslateDp(t, i).tempno <= FIELD_LIMIT
    ensures Simulates(TranslateDp(t, i), p0, Arm.Step(i, st))
  {
    hide Exec, Simulates, Holds, LFetch, TranslateShift, Guts, Arm.ShiftByImm, Operated, Arm.Execute,
         Arm.OperandReg, Arm.ShiftType, Arm.ShiftAmount, Arm.IsLogic, Arm.IsCompare, Arm.ShiftsByRegister,
         Arm.Advance;
    SimulatesFlags(t, p0, st);
    var reg := Arm.OperandReg(i.operand2);
    var ty, k := Arm.ShiftType(i.operand2), Arm.ShiftAmount(i.operand2);
    var setC := Arm.IsLogic(i.op) && i.s;
    var (u, rm) := LFetch(t, reg);
    var (w, op2) := TranslateShift(u, ty, k, setC, rm);
    GutsGrows(w, i.op, i.s, i.rn, i.rd, op2);
    ShiftGrows(u, ty, k, setC, rm);
    FetchCorrect(t, p0, st, reg);
    SimulatesFlags(u, p0, st);
    ShiftCorrect(u, p0, ty, k, setC, rm, st.r[reg]);
    var b := Arm.ShiftByImm(ty, k, st.r[reg], st.f.c);
    var f := if setC then st.f.(c := b.carry) else st.f;
    SimulatesOn(u, w, p0, f, st);
    GutsCorrect(w, p0, st.(f := f), i.op, i.s, i.rn, i.rd, op2, b.value);
    SimulatesAdvance(Guts(w, i.op, i.s, i.rn, i.rd, op2), p0, Operated(st.(f := f), i.op, i.s, i.rn, i.rd, b.value));
    OperatedIsExecuted(i, st, b);
  }

  /** The translator reads the rotated-out bit from the byte; it is the shifter carry. */
  lemma ByteCarryIsShifterCarry(o: bv12)
    requires Arm.ImmRotation(o) != 0
    ensures ByteCarry(o) == Negative(Ror(Arm.ImmByte(o), Arm.ImmRotation(o)))
  {
  }

  /** Writing the carry directly. */
  lemma CarryWriteCorrect(t: TState, p0: Machine, c: bool)
    requires t.tempno < FIELD_LIMIT
    ensures var u := Emit(EmitConstB(t, BoolWord(c)), FWrite(PH_C, Field(t.tempno)));
            u.tempno == t.tempno + 1 && Extends(t, u, p0, Exec(t.code, p0).f.(c := c))
  {
    hide Exec;
    var f := Exec(t.code, p0).f;
    var v := EmitConstB(t, BoolWord(c));
    ConstExtends(t, p0, BoolWord(c));
    EmitRuns(v, FWrite(PH_C, t.tempno), p0);
    var p := Exec(v.code, p0);
    assert Get(p, t.tempno) != 0 <==> c;
    MergeMasks(Flags(c, c, c, c), p.f);
    var u := Emit(v, FWrite(PH_C, t.tempno));
    assert Extends(v, u, p0, f.(c := c));
    ExtendsTransitive(t, v, u, p0, f, f.(c := c));
  }

  lemma DpImmCorrect(t: TState, p0: Machine, st: Arm.ArmState, i: Arm.Inst)
    requires Simulates(t, p0, st) && i.DpImm? && Translatable(i)
    requires TranslateDpImm(t, i).tempno <= FIELD_LIMIT
    ensures Simulates(TranslateDpImm(t, i), p0, Arm.Step(i, st))
  {
    hide Exec, Simulates, Extends, Holds, Guts, Operated, Arm.Execute, Arm.IsLogic, Arm.IsCompare, Arm.Advance,
         Arm.ImmByte, Arm.ImmRotation, Ror, Negative, ByteCarry, BoolWord, EmitConst, EmitConstB;
    SimulatesFlags(t, p0, st);
    var value, amount := Arm.ImmByte(i.operand2), Arm.ImmRotation(i.operand2);
    var op2 := t.tempno;
    var b := Arm.RotatedImm(i.operand2, st.f.c);
    var setC := Arm.IsLogic(i.op) && i.s;
    var u := if amount == 0 then EmitConstB(t, value) else EmitConst(t, Ror(value, amount));
    var w := if amount != 0 && i.s && Arm.IsLogic(i.op)
             then Emit(EmitConstB(u, BoolWord(ByteCarry(i.operand2))), FWrite(PH_C, Field(u.tempno)))
             else u;
    var f := if setC then st.f.(c := b.carry) else st.f;
    TempNumbers(t, value);
    TempNumbers(t, Ror(value, amount));
    if amount != 0 { TempNumbers(u, BoolWord(ByteCarry(i.operand2))); }
    GutsGrows(w, i.op, i.s, i.rn, i.rd, op2);
    RorByZero(value);
    ConstExtends(t, p0, b.value);
    ExtendsFlags(t, u, p0, st.f);
    if amount != 0 && setC {
      ByteCarryIsShifterCarry(i.operand2);
      CarryWriteCorrect(u, p0, ByteCarry(i.operand2));
      HoldsOn(u, w, p0, f, op2, b.value);
      ExtendsTransitive(t, u, w, p0, st.f, f);
    }
    SimulatesOn(t, w, p0, f, st);
    GutsCorrect(w, p0, st.(f := f), i.op, i.s, i.rn, i.rd, op2, b.value);
    SimulatesAdvance(Guts(w, i.op, i.s, i.rn, i.rd, op2), p0, Operated(st.(f := f), i.op, i.s, i.rn, i.rd, b.value));
    OperatedIsExecuted(i, st, b);
  }

  lemma RorByZero(x: word)
    ensures Ror(x, 0) == x
  {
  }

  lemma FetchGrows(t: TState, reg: RegNo)
    requires WellFormed(t)
    ensures t.tempno <= LFetch(t, reg).0.tempno
  {
  }

  lemma MulCorrect(t: TState, p0: Machine, st: Arm.ArmState, i: Arm.Inst)
    requires Simulates(t, p0, st) && i.Mul? && Translatable(i)
    requires TranslateMul(t, i).tempno <= FIELD_LIMIT
    ensures Simulates(TranslateMul(t, i), p0, Arm.Step(i, st))
  {
    hide Exec, Simulates, Holds, Keeps, LFetch, LCommit, Bracketed, EmitBinary, Arm.Advance, Times;
    SimulatesFlags(t, p0, st);
    var (u, a) := LFetch(t, i.rm);
    var (w, b) := LFetch(u, i.rs);
    MulTemps(t, i, u, a, w, b);
    FetchCorrect(t, p0, st, i.rm);
    FetchCorrect(u, p0, st, i.rs);
    HoldsAfter(u, w, p0, a, st.r[i.rm]);
    if i.accumulate {
      AccumulateCorrect(w, p0, st, i, a, b);
    } else {
      SimpleMulCorrect(w, p0, st, i, a, b);
    }
  }

  lemma MulTemps(t: TState, i: Arm.Inst, u: TState, a: Temp, w: TState, b: Temp)
    requires WellFormed(t) && i.Mul?
    requires (u, a) == LFetch(t, i.rm) && (w, b) == LFetch(u, i.rs)
    ensures t.tempno <= u.tempno <= w.tempno < TranslateMul(t, i).tempno
    ensures TranslateMul(t, i) == if i.accumulate then Accumulate(w, i, a, b) else SimpleMul(w, i, a, b)
  {
  }

  function SimpleMul(w: TState, i: Arm.Inst, a: Temp, b: Temp): TState
    requires WellFormed(w) && i.Mul?
  {
    LCommit(Bracketed(w, i.s, PH_NZ, Binary(MUL, Field(w.tempno), Field(a), Field(b))), i.rd, w.tempno)
  }

  function Accumulate(w: TState, i: Arm.Inst, a: Temp, b: Temp): TState
    requires WellFormed(w) && i.Mul?
  {
    var x := EmitBinary(w, MUL, a, b);
    var y := if i.s then Emit(x, FExpect(PH_NZ)) else x;
    var (z, addend) := LFetch(y, i.rn);
    var v := EmitBinary(z, ADD, w.tempno, addend);
    LCommit(if i.s then Emit(v, FCommit(PH_NZ, PH_NONE, {})) else v, i.rd, z.tempno)
  }

  /** The flags a multiply commits. */
  function ProductFlags(value: word, s: bool, f: Flags): Flags {
    if s then Flags(Negative(value), value == 0, f.c, f.v) else f
  }

  lemma MultiplyByParts(i: Arm.Inst, st: Arm.ArmState, f: Flags, value: word)
    requires i.Mul? && Arm.Valid(st) && value == Arm.Product(i, st)
    requires f == ProductFlags(value, i.s, st.f)
    ensures Arm.Advance(Arm.ArmState(st.r[i.rd := value], f)) == Arm.Step(i, st)
  {
    hide Arm.Product, Arm.NextPc, Negative;
  }

  lemma SimpleMulCorrect(w: TState, p0: Machine, st: Arm.ArmState, i: Arm.Inst, a: Temp, b: Temp)
    requires i.Mul? && !i.accumulate && Translatable(i)
    requires Simulates(w, p0, st) && w.tempno < FIELD_LIMIT
    requires Holds(w, p0, a, st.r[i.rm]) && Holds(w, p0, b, st.r[i.rs])
    ensures Simulates(SimpleMul(w, i, a, b), p0, Arm.Step(i, st))
  {
    hide Exec, Simulates, LCommit, Bracketed, Merge, Times, Negative, Arm.Advance, Arm.Step, SignAndZero, Arm.LogicOutcome;
    SimulatesFlags(w, p0, st);
    HoldsBound(w, p0, a, st.r[i.rm]);
    HoldsBound(w, p0, b, st.r[i.rs]);
    var value := Times(st.r[i.rm], st.r[i.rs]);
    var p := Exec(w.code, p0);
    BracketedBinary(w, p0, i.s, PH_NZ, MUL, a, b);
    NzFlags(value, p.f, p.native);
    var x := Bracketed(w, i.s, PH_NZ, Binary(MUL, Field(w.tempno), Field(a), Field(b)));
    var f := ProductFlags(value, i.s, st.f);
    SimulatesOn(w, x, p0, f, st);
    CommitCorrect(x, p0, st.(f := f), i.rd, w.tempno, value);
    MultiplyByParts(i, st, f, value);
    SimulatesAdvance(SimpleMul(w, i, a, b), p0, Arm.ArmState(st.r[i.rd := value], f));
  }

  lemma NzFlags(value: word, f: Flags, native: Flags)
    ensures Merge(PH_NZ, SignAndZero(value, native), f) == ProductFlags(value, true, f)
  {
    hide Negative;
  }

  /** A sum's N and Z flags, committed without C and V. */
  lemma NzOfSum(a: word, b: word, f: Flags)
    ensures Arm.SumOutcome(a, b, false).value == Add(a, b)
    ensures Merge(PH_NZ, Arm.SumOutcome(a, b, false).f, f) == ProductFlags(Add(a, b), true, f)
  {
    hide Add, Negative, Unsigned, Signed, FitsSigned;
    AddZeroRight(Add(a, b));
  }

  lemma AddZeroRight(x: word)
    ensures Add(x, BoolWord(false)) == x
  {
  }

  lemma AccumulateCorrect(w: TState, p0: Machine, st: Arm.ArmState, i: Arm.Inst, a: Temp, b: Temp)
    requires i.Mul? && i.accumulate && Translatable(i)
    requires Simulates(w, p0, st) && Accumulate(w, i, a, b).tempno <= FIELD_LIMIT
    requires Holds(w, p0, a, st.r[i.rm]) && Holds(w, p0, b, st.r[i.rs])
    ensures Simulates(Accumulate(w, i, a, b), p0, Arm.Step(i, st))
  {
    hide Exec, Simulates, Extends, Keeps, LCommit, LFetch, Merge, Times, Add, Negative, Arm.Advance, Arm.Step,
         SignAndZero, Arm.SumOutcome, EmitBinary;
    SimulatesFlags(w, p0, st);
    AccumulateTemps(w, i, a, b);
    var product := Times(st.r[i.rm], st.r[i.rs]);
    BinaryExtends(w, p0, MUL, a, b);
    var x := EmitBinary(w, MUL, a, b);
    SimulatesOn(w, x, p0, st.f, st);
    var y := if i.s then Emit(x, FExpect(PH_NZ)) else x;
    if i.s {
      EnsureExtends(x, p0, PH_NZ);
      SimulatesFlags(x, p0, st);
      SimulatesOn(x, y, p0, st.f, st);
      HoldsOn(x, y, p0, st.f, w.tempno, product);
    }
    var (z, addend) := LFetch(y, i.rn);
    FetchCorrect(y, p0, st, i.rn);
    HoldsAfter(y, z, p0, w.tempno, product);
    SimulatesFlags(z, p0, st);
    var value := Add(product, st.r[i.rn]);
    BinaryExtends(z, p0, ADD, w.tempno, addend);
    var v := EmitBinary(z, ADD, w.tempno, addend);
    NzOfSum(product, st.r[i.rn], st.f);
    var f := ProductFlags(value, i.s, st.f);
    var c := if i.s then Emit(v, FCommit(PH_NZ, PH_NONE, {})) else v;
    if i.s {
      ExtendsFlags(z, v, p0, st.f);
      CommitFlagsExtends(v, p0, PH_NZ);
      HoldsOn(v, c, p0, f, z.tempno, value);
      ExtendsTransitive(z, v, c, p0, st.f, f);
    }
    SimulatesOn(z, c, p0, f, st);
    CommitCorrect(c, p0, st.(f := f), i.rd, z.tempno, value);
    MultiplyByParts(i, st, f, value);
    SimulatesAdvance(Accumulate(w, i, a, b), p0, Arm.ArmState(st.r[i.rd := value], f));
  }

  lemma AccumulateTemps(w: TState, i: Arm.Inst, a: Temp, b: Temp)
    requires WellFormed(w) && i.Mul?
    ensures var x := EmitBinary(w, MUL, a, b);
            var y := if i.s then Emit(x, FExpect(PH_NZ)) else x;
            var z := LFetch(y, i.rn).0;
            && x.tempno == w.tempno + 1 == y.tempno <= z.tempno
            && Accumulate(w, i, a, b).tempno == z.tempno + 1
            && WellFormed(y) && WellFormed(z)
  {
  }

  // ---------- the theorem ----------

  /** The ARM meaning of the items: write-backs are invisible. */
  function RunItems(items: seq<Item>, st: Arm.ArmState): (st': Arm.ArmState)
    requires Arm.Valid(st)
    ensures Arm.Valid(st')
  {
    if items == [] then st
    else
      var before := RunItems(items[..|items| - 1], st);
      var last := items[|items| - 1];
      if last.Instruction? then Arm.Step(last.inst, before) else before
  }

  ghost predicate AllTranslatable(items: seq<Item>) {
    forall k :: 0 <= k < |items| && items[k].Instruction? ==> Translatable(items[k].inst)
  }

  lemma ItemGrows(t: TState, item: Item)
    requires WellFormed(t) && (item.Instruction? ==> Translatable(item.inst))
    ensures t.tempno <= TranslateItem(t, item).tempno
  {
    hide LFetch, TranslateShift, Guts, SyncBelow, Arm.Supported, EmitConst, EmitConstB;
    if item.WriteBack? {
      SyncKeepsTemps(t, NUMREG);
    } else {
      var i := item.inst;
      IsSupported(i);
      match i {
        case Dp(_, _, _, _, _) =>
          var (u, rm) := LFetch(t, Arm.OperandReg(i.operand2));
          var setC := Arm.IsLogic(i.op) && i.s;
          FetchGrows(t, Arm.OperandReg(i.operand2));
          ShiftGrows(u, Arm.ShiftType(i.operand2), Arm.ShiftAmount(i.operand2), setC, rm);
          var (w, op2) := TranslateShift(u, Arm.ShiftType(i.operand2), Arm.ShiftAmount(i.operand2), setC, rm);
          GutsGrows(w, i.op, i.s, i.rn, i.rd, op2);
        case DpImm(_, _, _, _, _) => ImmGrows(t, i);
        case Mul(_, _, _, _, _, _) =>
          var (u, a) := LFetch(t, i.rm);
          var (w, b) := LFetch(u, i.rs);
          MulTemps(t, i, u, a, w, b);
      }
    }
  }

  lemma IsSupported(i: Arm.Inst)
    requires Arm.Supported(i)
    ensures !i.Mul? && Arm.IsCompare(i.op) ==> i.s
  {
  }

  lemma ImmGrows(t: TState, i: Arm.Inst)
    requires WellFormed(t) && i.DpImm? && (Arm.IsCompare(i.op) ==> i.s)
    ensures t.tempno <= TranslateDpImm(t, i).tempno
  {
    hide Guts, Ror, ByteCarry, Arm.ImmByte, Arm.ImmRotation;
    var value, amount := Arm.ImmByte(i.operand2), Arm.ImmRotation(i.operand2);
    var u := if amount == 0 then EmitConstB(t, value) else EmitConst(t, Ror(value, amount));
    var w := if amount != 0 && i.s && Arm.IsLogic(i.op)
             then Emit(EmitConstB(u, BoolWord(ByteCarry(i.operand2))), FWrite(PH_C, Field(u.tempno)))
             else u;
    GutsGrows(w, i.op, i.s, i.rn, i.rd, t.tempno);
  }

  lemma {:induction false} SyncKeepsTemps(t: TState, n: nat)
    requires WellFormed(t) && n <= NUMREG
    ensures SyncBelow(t, n).tempno == t.tempno
  {
    if n > 0 {
      SyncKeepsTemps(t, n - 1);
    }
  }

  /** Every prefix of the block is simulated. */
  lemma {:induction false} TranslateSimulates(items: seq<Item>, p0: Machine, st: Arm.ArmState)
    requires AllTranslatable(items) && Translate(items).tempno <= FIELD_LIMIT
    requires |p0.regs| == NUMREG && Arm.Valid(st)
    requires p0.regs[..Arm.PC] == st.r[..Arm.PC] && p0.f == st.f
    ensures Simulates(Translate(items), p0, RunItems(items, st))
  {
    hide TranslateItem, Arm.Step, Translatable;
    if items == [] {
      forall r: RegNo | r < Arm.PC ensures p0.regs[r] == st.r[r] {
        assert p0.regs[r] == p0.regs[..Arm.PC][r];
      }
    } else {
      var front, last := items[..|items| - 1], items[|items| - 1];
      ItemGrows(Translate(front), last);
      TranslateSimulates(front, p0, st);
      ItemCorrect(Translate(front), p0, RunItems(front, st), last);
    }
  }

  lemma ItemCorrect(t: TState, p0: Machine, st: Arm.ArmState, item: Item)
    requires Simulates(t, p0, st) && (item.Instruction? ==> Translatable(item.inst))
    requires TranslateItem(t, item).tempno <= FIELD_LIMIT
    ensures Simulates(TranslateItem(t, item), p0, if item.Instruction? then Arm.Step(item.inst, st) else st)
  {
    hide Simulates, Arm.Step, Translatable, TranslateDp, TranslateDpImm, TranslateMul, SyncBelow;
    SimulatesFlags(t, p0, st);
    match item {
      case WriteBack => SyncBelowCorrect(t, p0, st, NUMREG);
      case Instruction(i) =>
        match i {
          case Dp(_, _, _, _, _) => DpCorrect(t, p0, st, i);
          case DpImm(_, _, _, _, _) => DpImmCorrect(t, p0, st, i);
          case Mul(_, _, _, _, _, _) => MulCorrect(t, p0, st, i);
        }
    }
  }

  /**
   Translation refines the architecture: whatever the block and the starting state, the
   emitted code and its final write-back leave r0-r14 and NZCV as the instructions do.
   */
  lemma TranslationCorrect(items: seq<Item>, p0: Machine, st: Arm.ArmState)
    requires AllTranslatable(items) && Translate(items).tempno <= FIELD_LIMIT
    requires |p0.regs| == NUMREG && Arm.Valid(st)
    requires p0.regs[..Arm.PC] == st.r[..Arm.PC] && p0.f == st.f
    ensures var p := Exec(LSync(Translate(items)).code, p0);
            var end := RunItems(items, st);
            p.f == end.f && p.regs[..Arm.PC] == end.r[..Arm.PC]
  {
    TranslateSimulates(items, p0, st);
    SyncedRegisters(Translate(items), p0, RunItems(items, st));
  }
}
