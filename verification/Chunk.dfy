/**
 The translator as the recompiler runs it: methods that append to the current block and
 update its register cache in place (dynarec/pheta.c).  Each method is proved to do to
 the state exactly what the corresponding function of Translator says.
 */
module Chunk {
  import opened Words
  import Arm
  import opened Ph2
  import opened Translator

  /** A chunk together with its current basic block. */
  class Chunk {
    var tempno: nat
    var base: seq<Instr>
    const lbuf: array<int>
    const dirtybuf: array<bool>

    ghost predicate Valid()
      reads this, lbuf
    {
      && lbuf.Length == NUMREG && dirtybuf.Length == NUMREG
      && forall k :: 0 <= k < NUMREG ==> lbuf[k] >= -1
    }

    ghost function State(): (t: TState)
      reads this, lbuf, dirtybuf
    {
      TState(base, tempno, lbuf[..], dirtybuf[..])
    }

    /** pheta_newbasicblock: nothing cached, nothing dirty. */
    constructor ()
      ensures Valid() && fresh(lbuf) && fresh(dirtybuf)
      ensures State() == NewBlock()
    {
      tempno := 0;
      base := [];
      lbuf := new int[NUMREG](_ => -1);
      dirtybuf := new bool[NUMREG](_ => false);
    }

    /** pheta_emit for instructions without a result. */
    method Append(i: Instr)
      requires Valid() && !HasDest(i)
      modifies this
      ensures Valid() && State() == Emit(old(State()), i)
    {
      base := base + [i];
    }

    method Constant(imm: word) returns (dest: Temp)
      requires Valid()
      modifies this
      ensures Valid() && dest == old(tempno) && State() == EmitConst(old(State()), imm)
    {
      dest := tempno;
      tempno := tempno + 1;
      base := base + [Const(Field(dest), imm)];
    }

    method ConstantByte(imm: word) returns (dest: Temp)
      requires Valid()
      modifies this
      ensures Valid() && dest == old(tempno) && State() == EmitConstB(old(State()), imm)
    {
      dest := tempno;
      tempno := tempno + 1;
      base := base + [ConstB(Field(dest), imm)];
    }

    method TwoOperand(op: BinaryOp, a: Temp, b: Temp) returns (dest: Temp)
      requires Valid()
      modifies this
      ensures Valid() && dest == old(tempno) && State() == EmitBinary(old(State()), op, a, b)
    {
      dest := tempno;
      tempno := tempno + 1;
      base := base + [Binary(op, Field(dest), Field(a), Field(b))];
    }

    method OneOperand(op: UnaryOp, a: Temp) returns (dest: Temp)
      requires Valid()
      modifies this
      ensures Valid() && dest == old(tempno) && State() == EmitUnary(old(State()), op, a)
    {
      dest := tempno;
      tempno := tempno + 1;
      base := base + [Unary(op, Field(dest), Field(a))];
    }

    /** FEXPECT, operation, FCOMMIT; or the operation alone. */
    method BracketedTwo(flags: bool, have: FlagMask, op: BinaryOp, a: Temp, b: Temp) returns (dest: Temp)
      requires Valid()
      modifies this
      ensures Valid() && dest == old(tempno)
      ensures State() == Bracketed(old(State()), flags, have, Binary(op, Field(dest), Field(a), Field(b)))
    {
      if flags {
        Append(FExpect(have));
        dest := TwoOperand(op, a, b);
        Append(FCommit(have, PH_NONE, {}));
      } else {
        dest := TwoOperand(op, a, b);
      }
    }

    method BracketedOne(flags: bool, have: FlagMask, op: UnaryOp, a: Temp) returns (dest: Temp)
      requires Valid()
      modifies this
      ensures Valid() && dest == old(tempno)
      ensures State() == Bracketed(old(State()), flags, have, Unary(op, Field(dest), Field(a)))
    {
      if flags {
        Append(FExpect(have));
        dest := OneOperand(op, a);
        Append(FCommit(have, PH_NONE, {}));
      } else {
        dest := OneOperand(op, a);
      }
    }

    /** pheta_lfetch. */
    method Fetch(reg: RegNo) returns (temp: Temp)
      requires Valid()
      modifies this, lbuf
      ensures Valid() && (State(), temp) == LFetch(old(State()), reg)
    {
      if lbuf[reg] != -1 {
        temp := lbuf[reg];
      } else {
        temp := tempno;
        tempno := tempno + 1;
        base := base + [Instr.Fetch(Field(temp), reg)];
        lbuf[reg] := temp;
      }
    }

    /** pheta_lcommit. */
    method Commit(reg: RegNo, temp: Temp)
      requires Valid()
      modifies this, lbuf, dirtybuf
      ensures Valid() && State() == LCommit(old(State()), reg, temp)
    {
      lbuf[reg] := temp;
      dirtybuf[reg] := true;
      base := base + [Assoc(reg, Field(temp))];
    }

    /** pheta_lsync: write back every dirty register and forget it. */
    method Sync()
      requires Valid()
      modifies this, lbuf
      ensures Valid() && State() == LSync(old(State()))
    {
      for i := 0 to NUMREG
        invariant Valid() && State() == SyncBelow(old(State()), i)
      {
        if lbuf[i] != -1 && dirtybuf[i] {
          base := base + [Instr.Commit(i, Field(lbuf[i]))];
          lbuf[i] := -1;
        }
      }
    }

    /** The shift-by-immediate half of pheta_dp. */
    method Shift(ty: Arm.Shift, amount: word, setC: bool, rm: Temp) returns (op2: Temp)
      requires Valid()
      modifies this
      ensures Valid() && (State(), op2) == TranslateShift(old(State()), ty, amount, setC, rm)
    {
      hide Bracketed, EmitConst, EmitConstB, EmitBinary, EmitUnary;
      op2 := rm;
      var amountreg := tempno;
      if !(ty.LSL? && amount == 0) {
        amountreg := ConstantByte(amount);
      }
      if amount != 0 {
        op2 := BracketedTwo(setC, PH_C, BinaryOp.Shift(ty), rm, amountreg);
      } else {
        match ty {
          case LSL =>
          case LSR =>
            if setC {
              var one := ConstantByte(1);
              var _ := BracketedTwo(true, PH_C, BinaryOp.Shift(Arm.LSL), rm, one);
            }
            op2 := ConstantByte(0);
          case ASR =>
            var thirtyone := ConstantByte(31);
            op2 := BracketedTwo(false, PH_C, BinaryOp.Shift(ty), rm, thirtyone);
            if setC {
              Append(FExpect(PH_C));
              var one := ConstantByte(1);
              var _ := TwoOperand(BinaryOp.Shift(Arm.ASR), op2, one);
              Append(FCommit(PH_C, PH_NONE, {}));
            }
          case ROR =>
            Append(FEnsure(PH_C));
            if setC {
              Append(FExpect(PH_C));
              var _ := ConstantByte(1);
              op2 := OneOperand(RRX, rm);
              Append(FCommit(PH_C, PH_NONE, {}));
            } else {
              var _ := ConstantByte(1);
              op2 := OneOperand(RRX, rm);
            }
        }
      }
    }

    /**
     The operation switch of pheta_dp_guts; `dest` is -1 when there is no result.  For a comparison
     without S the source only warns.
     */
    method Operation(op: Arm.DpOp, flags: bool, op1: Temp, op2: Temp) returns (dest: int)
      requires Valid()
      modifies this
      ensures Valid() && dest == (if Arm.WritesRd(op) then old(tempno) else -1)
      ensures State() == EmitPlan(old(State()), PlanFor(op), flags, op1, op2)
    {
      hide Bracketed;
      dest := -1;
      match op {
        case AND => dest := BracketedTwo(flags, PH_NZ, BinaryOp.AND, op1, op2);
        case EOR => dest := BracketedTwo(flags, PH_NZ, BinaryOp.EOR, op1, op2);
        case SUB => dest := BracketedTwo(flags, PH_ALL, BinaryOp.SUB, op1, op2);
        case RSB => dest := BracketedTwo(flags, PH_ALL, BinaryOp.SUB, op2, op1);
        case ADD => dest := BracketedTwo(flags, PH_ALL, BinaryOp.ADD, op1, op2);
        case ADC => dest := BracketedTwo(flags, PH_ALL, BinaryOp.ADC, op1, op2);
        case SBC => dest := BracketedTwo(flags, PH_ALL, BinaryOp.SBC, op1, op2);
        case RSC => dest := BracketedTwo(flags, PH_ALL, BinaryOp.SBC, op2, op1);
        case TST => if flags { Compare(PH_NZ, TestOp.TST, op1, op2); }
        case TEQ => if flags { Compare(PH_NZ, TestOp.TEQ, op1, op2); }
        case CMP => if flags { Compare(PH_ALL, TestOp.CMP, op1, op2); }
        case CMN => if flags { Compare(PH_ALL, TestOp.CMN, op1, op2); }
        case ORR => dest := BracketedTwo(flags, PH_NZ, BinaryOp.OR, op1, op2);
        case MOV => dest := BracketedOne(flags, PH_NZ, UnaryOp.MOV, op2);
        case BIC => dest := BracketedTwo(flags, PH_NZ, BinaryOp.AND, op1, op2);
        case MVN => dest := BracketedOne(flags, PH_NZ, UnaryOp.NOT, op2);
      }
    }

    method Compare(have: FlagMask, op: TestOp, op1: Temp, op2: Temp)
      requires Valid()
      modifies this
      ensures Valid()
      ensures State() == Bracketed(old(State()), true, have, Test(op, Field(op1), Field(op2)))
    {
      Append(FExpect(have));
      Append(Test(op, Field(op1), Field(op2)));
      Append(FCommit(have, PH_NONE, {}));
    }

    /** pheta_dp_guts. */
    method DpGuts(op: Arm.DpOp, s: bool, rn: Arm.Reg, rd: Arm.Reg, operand: Temp)
      requires Valid() && (Arm.IsCompare(op) ==> s)
      modifies this, lbuf, dirtybuf
      ensures Valid() && State() == Guts(old(State()), op, s, rn, rd, operand)
    {
      hide EmitPlan, PlanFor, LFetch, LCommit, EmitUnary;
      var op1, op2 := 0, operand;
      if NeedsOp1(op) {
        op1 := Fetch(rn);
      }
      if Arm.UsesCarry(op) {
        Append(FEnsure(PH_C));
      }
      if op.BIC? {
        op2 := OneOperand(NOT, op2);
      }
      var dest := Operation(op, s, op1, op2);
      if dest != -1 {
        Commit(rd, dest);
      }
    }

    /** pheta_dp for an immediate shift. */
    method Dp(i: Arm.Inst)
      requires Valid() && i.Dp? && Translatable(i)
      modifies this, lbuf, dirtybuf
      ensures Valid() && State() == TranslateDp(old(State()), i)
    {
      hide TranslateShift, Guts, LFetch, Arm.OperandReg, Arm.ShiftType, Arm.ShiftAmount, Arm.ShiftsByRegister;
      var rm := Fetch(Arm.OperandReg(i.operand2));
      var op2 := Shift(Arm.ShiftType(i.operand2), Arm.ShiftAmount(i.operand2), Arm.IsLogic(i.op) && i.s, rm);
      DpGuts(i.op, i.s, i.rn, i.rd, op2);
    }

    /** pheta_dp_imm. */
    method DpImm(i: Arm.Inst)
      requires Valid() && i.DpImm? && Translatable(i)
      modifies this, lbuf, dirtybuf
      ensures Valid() && State() == TranslateDpImm(old(State()), i)
    {
      hide Guts, EmitConst, EmitConstB, Arm.ImmByte, Arm.ImmRotation, ByteCarry, Ror, BoolWord;
      var value, amount := Arm.ImmByte(i.operand2), Arm.ImmRotation(i.operand2);
      var op2;
      if amount == 0 {
        op2 := ConstantByte(value);
      } else {
        op2 := Constant(Ror(value, amount));
        if i.s && Arm.IsLogic(i.op) {
          var carry := ConstantByte(BoolWord(ByteCarry(i.operand2)));
          Append(FWrite(PH_C, Field(carry)));
        }
      }
      DpGuts(i.op, i.s, i.rn, i.rd, op2);
    }

    /** pheta_mul. */
    method Mul(i: Arm.Inst)
      requires Valid() && i.Mul? && Translatable(i)
      modifies this, lbuf, dirtybuf
      ensures Valid() && State() == TranslateMul(old(State()), i)
    {
      hide LFetch, LCommit, EmitBinary, Bracketed;
      var op1 := Fetch(i.rm);
      var op2 := Fetch(i.rs);
      var dest;
      if i.accumulate {
        var product := TwoOperand(MUL, op1, op2);
        if i.s {
          Append(FExpect(PH_NZ));
          var addend := Fetch(i.rn);
          dest := TwoOperand(BinaryOp.ADD, product, addend);
          Append(FCommit(PH_NZ, PH_NONE, {}));
        } else {
          var addend := Fetch(i.rn);
          dest := TwoOperand(BinaryOp.ADD, product, addend);
        }
      } else {
        dest := BracketedTwo(i.s, PH_NZ, MUL, op1, op2);
      }
      Commit(i.rd, dest);
    }

    /** A straight-line block: each instruction in turn, with write-backs where asked. */
    method TranslateBlock(items: seq<Item>)
      requires Valid() && State() == NewBlock()
      requires forall k :: 0 <= k < |items| && items[k].Instruction? ==> Translatable(items[k].inst)
      modifies this, lbuf, dirtybuf
      ensures Valid() && State() == LSync(Translate(items))
    {
      hide LSync, Translatable, TranslateDp, TranslateDpImm, TranslateMul;
      for n := 0 to |items|
        invariant Valid() && State() == Translate(items[..n])
      {
        assert items[..n + 1][..n] == items[..n];
        match items[n] {
          case WriteBack => Sync();
          case Instruction(i) =>
            match i {
              case Dp(_, _, _, _, _) => Dp(i);
              case DpImm(_, _, _, _, _) => DpImm(i);
              case Mul(_, _, _, _, _, _) => Mul(i);
            }
        }
      }
      assert items[..|items|] == items;
      Sync();
    }
  }
}
