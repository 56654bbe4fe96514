/**
 From ARM block to host registers (dynarec/recompile.c): the translator numbers temporaries
 as the allocator needs them, and of the moves it emits only those of an unshifted register
 can leave their operand in use.  Two instructions show what such a MOV can do.
 */
module BlockAllocation {
  import opened Words
  import opened Alu
  import Arm
  import Results
  import opened Ph2
  import opened Translator
  import opened TranslationProof
  import opened LiveRanges
  import opened Allocation
  import opened PlacedExecution

  // ---------- the order of temporaries in translated code ----------

  /** How many temporaries the code defines. */
  function Defs(code: seq<Instr>): nat {
    if code == [] then 0
    else Defs(code[..|code| - 1]) + if HasDest(code[|code| - 1]) then 1 else 0
  }

  /** The temporary is the result of a constant. */
  ghost predicate IsLiteral(code: seq<Instr>, t: Temp) {
    exists i :: 0 <= i < |code| && (code[i].Const? || code[i].ConstB?) && code[i].dest == t
  }

  /** The operands of moves, constants apart. */
  ghost function Spent(code: seq<Instr>): set<Temp> {
    if code == [] then {}
    else
      var front, i := code[..|code| - 1], code[|code| - 1];
      Spent(front) + if IsMov(i) && !IsLiteral(front, i.src) then {i.src} else {}
  }

  /** The temporaries no instruction may read any more: those spent, unless `moves` lets them live on. */
  ghost function Barred(code: seq<Instr>, moves: bool): set<Temp> {
    if moves then {} else Spent(code)
  }

  /** Each result gets the next number, and operands have earlier ones that are not barred. */
  ghost predicate InOrder(code: seq<Instr>, moves: bool) {
    code == [] ||
      var front, i := code[..|code| - 1], code[|code| - 1];
      && InOrder(front, moves) && Fits(i, Defs(front), Barred(front, moves))
  }

  /** The instruction may come when `n` temporaries are defined. */
  ghost predicate Fits(i: Instr, n: nat, barred: set<Temp>) {
    && (HasDest(i) ==> Dest(i) == n)
    && forall s: nat :: Uses(i, s) ==> s < n && s !in barred
  }

  lemma InOrderAppend(code: seq<Instr>, i: Instr, moves: bool)
    requires InOrder(code, moves) && Fits(i, Defs(code), Barred(code, moves))
    ensures InOrder(code + [i], moves) && Defs(code + [i]) == Defs(code) + if HasDest(i) then 1 else 0
    ensures Spent(code + [i]) == Spent(code) + if IsMov(i) && !IsLiteral(code, i.src) then {i.src} else {}
  {
    hide Fits, IsLiteral, Barred;
    var all := code + [i];
    assert all[..|all| - 1] == code && all[|all| - 1] == i;
  }

  ghost predicate Made(code: seq<Instr>, t: nat) {
    exists i :: 0 <= i < |code| && Defines(code[i], t)
  }

  ghost predicate AllMade(code: seq<Instr>, n: nat) {
    forall t: nat :: t < n ==> Made(code, t)
  }

  lemma InOrderLast(code: seq<Instr>, moves: bool)
    requires code != [] && InOrder(code, moves)
    ensures var front, i := code[..|code| - 1], code[|code| - 1];
            && code == front + [i] && InOrder(front, moves) && Fits(i, Defs(front), Barred(front, moves))
            && Defs(code) == Defs(front) + if HasDest(i) then 1 else 0
  {
    hide Fits, HasDest, Barred;
  }

  /** Code in order is numbered as the allocator wants it. */
  lemma {:induction false} InOrderIsNumbered(code: seq<Instr>, moves: bool)
    requires InOrder(code, moves)
    ensures Numbered(code, Defs(code)) && AllMade(code, Defs(code))
  {
    if code == [] {
      NothingNumbered(code);
    } else {
      hide *;
      var front, i := code[..|code| - 1], code[|code| - 1];
      InOrderLast(code, moves);
      InOrderIsNumbered(front, moves);
      NumberedAppend(front, i, Defs(front), Barred(front, moves));
      MadeAppend(front, i, Defs(front), Barred(front, moves));
    }
  }

  lemma NothingNumbered(code: seq<Instr>)
    requires code == []
    ensures Numbered(code, Defs(code)) && AllMade(code, Defs(code))
  {
  }

  lemma MadeAppend(front: seq<Instr>, i: Instr, n: nat, barred: set<Temp>)
    requires AllMade(front, n) && Fits(i, n, barred)
    ensures AllMade(front + [i], n + if HasDest(i) then 1 else 0)
  {
    var code := front + [i];
    forall t: nat | t < n + if HasDest(i) then 1 else 0 ensures Made(code, t) {
      if t < n {
        assert Made(front, t);
        var k :| 0 <= k < |front| && Defines(front[k], t);
        assert Defines(code[k], t);
      } else {
        assert Defines(code[|front|], t);
      }
    }
  }

  lemma NumberedAppend(front: seq<Instr>, i: Instr, n: nat, barred: set<Temp>)
    requires Numbered(front, n) && AllMade(front, n) && Fits(i, n, barred)
    ensures Numbered(front + [i], n + if HasDest(i) then 1 else 0)
  {
    hide HasDest, Dest, Sources;
    var code, m := front + [i], |front|;
    assert forall k :: 0 <= k < m ==> code[k] == front[k];
    forall j, t: nat | 0 <= j < |code| && Uses(code[j], t) ensures exists k :: 0 <= k < j && Defines(code[k], t) {
      if j < m {
        assert Uses(front[j], t);
        var k :| 0 <= k < j && Defines(front[k], t);
        assert Defines(code[k], t);
      } else {
        assert Made(front, t);
        var k :| 0 <= k < |front| && Defines(front[k], t);
        assert Defines(code[k], t);
      }
    }
    DefinesAppend(front, i, n, barred);
    forall k, s: nat | 0 <= k < |code| && Uses(code[k], s) ensures s < n {
      if k < m { assert Uses(front[k], s); }
    }
    forall k, s: nat, t: nat | 0 <= k < |code| && Uses(code[k], s) && Defines(code[k], t) ensures s < t {
      if k < m { assert Uses(front[k], s) && Defines(front[k], t); }
    }
  }

  /** The new result is numbered above all others. */
  lemma DefinesAppend(front: seq<Instr>, i: Instr, n: nat, barred: set<Temp>)
    requires Numbered(front, n) && Fits(i, n, barred)
    ensures forall k, t: nat :: 0 <= k <= |front| && Defines((front + [i])[k], t) ==>
              t < (n + if HasDest(i) then 1 else 0) && (k < |front| <==> t < n)
    ensures forall k, l, t: nat ::
              (0 <= k <= |front| && 0 <= l <= |front| && Defines((front + [i])[k], t) && Defines((front + [i])[l], t)
              ==> k == l)
  {
    hide HasDest, Dest, Sources;
    var code, m := front + [i], |front|;
    forall k, t: nat | 0 <= k <= m && Defines(code[k], t)
      ensures t < (n + if HasDest(i) then 1 else 0) && (k < m <==> t < n)
    {
      if k < m { assert Defines(front[k], t); }
    }
    forall k, l, t: nat | 0 <= k <= m && 0 <= l <= m && Defines(code[k], t) && Defines(code[l], t) ensures k == l {
      if k < m && l < m { assert Defines(front[k], t) && Defines(front[l], t); }
    }
  }

  // ---------- a spent temporary is not read again ----------

  lemma {:induction false} InOrderAt(code: seq<Instr>, moves: bool, k: nat)
    requires InOrder(code, moves) && k < |code|
    ensures Fits(code[k], Defs(code[..k]), Barred(code[..k], moves))
  {
    hide Fits, Barred, Defs;
    var front := code[..|code| - 1];
    if k < |front| {
      InOrderAt(front, moves, k);
      assert front[..k] == code[..k];
    }
  }

  lemma {:induction false} SpentGrows(code: seq<Instr>, k: nat)
    requires k <= |code|
    ensures Spent(code[..k]) <= Spent(code)
  {
    hide IsLiteral;
    if k == |code| {
      assert code[..k] == code;
    } else {
      SpentGrows(code[..|code| - 1], k);
      assert code[..|code| - 1][..k] == code[..k];
    }
  }

  /** In order and without other moves: the operand of a move is a constant, or read for the last time. */
  lemma SpentForGood(code: seq<Instr>, i: nat, k: nat)
    requires InOrder(code, false) && i < k < |code| && IsMov(code[i]) && !IsLiteral(code[..i], code[i].src)
    ensures !Uses(code[k], code[i].src)
  {
    InOrderAt(code, false, k);
    hide InOrder, IsLiteral;
    SpentGrows(code[..k], i + 1);
    assert code[..k][..i + 1] == code[..i + 1];
    assert code[..i + 1][..i] == code[..i] && code[..i + 1][i] == code[i];
    assert code[i].src in Spent(code[..i + 1]);
  }

  // ---------- the translator keeps it ----------

  /** A temporary that may be read. */
  ghost predicate Usable(t: TState, a: Temp, moves: bool) {
    a < t.tempno && a !in Barred(t.code, moves)
  }

  /** The code so far is in order, and the register cache names usable temporaries. */
  ghost predicate Ordered(t: TState, moves: bool) {
    && Translator.WellFormed(t)
    && InOrder(t.code, moves) && Defs(t.code) == t.tempno <= FIELD_LIMIT
    && (forall s :: s in Spent(t.code) ==> s < t.tempno)
    && forall r: nat :: r < NUMREG && t.lbuf[r] != -1 ==> Usable(t, t.lbuf[r], moves)
  }

  /** `u` goes on from `t` without a move. */
  ghost predicate Follows(t: TState, u: TState) {
    && t.tempno <= u.tempno && Spent(u.code) == Spent(t.code)
    && forall a: Temp :: IsLiteral(t.code, a) ==> IsLiteral(u.code, a)
  }

  lemma UsableOn(t: TState, u: TState, a: Temp, moves: bool)
    requires Usable(t, a, moves) && Follows(t, u)
    ensures Usable(u, a, moves)
  {
    hide Spent, IsLiteral;
  }

  lemma FollowsTransitive(t: TState, u: TState, w: TState)
    requires Follows(t, u) && Follows(u, w)
    ensures Follows(t, w)
  {
    hide Spent, IsLiteral;
  }

  lemma LiteralAppend(code: seq<Instr>, i: Instr, a: Temp)
    ensures IsLiteral(code, a) ==> IsLiteral(code + [i], a)
    ensures (i.Const? || i.ConstB?) && i.dest == a ==> IsLiteral(code + [i], a)
  {
    if IsLiteral(code, a) {
      var k :| 0 <= k < |code| && (code[k].Const? || code[k].ConstB?) && code[k].dest == a;
      assert (code + [i])[k] == code[k];
    }
    assert (code + [i])[|code|] == i;
  }

  lemma EmitKeeps(t: TState, i: Instr, moves: bool)
    requires Ordered(t, moves) && Fits(i, t.tempno, Barred(t.code, moves)) && !IsMov(i)
    requires HasDest(i) ==> t.tempno < FIELD_LIMIT
    ensures Ordered(Emit(t, i), moves) && Follows(t, Emit(t, i))
    ensures HasDest(i) ==> Usable(Emit(t, i), t.tempno, moves)
  {
    hide Fits, InOrder, Defs, Spent, IsLiteral;
    InOrderAppend(t.code, i, moves);
    forall a: Temp | IsLiteral(t.code, a) ensures IsLiteral(Emit(t, i).code, a) {
      LiteralAppend(t.code, i, a);
    }
  }

  /** Emitting an instruction without operands or result. */
  lemma MarkKeeps(t: TState, i: Instr, moves: bool)
    requires Ordered(t, moves) && !HasDest(i) && Sources(i) == []
    ensures Ordered(Emit(t, i), moves) && Emit(t, i).tempno == t.tempno && Follows(t, Emit(t, i))
  {
    hide Ordered, Barred, Follows;
    EmitKeeps(t, i, moves);
  }

  lemma ConstKeeps(t: TState, imm: word, moves: bool)
    requires Ordered(t, moves) && t.tempno < FIELD_LIMIT
    ensures Ordered(EmitConst(t, imm), moves) && Ordered(EmitConstB(t, imm), moves)
    ensures EmitConst(t, imm).tempno == t.tempno + 1 == EmitConstB(t, imm).tempno
    ensures Follows(t, EmitConst(t, imm)) && Follows(t, EmitConstB(t, imm))
    ensures Usable(EmitConst(t, imm), t.tempno, moves) && Usable(EmitConstB(t, imm), t.tempno, moves)
    ensures IsLiteral(EmitConst(t, imm).code, t.tempno) && IsLiteral(EmitConstB(t, imm).code, t.tempno)
  {
    hide Ordered, Barred, Follows, Usable, IsLiteral;
    EmitKeeps(t, Const(Field(t.tempno), imm), moves);
    EmitKeeps(t, ConstB(Field(t.tempno), imm), moves);
    LiteralAppend(t.code, Const(Field(t.tempno), imm), t.tempno);
    LiteralAppend(t.code, ConstB(Field(t.tempno), imm), t.tempno);
  }

  lemma OrderedBound(t: TState, moves: bool)
    requires Ordered(t, moves)
    ensures Translator.WellFormed(t) && t.tempno <= FIELD_LIMIT
  {
  }

  lemma BracketKeeps(t: TState, flags: bool, have: FlagMask, i: Instr, moves: bool)
    requires Ordered(t, moves) && Fits(i, t.tempno, Barred(t.code, moves)) && !IsMov(i)
    requires HasDest(i) ==> t.tempno < FIELD_LIMIT
    ensures var u := Bracketed(t, flags, have, i);
            && Ordered(u, moves) && u.tempno == t.tempno + (if HasDest(i) then 1 else 0) && Follows(t, u)
            && (HasDest(i) ==> Usable(u, t.tempno, moves))
  {
    hide Ordered, Fits, Usable, IsLiteral, Spent;
    if flags {
      MarkKeeps(t, FExpect(have), moves);
      var e := Emit(t, FExpect(have));
      EmitKeeps(e, i, moves);
      MarkKeeps(Emit(e, i), FCommit(have, PH_NONE, {}), moves);
      FollowsTransitive(t, e, Emit(e, i));
      FollowsTransitive(t, Emit(e, i), Emit(Emit(e, i), FCommit(have, PH_NONE, {})));
      if HasDest(i) { UsableOn(Emit(e, i), Emit(Emit(e, i), FCommit(have, PH_NONE, {})), t.tempno, moves); }
    } else {
      EmitKeeps(t, i, moves);
    }
  }

  /** The operand of a move is a constant or in no register's cache, or moves are free. */
  ghost predicate Loose(t: TState, a: Temp, moves: bool) {
    moves || IsLiteral(t.code, a) || forall r: nat :: r < |t.lbuf| ==> t.lbuf[r] != a
  }

  /** A move spends its operand. */
  lemma MoveKeeps(t: TState, a: Temp, moves: bool)
    requires Ordered(t, moves) && Usable(t, a, moves) && Loose(t, a, moves) && t.tempno < FIELD_LIMIT
    ensures var u := Emit(t, Unary(MOV, Field(t.tempno), Field(a)));
            Ordered(u, moves) && Usable(u, t.tempno, moves) && u.tempno == t.tempno + 1
  {
    hide InOrder, Defs, Spent, IsLiteral;
    var i := Unary(MOV, Field(t.tempno), Field(a));
    InOrderAppend(t.code, i, moves);
  }

  lemma BracketMoveKeeps(t: TState, flags: bool, have: FlagMask, a: Temp, moves: bool)
    requires Ordered(t, moves) && Usable(t, a, moves) && Loose(t, a, moves) && t.tempno < FIELD_LIMIT
    ensures var u := Bracketed(t, flags, have, Unary(MOV, Field(t.tempno), Field(a)));
            Ordered(u, moves) && Usable(u, t.tempno, moves) && u.tempno == t.tempno + 1
  {
    hide Ordered, Usable, Spent, IsLiteral;
    var i := Unary(MOV, Field(t.tempno), Field(a));
    if flags {
      var e := Emit(t, FExpect(have));
      MarkKeeps(t, FExpect(have), moves);
      UsableOn(t, e, a, moves);
      MoveKeeps(e, a, moves);
      MarkKeeps(Emit(e, i), FCommit(have, PH_NONE, {}), moves);
      UsableOn(Emit(e, i), Emit(Emit(e, i), FCommit(have, PH_NONE, {})), t.tempno, moves);
    } else {
      MoveKeeps(t, a, moves);
    }
  }

  lemma FetchKeeps(t: TState, reg: RegNo, moves: bool)
    requires Ordered(t, moves) && LFetch(t, reg).0.tempno <= FIELD_LIMIT
    ensures var (u, temp) := LFetch(t, reg); Ordered(u, moves) && Usable(u, temp, moves) && Follows(t, u)
  {
    hide InOrder, Defs, Barred, IsLiteral, Spent;
    if t.lbuf[reg] == -1 {
      EmitKeeps(t, Fetch(Field(t.tempno), reg), moves);
    }
  }

  lemma CommitKeeps(t: TState, reg: RegNo, temp: Temp, moves: bool)
    requires Ordered(t, moves) && Usable(t, temp, moves)
    ensures Ordered(LCommit(t, reg, temp), moves)
  {
    hide InOrder, Defs, Barred, IsLiteral, Spent;
    var u := t.(lbuf := t.lbuf[reg := temp], dirty := t.dirty[reg := true]);
    assert Ordered(u, moves);
    UsableFits(t, Assoc(reg, Field(temp)), temp, moves);
    EmitKeeps(u, Assoc(reg, Field(temp)), moves);
  }

  /** An instruction without result that reads one usable temporary. */
  lemma UsableFits(t: TState, i: Instr, a: Temp, moves: bool)
    requires Usable(t, a, moves) && t.tempno <= FIELD_LIMIT && !HasDest(i) && Sources(i) == [Field(a)]
    ensures Fits(i, t.tempno, Barred(t.code, moves))
  {
    hide Barred;
  }

  lemma SyncRegKeeps(t: TState, reg: RegNo, moves: bool)
    requires Ordered(t, moves)
    ensures Ordered(SyncReg(t, reg), moves)
  {
    hide InOrder, Defs, Barred, IsLiteral, Spent;
    if t.lbuf[reg] != -1 && t.dirty[reg] {
      UsableFits(t, Commit(reg, Field(t.lbuf[reg])), t.lbuf[reg], moves);
      EmitKeeps(t, Commit(reg, Field(t.lbuf[reg])), moves);
    }
  }

  lemma {:induction false} SyncKeeps(t: TState, n: nat, moves: bool)
    requires Ordered(t, moves) && n <= NUMREG
    ensures Ordered(SyncBelow(t, n), moves)
  {
    hide Ordered, SyncReg;
    OrderedBound(t, moves);
    if n > 0 {
      SyncKeeps(t, n - 1, moves);
      SyncRegKeeps(SyncBelow(t, n - 1), n - 1, moves);
    }
  }

  /** A two-operand instruction on usable temporaries. */
  lemma BinaryFits(t: TState, op: BinaryOp, a: Temp, b: Temp, moves: bool)
    requires Usable(t, a, moves) && Usable(t, b, moves) && t.tempno < FIELD_LIMIT
    ensures var i := Binary(op, Field(t.tempno), Field(a), Field(b));
            Fits(i, t.tempno, Barred(t.code, moves)) && HasDest(i) && !IsMov(i)
  {
    hide Barred;
  }

  lemma UnaryFits(t: TState, op: UnaryOp, a: Temp, moves: bool)
    requires Usable(t, a, moves) && t.tempno < FIELD_LIMIT && !op.MOV?
    ensures var i := Unary(op, Field(t.tempno), Field(a));
            Fits(i, t.tempno, Barred(t.code, moves)) && HasDest(i) && !IsMov(i)
  {
    hide Barred;
  }

  lemma BinaryKeeps(t: TState, op: BinaryOp, a: Temp, b: Temp, moves: bool)
    requires Ordered(t, moves) && Usable(t, a, moves) && Usable(t, b, moves) && t.tempno < FIELD_LIMIT
    ensures var u := EmitBinary(t, op, a, b);
            Ordered(u, moves) && u.tempno == t.tempno + 1 && Follows(t, u) && Usable(u, t.tempno, moves)
  {
    hide Ordered, Fits, Usable, Follows, Barred;
    BinaryFits(t, op, a, b, moves);
    EmitKeeps(t, Binary(op, Field(t.tempno), Field(a), Field(b)), moves);
  }

  lemma UnaryKeeps(t: TState, op: UnaryOp, a: Temp, moves: bool)
    requires Ordered(t, moves) && Usable(t, a, moves) && t.tempno < FIELD_LIMIT && !op.MOV?
    ensures var u := EmitUnary(t, op, a);
            Ordered(u, moves) && u.tempno == t.tempno + 1 && Follows(t, u) && Usable(u, t.tempno, moves)
  {
    hide Ordered, Fits, Usable, Follows, Barred;
    UnaryFits(t, op, a, moves);
    EmitKeeps(t, Unary(op, Field(t.tempno), Field(a)), moves);
  }

  // ---------- shifts ----------

  /** What a shift leaves: a usable operand, the old one only for LSL #0. */
  ghost predicate ShiftedTo(t: TState, u: TState, op2: Temp, moves: bool) {
    Ordered(u, moves) && Usable(u, op2, moves) && Follows(t, u) && u.lbuf == t.lbuf && op2 >= t.tempno
  }

  lemma ShiftBracketKeeps(t: TState, setC: bool, ty: Arm.Shift, a: Temp, b: Temp, moves: bool)
    requires Ordered(t, moves) && Usable(t, a, moves) && Usable(t, b, moves) && t.tempno < FIELD_LIMIT
    ensures var (u, r) := ShiftBracket(t, setC, ty, a, b);
            ShiftedTo(t, u, r, moves) && r == t.tempno && u.tempno == t.tempno + 1
  {
    hide Ordered, Fits, Bracketed, HasDest, Usable, Follows, Barred;
    BinaryFits(t, Shift(ty), a, b, moves);
    BracketKeeps(t, setC, PH_C, Binary(Shift(ty), Field(t.tempno), Field(a), Field(b)), moves);
  }

  lemma SignBitKeeps(t: TState, op2: Temp, moves: bool)
    requires Ordered(t, moves) && Usable(t, op2, moves) && SignBitToCarry(t, op2).tempno <= FIELD_LIMIT
    ensures Ordered(SignBitToCarry(t, op2), moves) && Follows(t, SignBitToCarry(t, op2))
  {
    hide Ordered, Usable, Follows;
    SignBitTemps(t, op2);
    MarkKeeps(t, FExpect(PH_C), moves);
    var e := Emit(t, FExpect(PH_C));
    ConstKeeps(e, 1, moves);
    var u := EmitConstB(e, 1);
    FollowsTransitive(t, e, u);
    UsableOn(t, u, op2, moves);
    BinaryKeeps(u, Shift(Arm.ASR), op2, t.tempno, moves);
    var w := EmitBinary(u, Shift(Arm.ASR), op2, t.tempno);
    MarkKeeps(w, FCommit(PH_C, PH_NONE, {}), moves);
    FollowsTransitive(t, u, w);
    FollowsTransitive(t, w, SignBitToCarry(t, op2));
  }

  lemma RrxKeeps(t: TState, setC: bool, a: Temp, moves: bool)
    requires Ordered(t, moves) && Usable(t, a, moves) && RrxBracket(t, setC, a).0.tempno <= FIELD_LIMIT
    ensures var (u, r) := RrxBracket(t, setC, a); ShiftedTo(t, u, r, moves)
  {
    hide Ordered, Usable, Follows;
    RrxTemps(t, setC, a);
    MarkKeeps(t, FExpect(PH_C), moves);
    FollowsSelf(t);
    var u := if setC then Emit(t, FExpect(PH_C)) else t;
    ConstKeeps(u, 1, moves);
    var w := EmitConstB(u, 1);
    FollowsTransitive(t, u, w);
    UsableOn(t, w, a, moves);
    UnaryKeeps(w, RRX, a, moves);
    var x := EmitUnary(w, RRX, a);
    FollowsTransitive(t, w, x);
    MarkKeeps(x, FCommit(PH_C, PH_NONE, {}), moves);
    var y := Emit(x, FCommit(PH_C, PH_NONE, {}));
    UsableOn(x, y, w.tempno, moves);
    FollowsTransitive(t, x, y);
  }

  lemma FollowsSelf(t: TState)
    ensures Follows(t, t)
  {
  }

  lemma ShiftKeeps(t: TState, ty: Arm.Shift, k: word, setC: bool, rm: Temp, moves: bool)
    requires Ordered(t, moves) && Usable(t, rm, moves) && TranslateShift(t, ty, k, setC, rm).0.tempno <= FIELD_LIMIT
    ensures var (u, op2) := TranslateShift(t, ty, k, setC, rm);
            if ty.LSL? && k == 0 then (u, op2) == (t, rm) else ShiftedTo(t, u, op2, moves)
  {
    hide Ordered, ShiftBracket, SignBitToCarry, RrxBracket, EmitConstB, Usable, Follows;
    if !(ty.LSL? && k == 0) {
      ShiftTakesTwo(t, ty, k, setC, rm);
      ConstKeeps(t, k, moves);
      var u := EmitConstB(t, k);
      UsableOn(t, u, rm, moves);
      if k != 0 {
        ShiftBracketKeeps(u, setC, ty, rm, t.tempno, moves);
        FollowsTransitive(t, u, ShiftBracket(u, setC, ty, rm, t.tempno).0);
      } else if ty.LSR? {
        LsrZeroKeeps(t, setC, rm, moves);
      } else if ty.ASR? {
        AsrZeroKeeps(t, setC, rm, moves);
      } else {
        var e := Emit(u, FEnsure(PH_C));
        MarkKeeps(u, FEnsure(PH_C), moves);
        UsableOn(u, e, rm, moves);
        RrxKeeps(e, setC, rm, moves);
        FollowsTransitive(t, u, e);
        FollowsTransitive(t, e, RrxBracket(e, setC, rm).0);
      }
    }
  }

  /** Every shift but LSL #0 takes at least two temporaries. */
  lemma ShiftTakesTwo(t: TState, ty: Arm.Shift, k: word, setC: bool, rm: Temp)
    requires !(ty.LSL? && k == 0)
    ensures TranslateShift(t, ty, k, setC, rm).0.tempno >= t.tempno + 2
  {
  }

  lemma LsrZeroKeeps(t: TState, setC: bool, rm: Temp, moves: bool)
    requires Ordered(t, moves) && Usable(t, rm, moves) && TranslateShift(t, Arm.LSR, 0, setC, rm).0.tempno <= FIELD_LIMIT
    ensures var (u, op2) := TranslateShift(t, Arm.LSR, 0, setC, rm); ShiftedTo(t, u, op2, moves)
  {
    hide Ordered, ShiftBracket, Usable, Follows;
    LsrZeroTemps(t, setC, rm);
    ConstKeeps(t, 0, moves);
    var u := EmitConstB(t, 0);
    UsableOn(t, u, rm, moves);
    if setC {
      ConstKeeps(u, 1, moves);
      var w := EmitConstB(u, 1);
      UsableOn(u, w, rm, moves);
      ShiftBracketKeeps(w, true, Arm.LSL, rm, u.tempno, moves);
      var x := ShiftBracket(w, true, Arm.LSL, rm, u.tempno).0;
      ConstKeeps(x, 0, moves);
      FollowsTransitive(t, u, w);
      FollowsTransitive(t, w, x);
      FollowsTransitive(t, x, EmitConstB(x, 0));
    } else {
      ConstKeeps(u, 0, moves);
      FollowsTransitive(t, u, EmitConstB(u, 0));
    }
  }

  lemma LsrZeroTemps(t: TState, setC: bool, rm: Temp)
    ensures TranslateShift(t, Arm.LSR, 0, setC, rm).0.tempno == t.tempno + if setC then 4 else 2
  {
  }

  lemma AsrZeroKeeps(t: TState, setC: bool, rm: Temp, moves: bool)
    requires Ordered(t, moves) && Usable(t, rm, moves) && TranslateShift(t, Arm.ASR, 0, setC, rm).0.tempno <= FIELD_LIMIT
    ensures var (u, op2) := TranslateShift(t, Arm.ASR, 0, setC, rm); ShiftedTo(t, u, op2, moves)
  {
    hide Ordered, ShiftBracket, SignBitToCarry, Usable, Follows;
    AsrZeroTemps(t, setC, rm);
    ConstKeeps(t, 0, moves);
    var u := EmitConstB(t, 0);
    ConstKeeps(u, 31, moves);
    var w := EmitConstB(u, 31);
    FollowsTransitive(t, u, w);
    UsableOn(t, w, rm, moves);
    ShiftBracketKeeps(w, false, Arm.ASR, rm, u.tempno, moves);
    var (x, op2) := ShiftBracket(w, false, Arm.ASR, rm, u.tempno);
    FollowsTransitive(t, w, x);
    if setC {
      SignBitTemps(x, op2);
      SignBitKeeps(x, op2, moves);
      UsableOn(x, SignBitToCarry(x, op2), op2, moves);
      FollowsTransitive(t, x, SignBitToCarry(x, op2));
    }
  }

  lemma AsrZeroTemps(t: TState, setC: bool, rm: Temp)
    ensures TranslateShift(t, Arm.ASR, 0, setC, rm).0.tempno == t.tempno + if setC then 5 else 3
  {
  }

  // ---------- data processing and multiply ----------

  lemma PlanKeeps(t: TState, op: Arm.DpOp, s: bool, op1: Temp, b: Temp, moves: bool)
    requires Ordered(t, moves) && (NeedsOp1(op) ==> Usable(t, op1, moves)) && Usable(t, b, moves)
    requires (Arm.IsCompare(op) ==> s) && (op.MOV? ==> Loose(t, b, moves)) && (Arm.WritesRd(op) ==> t.tempno < FIELD_LIMIT)
    ensures var u := EmitPlan(t, PlanFor(op), s, op1, b);
            Ordered(u, moves) && (Arm.WritesRd(op) ==> Usable(u, t.tempno, moves))
  {
    hide Ordered, Fits, Bracketed, PlanFor, Usable, Loose, Follows, Barred;
    OrderedBound(t, moves);
    PlanKinds(op);
    PlanMoves(op);
    match PlanFor(op) {
      case TwoOperands(bop, reversed, have) =>
        var x, y := if reversed then b else op1, if reversed then op1 else b;
        BinaryFits(t, bop, x, y, moves);
        BracketKeeps(t, s, have, Binary(bop, Field(t.tempno), Field(x), Field(y)), moves);
      case OneOperand(uop, have) =>
        if op.MOV? {
          BracketMoveKeeps(t, s, have, b, moves);
        } else {
          UnaryFits(t, uop, b, moves);
          BracketKeeps(t, s, have, Unary(uop, Field(t.tempno), Field(b)), moves);
        }
      case Comparison(test, have) =>
        TestFits(t, test, op1, b, moves);
        BracketKeeps(t, true, have, Test(test, Field(op1), Field(b)), moves);
    }
  }

  lemma PlanMoves(op: Arm.DpOp)
    ensures PlanFor(op).OneOperand? ==> (PlanFor(op).uop.MOV? <==> op.MOV?)
  {
  }

  lemma TestFits(t: TState, op: TestOp, a: Temp, b: Temp, moves: bool)
    requires Usable(t, a, moves) && Usable(t, b, moves) && t.tempno <= FIELD_LIMIT
    ensures var i := Test(op, Field(a), Field(b)); Fits(i, t.tempno, Barred(t.code, moves)) && !HasDest(i) && !IsMov(i)
  {
    hide Barred;
  }

  lemma GutsKeeps(t: TState, op: Arm.DpOp, s: bool, rn: Arm.Reg, rd: Arm.Reg, op2: Temp, moves: bool)
    requires Ordered(t, moves) && Usable(t, op2, moves) && (Arm.IsCompare(op) ==> s) && (op.MOV? ==> Loose(t, op2, moves))
    requires Guts(t, op, s, rn, rd, op2).tempno <= FIELD_LIMIT
    ensures Ordered(Guts(t, op, s, rn, rd, op2), moves)
  {
    hide Ordered, LFetch, EmitPlan, PlanFor, LCommit, Usable, Loose, Follows;
    OrderedBound(t, moves);
    var (u, op1) := if NeedsOp1(op) then LFetch(t, rn) else (t, 0);
    var w := if Arm.UsesCarry(op) then Emit(u, FEnsure(PH_C)) else u;
    var (x, b) := if op.BIC? then (EmitUnary(w, NOT, op2), w.tempno) else (w, op2);
    var y := EmitPlan(x, PlanFor(op), s, op1, b);
    GutsTempsExactly(t, op, s, rn, rd, op2, u, op1, w, x, b, y);
    FollowsSelf(t);
    FollowsSelf(u);
    FollowsSelf(w);
    if NeedsOp1(op) { FetchKeeps(t, rn, moves); }
    UsableOn(t, u, op2, moves);
    MarkKeeps(u, FEnsure(PH_C), moves);
    UsableOn(u, w, op2, moves);
    if NeedsOp1(op) { UsableOn(u, w, op1, moves); }
    if op.BIC? { UnaryKeeps(w, NOT, op2, moves); }
    if NeedsOp1(op) { UsableOn(w, x, op1, moves); }
    PlanKeeps(x, op, s, op1, b, moves);
    if Arm.WritesRd(op) { CommitKeeps(y, rd, x.tempno, moves); }
  }

  lemma GutsTempsExactly(t: TState, op: Arm.DpOp, s: bool, rn: Arm.Reg, rd: Arm.Reg, op2: Temp,
                         u: TState, op1: Temp, w: TState, x: TState, b: Temp, y: TState)
    requires Translator.WellFormed(t) && (Arm.IsCompare(op) ==> s)
    requires (u, op1) == if NeedsOp1(op) then LFetch(t, rn) else (t, 0)
    requires w == if Arm.UsesCarry(op) then Emit(u, FEnsure(PH_C)) else u
    requires (x, b) == if op.BIC? then (EmitUnary(w, NOT, op2), w.tempno) else (w, op2)
    requires y == EmitPlan(x, PlanFor(op), s, op1, b)
    ensures t.tempno <= u.tempno == w.tempno && x.tempno == w.tempno + (if op.BIC? then 1 else 0)
    ensures y.tempno == x.tempno + (if Arm.WritesRd(op) then 1 else 0)
    ensures Guts(t, op, s, rn, rd, op2).tempno == y.tempno
  {
    hide LFetch, EmitPlan, PlanFor;
    PlanTemps(x, op, s, op1, b);
    if NeedsOp1(op) { FetchGrows(t, rn); }
  }

  /** MOV of a register as it is: the one ARM instruction whose move may leave its operand in use. */
  predicate IsPlainMov(i: Arm.Inst) {
    i.Dp? && i.op.MOV? && Arm.ShiftType(i.operand2).LSL? && Arm.ShiftAmount(i.operand2) == 0
  }

  /** By its encoding: MOV Rd, Rm, LSL #0. */
  lemma PlainMovExactly(i: Arm.Inst, n: bv5, t: bv2, m: bv4)
    requires i.Dp? && i.operand2 == Results.ByAmount(n, t, m)
    ensures IsPlainMov(i) <==> i.op == Arm.MOV && n == 0 && t == 0
  {
    hide Arm.ShiftType, Arm.ShiftAmount, Results.ByAmount;
    Results.AmountDecodes(n, t, m);
    AmountIsZero(n);
  }

  lemma AmountIsZero(n: bv5)
    ensures n as word == 0 <==> n == 0
  {
  }

  /** A temporary newer than those cached before is in no register's cache. */
  lemma NewIsLoose(t: TState, u: TState, a: Temp, moves: bool)
    requires Ordered(t, moves) && u.lbuf == t.lbuf && a >= t.tempno
    ensures Loose(u, a, moves)
  {
    hide InOrder, Defs, Spent, IsLiteral;
  }

  lemma DpKeeps(t: TState, i: Arm.Inst, moves: bool)
    requires Ordered(t, moves) && i.Dp? && Translatable(i) && (IsPlainMov(i) ==> moves)
    requires TranslateDp(t, i).tempno <= FIELD_LIMIT
    ensures Ordered(TranslateDp(t, i), moves)
  {
    hide Ordered, LFetch, TranslateShift, Guts, Arm.OperandReg, Arm.ShiftType, Arm.ShiftAmount, Arm.ShiftsByRegister,
         Usable, Follows;
    OrderedBound(t, moves);
    var rn := Arm.OperandReg(i.operand2);
    var ty, k := Arm.ShiftType(i.operand2), Arm.ShiftAmount(i.operand2);
    var (u, rm) := LFetch(t, rn);
    var setC := Arm.IsLogic(i.op) && i.s;
    var (w, op2) := TranslateShift(u, ty, k, setC, rm);
    ShiftGrows(u, ty, k, setC, rm);
    GutsGrows(w, i.op, i.s, i.rn, i.rd, op2);
    FetchKeeps(t, rn, moves);
    ShiftKeeps(u, ty, k, setC, rm, moves);
    if !(ty.LSL? && k == 0) { NewIsLoose(u, w, op2, moves); }
    GutsKeeps(w, i.op, i.s, i.rn, i.rd, op2, moves);
  }

  lemma ImmKeeps(t: TState, i: Arm.Inst, moves: bool)
    requires Ordered(t, moves) && i.DpImm? && Translatable(i)
    requires TranslateDpImm(t, i).tempno <= FIELD_LIMIT
    ensures Ordered(TranslateDpImm(t, i), moves)
  {
    hide Ordered, Guts, Ror, ByteCarry, Arm.ImmByte, Arm.ImmRotation, EmitConst, EmitConstB, Usable, IsLiteral, Spent;
    OrderedBound(t, moves);
    var value, amount := Arm.ImmByte(i.operand2), Arm.ImmRotation(i.operand2);
    var u := if amount == 0 then EmitConstB(t, value) else EmitConst(t, Ror(value, amount));
    var carries := amount != 0 && i.s && Arm.IsLogic(i.op);
    var c := if carries then BoolWord(ByteCarry(i.operand2)) else 0;
    var w := if carries then Emit(EmitConstB(u, c), FWrite(PH_C, Field(u.tempno))) else u;
    GutsGrows(w, i.op, i.s, i.rn, i.rd, t.tempno);
    ImmTemps(t, if amount == 0 then value else Ror(value, amount), u, c);
    ConstKeeps(t, value, moves);
    if amount != 0 { ConstKeeps(t, Ror(value, amount), moves); }
    if carries {
      ConstKeeps(u, c, moves);
      FWriteKeeps(EmitConstB(u, c), u.tempno, moves);
      UsableOn(u, EmitConstB(u, c), t.tempno, moves);
      UsableOn(EmitConstB(u, c), w, t.tempno, moves);
    }
    GutsKeeps(w, i.op, i.s, i.rn, i.rd, t.tempno, moves);
  }

  lemma ImmTemps(t: TState, v: word, u: TState, c: word)
    requires u == EmitConst(t, v) || u == EmitConstB(t, v)
    ensures u.tempno == t.tempno + 1 && EmitConstB(u, c).tempno == t.tempno + 2
  {
  }

  lemma FWriteKeeps(t: TState, temp: Temp, moves: bool)
    requires Ordered(t, moves) && Usable(t, temp, moves)
    ensures Ordered(Emit(t, FWrite(PH_C, Field(temp))), moves) && Follows(t, Emit(t, FWrite(PH_C, Field(temp))))
  {
    hide Ordered, Usable, Follows, Fits, Barred;
    OrderedBound(t, moves);
    UsableFits(t, FWrite(PH_C, Field(temp)), temp, moves);
    EmitKeeps(t, FWrite(PH_C, Field(temp)), moves);
  }

  lemma MulKeeps(t: TState, i: Arm.Inst, moves: bool)
    requires Ordered(t, moves) && i.Mul? && Translatable(i) && TranslateMul(t, i).tempno <= FIELD_LIMIT
    ensures Ordered(TranslateMul(t, i), moves)
  {
    hide Ordered, LFetch, SimpleMul, Accumulate, TranslateMul, Usable, Follows;
    OrderedBound(t, moves);
    var (u, a) := LFetch(t, i.rm);
    var (w, b) := LFetch(u, i.rs);
    MulTemps(t, i, u, a, w, b);
    FetchKeeps(t, i.rm, moves);
    FetchKeeps(u, i.rs, moves);
    UsableOn(u, w, a, moves);
    if i.accumulate {
      AccumulateKeeps(w, i, a, b, moves);
    } else {
      SimpleMulKeeps(w, i, a, b, moves);
    }
  }

  lemma SimpleMulKeeps(w: TState, i: Arm.Inst, a: Temp, b: Temp, moves: bool)
    requires Ordered(w, moves) && i.Mul? && Usable(w, a, moves) && Usable(w, b, moves) && w.tempno < FIELD_LIMIT
    requires Translator.WellFormed(w)
    ensures Ordered(SimpleMul(w, i, a, b), moves)
  {
    hide Ordered, Fits, Bracketed, LCommit, Usable, Follows, Barred;
    var mul := Binary(MUL, Field(w.tempno), Field(a), Field(b));
    BinaryFits(w, MUL, a, b, moves);
    BracketKeeps(w, i.s, PH_NZ, mul, moves);
    CommitKeeps(Bracketed(w, i.s, PH_NZ, mul), i.rd, w.tempno, moves);
  }

  lemma AccumulateKeeps(w: TState, i: Arm.Inst, a: Temp, b: Temp, moves: bool)
    requires Ordered(w, moves) && i.Mul? && Usable(w, a, moves) && Usable(w, b, moves) && Translator.WellFormed(w)
    requires Accumulate(w, i, a, b).tempno <= FIELD_LIMIT && w.tempno < FIELD_LIMIT
    ensures Ordered(Accumulate(w, i, a, b), moves)
  {
    hide Ordered, LFetch, LCommit, Usable, Follows;
    BinaryKeeps(w, MUL, a, b, moves);
    var x := EmitBinary(w, MUL, a, b);
    MarkKeeps(x, FExpect(PH_NZ), moves);
    FollowsSelf(x);
    var y := if i.s then Emit(x, FExpect(PH_NZ)) else x;
    var (z, addend) := LFetch(y, i.rn);
    AccumulateTempsExactly(w, i, a, b, x, y, z, addend);
    FetchKeeps(y, i.rn, moves);
    UsableOn(x, y, w.tempno, moves);
    UsableOn(y, z, w.tempno, moves);
    BinaryKeeps(z, ADD, w.tempno, addend, moves);
    var v := EmitBinary(z, ADD, w.tempno, addend);
    MarkKeeps(v, FCommit(PH_NZ, PH_NONE, {}), moves);
    UsableOn(v, Emit(v, FCommit(PH_NZ, PH_NONE, {})), z.tempno, moves);
    CommitKeeps(if i.s then Emit(v, FCommit(PH_NZ, PH_NONE, {})) else v, i.rd, z.tempno, moves);
  }

  lemma AccumulateTempsExactly(w: TState, i: Arm.Inst, a: Temp, b: Temp, x: TState, y: TState, z: TState, addend: Temp)
    requires Translator.WellFormed(w) && i.Mul? && x == EmitBinary(w, MUL, a, b)
    requires y == (if i.s then Emit(x, FExpect(PH_NZ)) else x) && (z, addend) == LFetch(y, i.rn)
    ensures x.tempno == w.tempno + 1 == y.tempno <= z.tempno
    ensures EmitBinary(z, ADD, w.tempno, addend).tempno == z.tempno + 1 == Accumulate(w, i, a, b).tempno
    ensures Accumulate(w, i, a, b) == LCommit(
              if i.s then Emit(EmitBinary(z, ADD, w.tempno, addend), FCommit(PH_NZ, PH_NONE, {}))
              else EmitBinary(z, ADD, w.tempno, addend), i.rd, z.tempno)
  {
    hide LFetch;
    FetchGrows(y, i.rn);
  }

  // ---------- a whole block ----------

  predicate HasPlainMovs(items: seq<Item>) {
    exists k :: 0 <= k < |items| && items[k].Instruction? && IsPlainMov(items[k].inst)
  }

  lemma ItemKeeps(t: TState, item: Item, moves: bool)
    requires Ordered(t, moves) && (item.Instruction? ==> Translatable(item.inst) && (IsPlainMov(item.inst) ==> moves))
    requires Translator.WellFormed(t) && TranslateItem(t, item).tempno <= FIELD_LIMIT
    ensures Ordered(TranslateItem(t, item), moves)
  {
    hide Ordered, TranslateDp, TranslateDpImm, TranslateMul, SyncBelow, Translatable, IsPlainMov;
    if item.WriteBack? {
      SyncKeeps(t, NUMREG, moves);
    } else {
      match item.inst {
        case Dp(_, _, _, _, _) => DpKeeps(t, item.inst, moves);
        case DpImm(_, _, _, _, _) => ImmKeeps(t, item.inst, moves);
        case Mul(_, _, _, _, _, _) => MulKeeps(t, item.inst, moves);
      }
    }
  }

  lemma NewBlockOrdered(moves: bool)
    ensures Ordered(NewBlock(), moves)
  {
  }

  lemma {:induction false} BlockOrdered(items: seq<Item>, moves: bool)
    requires AllTranslatable(items) && Translate(items).tempno <= FIELD_LIMIT && (HasPlainMovs(items) ==> moves)
    ensures Ordered(Translate(items), moves)
  {
    hide Ordered, TranslateItem, Translatable, IsPlainMov;
    if items == [] {
      NewBlockOrdered(moves);
    } else {
      var n := |items| - 1;
      var front, last := items[..n], items[n];
      ItemGrows(Translate(front), last);
      if HasPlainMovs(front) {
        var k :| 0 <= k < |front| && front[k].Instruction? && IsPlainMov(front[k].inst);
        assert items[k] == front[k];
      }
      assert last.Instruction? && IsPlainMov(last.inst) ==> items[n] == last && HasPlainMovs(items);
      BlockOrdered(front, moves);
      ItemKeeps(Translate(front), last, moves);
    }
  }

  /** The code of a translated block, written back at its end. */
  function BlockCode(items: seq<Item>): seq<Instr> {
    LSync(Translate(items)).code
  }

  /** Every translated block is numbered as the allocator wants it. */
  lemma TranslationIsNumbered(items: seq<Item>)
    requires AllTranslatable(items) && Translate(items).tempno <= FIELD_LIMIT
    ensures Numbered(BlockCode(items), Translate(items).tempno)
    ensures InOrder(BlockCode(items), HasPlainMovs(items))
  {
    hide Translate, Numbered, InOrder, Defs, SyncBelow, HasPlainMovs, Spent;
    var moves := HasPlainMovs(items);
    var t := Translate(items);
    BlockOrdered(items, moves);
    SyncKeeps(t, NUMREG, moves);
    SyncKeepsTemps(t, NUMREG);
    InOrderIsNumbered(LSync(t).code, moves);
  }

  // ---------- moves that die ----------

  /** Without aliases a class is one temporary. */
  lemma ReadsItself(alloc: seq<Alloc>, i: Instr, s: Temp)
    requires NoAliases(alloc) && Descending(alloc)
    ensures UsesClass(alloc, i, s) ==> Uses(i, s)
  {
    forall t: nat | Uses(i, t) && t < |alloc| ensures Close(alloc, t) == t {
      NothingToClose(alloc, t);
    }
  }

  /** Where the operand of a move is not read later, its span ends there. */
  lemma UnreadEnds(alloc: seq<Alloc>, code: seq<Instr>, table: seq<Range>, i: nat, s: Temp)
    requires NoAliases(alloc) && Descending(alloc) && Numbered(code, |alloc|) && Tabled(alloc, code, table)
    requires i < |code| && Uses(code[i], s) && forall k :: i < k < |code| ==> !Uses(code[k], s)
    ensures s < |alloc| == |table| && End(table[s]) <= i
  {
    hide Numbered, LastUse;
    UsedWithinSpan(alloc, code, table, i, s);
    TabledSpan(alloc, code, table, s);
    var last := LastUse(alloc, code, DefLine(code, s), |code|, s);
    LastUseIsLast(alloc, code, DefLine(code, s), |code|, s, last);
    ReadsItself(alloc, code[last], s);
  }

  /** A block without MOV of an unshifted register lets every move's operand die. */
  lemma OtherMovesDie(items: seq<Item>, alloc: seq<Alloc>, table: seq<Range>)
    requires AllTranslatable(items) && Translate(items).tempno <= FIELD_LIMIT && !HasPlainMovs(items)
    requires NoAliases(alloc) && Descending(alloc) && Numbered(BlockCode(items), |alloc|)
    requires Tabled(alloc, BlockCode(items), table) && ConstantsPlaced(BlockCode(items), alloc)
    ensures MovesDie(alloc, BlockCode(items), table)
  {
    hide Numbered, InOrder, Translate, SyncBelow, HasPlainMovs, AllTranslatable;
    var code := BlockCode(items);
    TranslationIsNumbered(items);
    forall i | 0 <= i < |code| && MayAlias(alloc, code[i]) ensures End(table[code[i].src]) <= i {
      var s := code[i].src;
      assert Sources(code[i]) == [s] && Uses(code[i], s);
      NotLiteral(code, alloc, i, s);
      forall k | i < k < |code| ensures !Uses(code[k], s) {
        SpentForGood(code, i, k);
      }
      UnreadEnds(alloc, code, table, i, s);
    }
  }

  lemma NotLiteral(code: seq<Instr>, alloc: seq<Alloc>, i: nat, s: Temp)
    requires ConstantsPlaced(code, alloc) && i <= |code| && s < |alloc| && !IsConstant(alloc[s])
    ensures !IsLiteral(code[..i], s)
  {
    forall k | 0 <= k < i && (code[k].Const? || code[k].ConstB?) ensures code[k].dest != s {
      assert alloc[Dest(code[k])] == PlaceOf(code[k]);
    }
  }

  // ---------- allocation from the start ----------

  /** Where palloc_constant puts a result. */
  function PlaceOf(i: Instr): Alloc {
    if i.ConstB? then ConstByte else if i.Const? then Constant else Unset
  }

  ghost predicate ConstantsPlaced(code: seq<Instr>, alloc: seq<Alloc>) {
    forall i :: 0 <= i < |code| && HasDest(code[i]) ==>
      Dest(code[i]) < |alloc| && alloc[Dest(code[i])] == PlaceOf(code[i])
  }

  /** palloc_init and palloc_constant: constants have their place, nothing else has one. */
  method InitialAllocation(code: seq<Instr>, n: nat) returns (alloc: array<Alloc>)
    requires Numbered(code, n)
    ensures fresh(alloc) && alloc.Length == n && Initial(alloc[..]) && Descending(alloc[..])
    ensures ConstantsPlaced(code, alloc[..])
  {
    hide Numbered;
    alloc := new Alloc[n](_ => Unset);
    for i := 0 to |code|
      invariant Initial(alloc[..])
      invariant forall t :: 0 <= t < n && alloc[t] != Unset ==> exists j :: 0 <= j < i && Defines(code[j], t)
      invariant ConstantsPlaced(code[..i], alloc[..])
    {
      OperandsInRange(code, n, i);
      OneDefinition(code, n, i);
      if code[i].Const? || code[i].ConstB? {
        assert Defines(code[i], Dest(code[i]));
        alloc[Dest(code[i])] := PlaceOf(code[i]);
      }
    }
    assert code[..|code|] == code;
  }

  lemma OneDefinition(code: seq<Instr>, n: nat, i: nat)
    requires Numbered(code, n) && i < |code|
    ensures forall j :: 0 <= j < |code| && HasDest(code[i]) && Defines(code[j], Dest(code[i])) ==> j == i
  {
    if HasDest(code[i]) {
      assert Defines(code[i], Dest(code[i]));
    }
  }

  /** Translation, constants, spans, aliasing, spans again and linear scan, for one block. */
  method AllocateBlock(items: seq<Item>) returns (alloc: array<Alloc>, initial: seq<Alloc>, table: seq<Range>)
    requires AllTranslatable(items) && Translate(items).tempno <= FIELD_LIMIT
    ensures Descending(initial) && Numbered(BlockCode(items), |initial|) && |table| == |initial| == alloc.Length
    ensures Initial(initial) && ConstantsPlaced(BlockCode(items), initial) && Tabled(initial, BlockCode(items), table)
    ensures Safe(initial, BlockCode(items), table, alloc[..]) <==> MovesDie(initial, BlockCode(items), table)
    ensures !HasPlainMovs(items) ==> Safe(initial, BlockCode(items), table, alloc[..])
    ensures Harmless(initial, BlockCode(items), table, alloc[..]) <==> CopiesOnly(initial, BlockCode(items), table)
    ensures Complete(AliasUpTo(initial, BlockCode(items), table, |BlockCode(items)|), BlockCode(items), alloc[..])
  {
    hide *;
    TranslationIsNumbered(items);
    alloc := InitialAllocation(BlockCode(items), Translate(items).tempno);
    initial := alloc[..];
    table := AllocateRegisters(alloc, BlockCode(items));
    InitialHasNoAliases(initial);
    if !HasPlainMovs(items) {
      OtherMovesDie(items, initial, table);
    }
  }

  /**
   From ARM to host registers: run with every temporary in its home, a block whose allocation
   is harmless leaves r0-r14 and NZCV as its instructions one at a time.
   */
  lemma AllocatedBlockIsCorrect(items: seq<Item>, initial: seq<Alloc>, table: seq<Range>, final: seq<Alloc>,
                                p0: Machine, st: Arm.ArmState)
    requires AllTranslatable(items) && Translate(items).tempno <= FIELD_LIMIT
    requires NoAliases(initial) && Descending(initial) && Numbered(BlockCode(items), |initial|)
    requires Tabled(initial, BlockCode(items), table) && |table| == |initial| == |final|
    requires Harmless(initial, BlockCode(items), table, final)
    requires |p0.regs| == NUMREG && Arm.Valid(st) && p0.regs[..Arm.PC] == st.r[..Arm.PC] && p0.f == st.f
    ensures var c := AliasUpTo(initial, BlockCode(items), table, |BlockCode(items)|);
            var q := Exec(HousedCode(c, final, BlockCode(items)), p0);
            var end := RunItems(items, st);
            q.f == end.f && |q.regs| == NUMREG && q.regs[..Arm.PC] == end.r[..Arm.PC]
  {
    HarmlessAllocationPreservesMeaning(initial, BlockCode(items), table, final, p0);
    hide Translate, Numbered, Tabled, Harmless, Exec, HousedCode, RunItems, AliasUpTo, SyncBelow;
    TranslationCorrect(items, p0, st);
  }

  // ---------- moves ----------

  /** MOV r1, r0 and ADD r2, r0, r0. */
  const MOVE_BLOCK := [Instruction(Arm.Dp(Arm.MOV, false, 0, 1, 0)), Instruction(Arm.Dp(Arm.ADD, false, 0, 2, 0))]

  const MOVED := [Fetch(0, 0), Unary(MOV, 1, 0), Assoc(1, 1), Binary(ADD, 2, 0, 0), Assoc(2, 2), Commit(1, 1), Commit(2, 2)]

  const MOVED_SPANS := [Range(0, 3, 0), Range(1, 4, 1), Range(3, 3, 2)]

  /** Aliasing gives `a` and `b` one home, though `b` is defined while `a` is still to be read. */
  ghost predicate Clash(alloc: seq<Alloc>, code: seq<Instr>, table: seq<Range>, a: Temp, b: Temp) {
    && NoAliases(alloc) && Descending(alloc) && Numbered(code, |alloc|) && Tabled(alloc, code, table)
    && |table| == |alloc| && a < |alloc| && b < |alloc|
    && Close(AliasUpTo(alloc, code, table, |code|), a) == Close(AliasUpTo(alloc, code, table, |code|), b)
    && table[a].start < table[b].start < End(table[a])
  }

  /**
   With a move the promise fails.  Of these two instructions, the copy still to be stored
   and the sum are aliased with the same temporary, so the sum is computed over the copy.
   */
  lemma MoveIsOverwritten()
    ensures AllTranslatable(MOVE_BLOCK) && BlockCode(MOVE_BLOCK) == MOVED
    ensures Clash([Unset, Unset, Unset], MOVED, MOVED_SPANS, 1, 2)
    ensures !MovesDie([Unset, Unset, Unset], MOVED, MOVED_SPANS)
  {
    hide AliasUpTo, Numbered, UsesClass, LastUse, Sources, Defined, DefLine, Translate, SyncBelow;
    var alloc := [Unset, Unset, Unset];
    MoveBlockCode();
    MovedIsNumbered();
    MovedSpan(0, 0, 3);
    MovedSpan(1, 1, 5);
    MovedSpan(2, 3, 6);
    assert Defines(MOVED[0], 0) && Defines(MOVED[1], 1) && Defines(MOVED[3], 2);
    DefLineIs(MOVED, 3, 0, 0);
    DefLineIs(MOVED, 3, 1, 1);
    DefLineIs(MOVED, 3, 3, 2);
    MovedAliases();
    assert MayAlias(alloc, MOVED[1]);
  }

  /** The same code over temporaries `a`, `b` and `d`. */
  function MovedOver(a: Temp, b: Temp, d: Temp): seq<Instr> {
    [Fetch(a, 0), Unary(MOV, b, a), Assoc(1, b), Binary(ADD, d, a, a), Assoc(2, d), Commit(1, b), Commit(2, d)]
  }

  lemma FetchSteps(a: Temp, p: Machine)
    requires |p.regs| == NUMREG
    ensures Ph2.Step(Fetch(a, 0), p) == Put(p, a, p.regs[0])
  {
  }

  lemma CopySteps(b: Temp, a: Temp, p: Machine) returns (f: Flags)
    ensures Ph2.Step(Unary(MOV, b, a), p) == Put(p, b, Get(p, a)).(native := f)
  {
    f := Ph2.Step(Unary(MOV, b, a), p).native;
  }

  lemma SumSteps(d: Temp, a: Temp, p: Machine) returns (f: Flags)
    ensures Ph2.Step(Binary(ADD, d, a, a), p) == Put(p, d, SumWord(Get(p, a), Get(p, a), false)).(native := f)
  {
    hide SumWord, SumFlags;
    f := Ph2.Step(Binary(ADD, d, a, a), p).native;
  }

  lemma StoresStep(b: Temp, d: Temp, p: Machine)
    requires |p.regs| == NUMREG
    ensures Ph2.Step(Commit(2, d), Ph2.Step(Commit(1, b), p)).regs[1] == Get(p, b)
  {
  }

  lemma MovedRun(a: Temp, b: Temp, d: Temp, p0: Machine)
    requires |p0.regs| == NUMREG
    ensures Exec(MovedOver(a, b, d), p0).regs[1] == if b == d then SumWord(p0.regs[0], p0.regs[0], false) else p0.regs[0]
  {
    hide SumWord, Ph2.Step, Exec;
    var code := MovedOver(a, b, d);
    var x := p0.regs[0];
    FetchSteps(a, p0);
    var p1 := Ph2.Step(code[0], p0);
    var f := CopySteps(b, a, p1);
    var p2 := Ph2.Step(code[1], p1);
    var g := SumSteps(d, a, p2);
    var p3 := Ph2.Step(code[3], p2);
    assert Get(p1, a) == x && Get(p2, a) == x && Get(p2, b) == x;
    assert Get(p3, d) == SumWord(x, x, false) && (b != d ==> Get(p3, b) == x);
    MovedSteps(code, p0, p1, p2, p3);
    StoresStep(b, d, p3);
  }

  lemma AssocSteps(i: Instr, p: Machine)
    requires i.Assoc?
    ensures Ph2.Step(i, p) == p
  {
  }

  lemma MovedSteps(code: seq<Instr>, p0: Machine, p1: Machine, p2: Machine, p3: Machine)
    requires |code| == 7 && code[2].Assoc? && code[4].Assoc?
    requires p1 == Ph2.Step(code[0], p0) && p2 == Ph2.Step(code[1], p1) && p3 == Ph2.Step(code[3], p2)
    ensures Exec(code, p0) == Ph2.Step(code[6], Ph2.Step(code[5], p3))
  {
    hide Ph2.Step, Exec;
    AssocSteps(code[2], p2);
    AssocSteps(code[4], p3);
    assert Exec([], p0) == p0 by { NothingRuns(p0); }
    ExecAppend([], code[0], p0);
    ExecAppend([code[0]], code[1], p0);
    ExecAppend([code[0], code[1]], code[2], p0);
    ExecAppend(code[..3], code[3], p0);
    ExecAppend(code[..4], code[4], p0);
    ExecAppend(code[..5], code[5], p0);
    ExecAppend(code[..6], code[6], p0);
    assert [] + [code[0]] == [code[0]] && [code[0]] + [code[1]] == [code[0], code[1]];
    assert [code[0], code[1]] + [code[2]] == code[..3] && code[..3] + [code[3]] == code[..4];
    assert code[..4] + [code[4]] == code[..5] && code[..5] + [code[5]] == code[..6] && code[..6] + [code[6]] == code;
  }

  lemma NothingRuns(p: Machine)
    ensures Exec([], p) == p
  {
  }

  lemma DoubleIsZero(x: word)
    ensures SumWord(x, x, false) == x <==> x == 0
  {
  }

  /** Run in its homes, whatever the register, the block leaves r0 + r0 in r1, which is right only for zero. */
  lemma MoveRunsWrongExactly(num: nat, p0: Machine)
    requires |p0.regs| == NUMREG
    ensures var c, final := [Unset, Alias(0), Alias(0)], [Ireg(num), Alias(0), Alias(0)];
            Exec(HousedCode(c, final, MOVED), p0).regs[1] == Exec(MOVED, p0).regs[1] <==> p0.regs[0] == 0
  {
    hide Exec, SumWord;
    MovedRun(0, 1, 2, p0);
    MovedRun(3 * num, 3 * num, 3 * num, p0);
    DoubleIsZero(p0.regs[0]);
    MovedHoused(num);
  }

  lemma MovedHoused(num: nat)
    ensures HousedCode([Unset, Alias(0), Alias(0)], [Ireg(num), Alias(0), Alias(0)], MOVED)
         == MovedOver(3 * num, 3 * num, 3 * num)
  {
    var c, final, h := [Unset, Alias(0), Alias(0)], [Ireg(num), Alias(0), Alias(0)], 3 * num;
    var over, housed := MovedOver(h, h, h), HousedCode(c, final, MOVED);
    assert Place(c, final, 0) == h && Place(c, final, 1) == h && Place(c, final, 2) == h;
    hide Place, HousedCode;
    forall k | 0 <= k < 7 ensures housed[k] == over[k] {
      HousedAt(c, final, MOVED, k);
    }
  }

  /** The translator's state after `code`, with registers r0 up to `cached` in temporaries of their number. */
  ghost predicate Holding(t: TState, code: seq<Instr>, cached: nat) {
    && t.code == code && t.tempno == cached && Translator.WellFormed(t) && cached <= NUMREG
    && forall r: nat :: r < NUMREG ==>
         && t.lbuf[r] == (if r < cached then r else -1)
         && t.dirty[r] == (0 < r < cached)
  }

  lemma MoveBlockCode()
    ensures AllTranslatable(MOVE_BLOCK) && BlockCode(MOVE_BLOCK) == MOVED
  {
    hide Holding, TranslateItem, SyncBelow;
    NoFields();
    var w := Translate(MOVE_BLOCK);
    var first := MOVE_BLOCK[..1];
    assert first[..0] == [] && MOVE_BLOCK[1] == Instruction(Arm.Dp(Arm.ADD, false, 0, 2, 0));
    assert Translate(first) == TranslateItem(Translate(first[..0]), first[0]);
    assert w == TranslateItem(Translate(first), MOVE_BLOCK[1]);
    MoveCode(NewBlock());
    SumCode(Translate(first));
    SyncCode(w);
  }

  lemma NoFields()
    ensures Arm.OperandReg(0) == 0 && Arm.ShiftType(0) == Arm.LSL && Arm.ShiftAmount(0) == 0 && !Arm.ShiftsByRegister(0)
  {
  }

  lemma MoveCode(t: TState)
    requires t == NewBlock()
    ensures Holding(TranslateItem(t, MOVE_BLOCK[0]), MOVED[..3], 2)
  {
    hide Arm.OperandReg, Arm.ShiftType, Arm.ShiftAmount;
    NoFields();
    var u := Emit(t, Fetch(0, 0)).(lbuf := t.lbuf[0 := 0]);
    assert LFetch(t, 0) == (u, 0);
    var x := Emit(u, Unary(MOV, 1, 0));
    assert Guts(u, Arm.MOV, false, 0, 1, 0) == LCommit(x, 1, 1);
    assert MOVED[..3] == [] + [MOVED[0]] + [MOVED[1]] + [MOVED[2]];
  }

  lemma SumCode(t: TState)
    requires Holding(t, MOVED[..3], 2)
    ensures Holding(TranslateItem(t, MOVE_BLOCK[1]), MOVED[..5], 3)
  {
    hide Arm.OperandReg, Arm.ShiftType, Arm.ShiftAmount;
    NoFields();
    assert LFetch(t, 0) == (t, 0);
    var x := Emit(t, Binary(ADD, 2, 0, 0));
    assert Guts(t, Arm.ADD, false, 0, 2, 0) == LCommit(x, 2, 2);
    assert MOVED[..5] == MOVED[..3] + [MOVED[3]] + [MOVED[4]];
  }

  lemma SyncCode(t: TState)
    requires Holding(t, MOVED[..5], 3)
    ensures LSync(t).code == MOVED
  {
    var u := SyncBelow(t, 3);
    assert SyncBelow(t, 1) == SyncReg(SyncBelow(t, 0), 0) == t;
    var one := Emit(t, Commit(1, 1)).(lbuf := t.lbuf[1 := -1]);
    assert SyncBelow(t, 2) == SyncReg(t, 1) == one;
    assert u == SyncReg(one, 2) == Emit(one, Commit(2, 2)).(lbuf := one.lbuf[2 := -1]);
    assert u.code == MOVED[..5] + [MOVED[5]] + [MOVED[6]] == MOVED;
    assert forall r: nat :: 3 <= r < NUMREG ==> u.lbuf[r] == -1;
    NothingToSync(t, 3, NUMREG);
  }

  /** Registers that are not in the cache need no write-back. */
  lemma {:induction false} NothingToSync(t: TState, m: nat, n: nat)
    requires Translator.WellFormed(t) && m <= n <= NUMREG
    requires forall r: nat :: m <= r < n ==> SyncBelow(t, m).lbuf[r] == -1
    ensures SyncBelow(t, n) == SyncBelow(t, m)
  {
    if m < n {
      NothingToSync(t, m, n - 1);
    }
  }

  lemma MovedSources()
    ensures Sources(MOVED[0]) == [] && Sources(MOVED[1]) == [0] && Sources(MOVED[2]) == [1]
    ensures Sources(MOVED[3]) == [0, 0] && Sources(MOVED[4]) == [2] && Sources(MOVED[5]) == [1] && Sources(MOVED[6]) == [2]
  {
  }

  lemma MovedIsNumbered()
    ensures Numbered(MOVED, 3)
  {
    hide Sources;
    MovedSources();
    assert Defines(MOVED[0], 0) && Defines(MOVED[1], 1) && Defines(MOVED[3], 2);
  }

  /** Temporary `t`, defined at line `line`, is last read at `last`. */
  lemma MovedSpan(t: nat, line: nat, last: nat)
    requires (t, line, last) == (0, 0, 3) || (t, line, last) == (1, 1, 5) || (t, line, last) == (2, 3, 6)
    ensures LastUse([Unset, Unset, Unset], MOVED, line, 7, t) == last
  {
    hide Sources;
    MovedSources();
    var alloc := [Unset, Unset, Unset];
    LastUseIsLast(alloc, MOVED, line, 7, t, last);
    assert Uses(MOVED[last], t) && Close(alloc, t) == t;
    assert UsesClass(alloc, MOVED[last], t);
    forall j | last < j < 7 ensures !UsesClass(alloc, MOVED[j], t) {}
  }

  lemma MovedAlias(n: nat, before: seq<Alloc>, after: seq<Alloc>)
    requires Numbered(MOVED, 3) && n < 7 && |before| == 3 && Descending(before)
    requires AliasUpTo([Unset, Unset, Unset], MOVED, MOVED_SPANS, n) == before
    requires AliasStep(before, MOVED[n], n, MOVED_SPANS) == after
    ensures AliasUpTo([Unset, Unset, Unset], MOVED, MOVED_SPANS, n + 1) == after
  {
    hide Numbered, AliasStep;
  }

  /** The line of the MOV, and the line of the ADD. */
  lemma MovedAliasedLines()
    ensures AliasStep([Unset, Unset, Unset], MOVED[1], 1, MOVED_SPANS) == [Unset, Alias(0), Unset]
    ensures AliasStep([Unset, Alias(0), Unset], MOVED[3], 3, MOVED_SPANS) == [Unset, Alias(0), Alias(0)]
  {
  }

  lemma MovedOtherLines(alloc: seq<Alloc>, n: nat)
    requires |alloc| == 3 && Descending(alloc) && (n == 0 || n == 2 || n >= 4) && n < 7
    ensures AliasStep(alloc, MOVED[n], n, MOVED_SPANS) == alloc
  {
  }

  lemma MovedAliases()
    requires Numbered(MOVED, 3)
    ensures AliasUpTo([Unset, Unset, Unset], MOVED, MOVED_SPANS, 7) == [Unset, Alias(0), Alias(0)]
  {
    hide Numbered;
    var none, one, both := [Unset, Unset, Unset], [Unset, Alias(0), Unset], [Unset, Alias(0), Alias(0)];
    assert AliasUpTo(none, MOVED, MOVED_SPANS, 0) == none;
    hide AliasUpTo, AliasStep;
    MovedAliasedLines();
    MovedOtherLines(none, 0);
    MovedOtherLines(one, 2);
    MovedOtherLines(both, 4);
    MovedOtherLines(both, 5);
    MovedOtherLines(both, 6);
    MovedAlias(0, none, none);
    MovedAlias(1, none, one);
    MovedAlias(2, one, one);
    MovedAlias(3, one, both);
    MovedAlias(4, both, both);
    MovedAlias(5, both, both);
    MovedAlias(6, both, both);
  }
}
