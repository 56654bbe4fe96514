/**
 What an allocation is for: ph2 code run with every temporary in its home does to the ARM
 registers and flags what it does with a temporary for each result, if nothing but a copy is
 put in the home of a temporary that is still live.
 */
module PlacedExecution {
  import opened Words
  import opened Alu
  import opened Ph2
  import opened LiveRanges
  import opened Allocation

  // ---------- code over homes ----------

  /** Homes are numbered, so that code over homes is again ph2 code. */
  function Number(h: Home): Temp {
    match h
    case InReg(num) => 3 * num
    case InSlot(slot) => 3 * slot + 1
    case Literal(t) => 3 * t + 2
  }

  lemma NumbersDiffer(g: Home, h: Home)
    ensures Number(g) == Number(h) <==> g == h
  {
  }

  function Place(c: seq<Alloc>, final: seq<Alloc>, t: Temp): Temp
    requires Descending(c) && |final| == |c|
  {
    if t < |c| then Number(HomeOf(c, final, t)) else 0
  }

  /** An instruction on the homes of its temporaries. */
  function Housed(c: seq<Alloc>, final: seq<Alloc>, i: Instr): Instr
    requires Descending(c) && |final| == |c|
  {
    match i
    case Const(d, imm) => Const(Place(c, final, d), imm)
    case ConstB(d, imm) => ConstB(Place(c, final, d), imm)
    case Fetch(d, r) => Fetch(Place(c, final, d), r)
    case Commit(r, s) => Commit(r, Place(c, final, s))
    case Assoc(r, s) => Assoc(r, Place(c, final, s))
    case Binary(op, d, a, b) => Binary(op, Place(c, final, d), Place(c, final, a), Place(c, final, b))
    case Unary(op, d, a) => Unary(op, Place(c, final, d), Place(c, final, a))
    case Test(op, a, b) => Test(op, Place(c, final, a), Place(c, final, b))
    case FWrite(m, s) => FWrite(m, Place(c, final, s))
    case _ => i
  }

  function HousedCode(c: seq<Alloc>, final: seq<Alloc>, code: seq<Instr>): (housed: seq<Instr>)
    requires Descending(c) && |final| == |c|
    ensures |housed| == |code|
  {
    if code == [] then []
    else HousedCode(c, final, code[..|code| - 1]) + [Housed(c, final, code[|code| - 1])]
  }

  lemma {:induction false} HousedAt(c: seq<Alloc>, final: seq<Alloc>, code: seq<Instr>, k: nat)
    requires Descending(c) && |final| == |c| && k < |code|
    ensures HousedCode(c, final, code)[k] == Housed(c, final, code[k])
  {
    hide Housed;
    if k < |code| - 1 {
      HousedAt(c, final, code[..|code| - 1], k);
    }
  }

  // ---------- the two runs ----------

  /** Registers and flags are alike. */
  predicate SameOutside(p: Machine, q: Machine) {
    p.regs == q.regs && p.f == q.f && p.native == q.native
  }

  /** Before line `n`: every live temporary's home holds its value. */
  ghost predicate Agree(c: seq<Alloc>, final: seq<Alloc>, code: seq<Instr>, table: seq<Range>, n: nat, p: Machine, q: Machine)
    requires Descending(c) && |final| == |c|
  {
    SameOutside(p, q) && forall t: Temp :: LiveAt(code, table, t, n) ==> Get(q, Place(c, final, t)) == Get(p, t)
  }

  lemma OperationHoused(c: seq<Alloc>, final: seq<Alloc>, i: Instr, p: Machine, q: Machine)
    requires Descending(c) && |final| == |c| && SameOutside(p, q) && (i.Binary? || i.Unary?)
    requires forall k :: 0 <= k < |Sources(i)| ==> Get(q, Place(c, final, Sources(i)[k])) == Get(p, Sources(i)[k])
    ensures var p', q' := Ph2.Step(i, p), Ph2.Step(Housed(c, final, i), q);
            && SameOutside(p', q')
            && (HasDest(i) ==> Get(q', Place(c, final, Dest(i))) == Get(p', Dest(i)))
            && (forall t: Temp :: !Defines(i, t) ==> Get(p', t) == Get(p, t))
            && (forall t: Temp :: !(HasDest(i) && t == Place(c, final, Dest(i))) ==> Get(q', t) == Get(q, t))
  {
    hide Place, BinaryOutcome, UnaryOutcome, TestFlags, Merge, Get, Put;
    var native := p.native;
    match i {
      case Binary(op, d, a, b) =>
        assert Sources(i)[0] == a && Sources(i)[1] == b;
        var out := BinaryOutcome(op, Get(p, a), Get(p, b), p.f, native);
        ResultIn(p, d, out.value, out.f);
        ResultIn(q, Place(c, final, d), out.value, out.f);
      case Unary(op, d, a) =>
        assert Sources(i)[0] == a;
        var out := UnaryOutcome(op, Get(p, a), p.f, native);
        ResultIn(p, d, out.value, out.f);
        ResultIn(q, Place(c, final, d), out.value, out.f);
    }
  }

  /** One instruction: given its operands, it does the same outside and leaves its result in its home. */
  lemma StepHoused(c: seq<Alloc>, final: seq<Alloc>, i: Instr, p: Machine, q: Machine)
    requires Descending(c) && |final| == |c| && SameOutside(p, q)
    requires forall k :: 0 <= k < |Sources(i)| ==> Get(q, Place(c, final, Sources(i)[k])) == Get(p, Sources(i)[k])
    ensures var p', q' := Ph2.Step(i, p), Ph2.Step(Housed(c, final, i), q);
            && SameOutside(p', q')
            && (HasDest(i) ==> Get(q', Place(c, final, Dest(i))) == Get(p', Dest(i)))
            && (forall t: Temp :: !Defines(i, t) ==> Get(p', t) == Get(p, t))
            && (forall t: Temp :: !(HasDest(i) && t == Place(c, final, Dest(i))) ==> Get(q', t) == Get(q, t))
  {
    hide Place, BinaryOutcome, UnaryOutcome, TestFlags, Merge, Get, Put;
    var native := p.native;
    match i {
      case Const(d, imm) => ResultIn(p, d, imm, native); ResultIn(q, Place(c, final, d), imm, native);
      case ConstB(d, imm) => ResultIn(p, d, imm, native); ResultIn(q, Place(c, final, d), imm, native);
      case Fetch(d, r) =>
        var v := if r < |p.regs| then p.regs[r] else 0;
        ResultIn(p, d, v, native);
        ResultIn(q, Place(c, final, d), v, native);
      case Binary(_, _, _, _) => OperationHoused(c, final, i, p, q);
      case Unary(_, _, _) => OperationHoused(c, final, i, p, q);
      case _ => NoResult(c, final, i, p, q);
    }
  }

  lemma ResultIn(p: Machine, t: Temp, v: word, native: Flags)
    ensures var m := Put(p, t, v).(native := native);
            Get(m, t) == v && Get(Put(p, t, v), t) == v && SameOutside(m, p.(native := native)) && SameOutside(Put(p, t, v), p)
    ensures forall u: Temp :: u != t ==> Get(Put(p, t, v).(native := native), u) == Get(p, u) == Get(Put(p, t, v), u)
  {
  }

  lemma NoResult(c: seq<Alloc>, final: seq<Alloc>, i: Instr, p: Machine, q: Machine)
    requires Descending(c) && |final| == |c| && SameOutside(p, q) && !HasDest(i)
    requires forall k :: 0 <= k < |Sources(i)| ==> Get(q, Place(c, final, Sources(i)[k])) == Get(p, Sources(i)[k])
    ensures var p', q' := Ph2.Step(i, p), Ph2.Step(Housed(c, final, i), q);
            SameOutside(p', q') && (forall t: Temp :: Get(p', t) == Get(p, t)) && forall t: Temp :: Get(q', t) == Get(q, t)
  {
    hide Place, TestFlags, Merge;
    match i {
      case Test(_, a, b) => assert Sources(i)[0] == a && Sources(i)[1] == b;
      case Commit(_, s) => assert Sources(i)[0] == s;
      case FWrite(_, s) => assert Sources(i)[0] == s;
      case _ =>
    }
  }

  /** A safe allocation is harmless: no other temporary with the result's home is live at all. */
  lemma SafeIsHarmless(alloc: seq<Alloc>, code: seq<Instr>, table: seq<Range>, final: seq<Alloc>)
    requires NoAliases(alloc) && Descending(alloc) && Numbered(code, |alloc|) && Tabled(alloc, code, table)
    requires |table| == |alloc| == |final| && Safe(alloc, code, table, final)
    ensures Harmless(alloc, code, table, final)
  {
    hide Numbered, Tabled, AliasUpTo, ComputedFrom, HomeOf, Safe, NoAliases, Defined, DefLine;
    forall n: nat, t: Temp | n < |code| && HasDest(code[n]) && t != Dest(code[n]) && LiveAt(code, table, t, n + 1)
      ensures !SharesHome(alloc, code, table, final, t, Dest(code[n]))
    {
      var d := Dest(code[n]);
      LiveWithResult(alloc, code, table, n, t);
      TabledSpan(alloc, code, table, t);
      SafePair(alloc, code, table, final, t, d);
    }
  }

  lemma SafePair(alloc: seq<Alloc>, code: seq<Instr>, table: seq<Range>, final: seq<Alloc>, a: Temp, b: Temp)
    requires Descending(alloc) && Numbered(code, |alloc|) && |table| == |alloc| == |final| && Safe(alloc, code, table, final)
    requires a < |alloc| && b < |alloc| && a != b && Defined(code, a) && Defined(code, b)
    ensures var c := AliasUpTo(alloc, code, table, |code|);
            HomeOf(c, final, a) == HomeOf(c, final, b) ==> TakeTurns(code, table, a, b)
  {
  }

  lemma MovValue(i: Instr, p: Machine)
    requires IsMov(i)
    ensures Sources(i) == [i.src] && HasDest(i) && Dest(i) == i.dest && Get(Ph2.Step(i, p), i.dest) == Get(p, i.src)
  {
    hide SignAndZero;
  }

  /** A temporary still live after the line keeps its value in its home. */
  lemma KeptAtHome(alloc: seq<Alloc>, code: seq<Instr>, table: seq<Range>, final: seq<Alloc>, n: nat, p: Machine, q: Machine, t: Temp)
    requires NoAliases(alloc) && Descending(alloc) && Numbered(code, |alloc|) && Tabled(alloc, code, table)
    requires |table| == |alloc| == |final| && Harmless(alloc, code, table, final) && n < |code| && HasDest(code[n])
    requires Agree(AliasUpTo(alloc, code, table, |code|), final, code, table, n, p, q)
    requires LiveAt(code, table, t, n + 1) && t != Dest(code[n])
    requires var c := AliasUpTo(alloc, code, table, |code|);
             var p', q' := Ph2.Step(code[n], p), Ph2.Step(Housed(c, final, code[n]), q);
             && Get(q', Place(c, final, Dest(code[n]))) == Get(p', Dest(code[n])) && Get(p', t) == Get(p, t)
             && forall u: Temp :: u != Place(c, final, Dest(code[n])) ==> Get(q', u) == Get(q, u)
    ensures var c := AliasUpTo(alloc, code, table, |code|);
            Get(Ph2.Step(Housed(c, final, code[n]), q), Place(c, final, t)) == Get(Ph2.Step(code[n], p), t)
  {
    hide Numbered, Tabled, AliasUpTo, Ph2.Step, Housed, HomeOf, Number, DefLine, Defined, Sources, Get;
    var c, d := AliasUpTo(alloc, code, table, |code|), Dest(code[n]);
    LiveWithResult(alloc, code, table, n, t);
    NumbersDiffer(HomeOf(c, final, t), HomeOf(c, final, d));
    if Place(c, final, t) == Place(c, final, d) {
      assert SharesHome(alloc, code, table, final, t, d);
      MovValue(code[n], p);
      assert Uses(code[n], code[n].src);
      UsedWithinSpan(alloc, code, table, n, code[n].src);
      NumbersDiffer(HomeOf(c, final, code[n].src), HomeOf(c, final, d));
    }
  }

  lemma LineAgrees(alloc: seq<Alloc>, code: seq<Instr>, table: seq<Range>, final: seq<Alloc>, n: nat, p: Machine, q: Machine)
    requires NoAliases(alloc) && Descending(alloc) && Numbered(code, |alloc|) && Tabled(alloc, code, table)
    requires |table| == |alloc| == |final| && Harmless(alloc, code, table, final) && n < |code|
    requires Agree(AliasUpTo(alloc, code, table, |code|), final, code, table, n, p, q)
    ensures var c := AliasUpTo(alloc, code, table, |code|);
            Agree(c, final, code, table, n + 1, Ph2.Step(code[n], p), Ph2.Step(Housed(c, final, code[n]), q))
  {
    hide Numbered, Tabled, AliasUpTo, Ph2.Step, Housed, Place, Harmless, DefLine, Defined;
    var c := AliasUpTo(alloc, code, table, |code|);
    forall k | 0 <= k < |Sources(code[n])|
      ensures Get(q, Place(c, final, Sources(code[n])[k])) == Get(p, Sources(code[n])[k])
    {
      assert Uses(code[n], Sources(code[n])[k]);
      UsedWithinSpan(alloc, code, table, n, Sources(code[n])[k]);
    }
    StepHoused(c, final, code[n], p, q);
    var p', q' := Ph2.Step(code[n], p), Ph2.Step(Housed(c, final, code[n]), q);
    forall t: Temp | LiveAt(code, table, t, n + 1) ensures Get(q', Place(c, final, t)) == Get(p', t) {
      if HasDest(code[n]) {
        if t != Dest(code[n]) { KeptAtHome(alloc, code, table, final, n, p, q, t); }
      } else if DefLine(code, t) == n {
        SameLine(code, t, n);
      }
    }
  }

  lemma HousedLast(c: seq<Alloc>, final: seq<Alloc>, code: seq<Instr>, n: nat)
    requires Descending(c) && |final| == |c| && n < |code|
    ensures HousedCode(c, final, code[..n + 1]) == HousedCode(c, final, code[..n]) + [Housed(c, final, code[n])]
    ensures code[..n + 1] == code[..n] + [code[n]]
  {
    assert code[..n + 1][..n] == code[..n];
  }

  lemma {:induction false} RunsAgree(alloc: seq<Alloc>, code: seq<Instr>, table: seq<Range>, final: seq<Alloc>, n: nat, p0: Machine)
    requires NoAliases(alloc) && Descending(alloc) && Numbered(code, |alloc|) && Tabled(alloc, code, table)
    requires |table| == |alloc| == |final| && Harmless(alloc, code, table, final) && n <= |code|
    ensures var c := AliasUpTo(alloc, code, table, |code|);
            Agree(c, final, code, table, n, Exec(code[..n], p0), Exec(HousedCode(c, final, code[..n]), p0))
  {
    hide Numbered, Tabled, AliasUpTo, Ph2.Step, Housed, Place, Harmless;
    var c := AliasUpTo(alloc, code, table, |code|);
    if n > 0 {
      RunsAgree(alloc, code, table, final, n - 1, p0);
      hide Exec, HousedCode, Agree;
      HousedLast(c, final, code, n - 1);
      LineAgrees(alloc, code, table, final, n - 1, Exec(code[..n - 1], p0), Exec(HousedCode(c, final, code[..n - 1]), p0));
      ExecAppend(code[..n - 1], code[n - 1], p0);
      ExecAppend(HousedCode(c, final, code[..n - 1]), Housed(c, final, code[n - 1]), p0);
    }
  }

  /** A harmless allocation preserves meaning. */
  lemma HarmlessAllocationPreservesMeaning(alloc: seq<Alloc>, code: seq<Instr>, table: seq<Range>, final: seq<Alloc>,
                                           p0: Machine)
    requires NoAliases(alloc) && Descending(alloc) && Numbered(code, |alloc|) && Tabled(alloc, code, table)
    requires |table| == |alloc| == |final| && Harmless(alloc, code, table, final)
    ensures var c := AliasUpTo(alloc, code, table, |code|);
            SameOutside(Exec(code, p0), Exec(HousedCode(c, final, code), p0))
  {
    hide Numbered, Tabled, AliasUpTo, Harmless, Exec, HousedCode;
    assert code[..|code|] == code;
    RunsAgree(alloc, code, table, final, |code|, p0);
  }

  /** So does a safe one. */
  lemma SafeAllocationPreservesMeaning(alloc: seq<Alloc>, code: seq<Instr>, table: seq<Range>, final: seq<Alloc>, p0: Machine)
    requires NoAliases(alloc) && Descending(alloc) && Numbered(code, |alloc|) && Tabled(alloc, code, table)
    requires |table| == |alloc| == |final| && Safe(alloc, code, table, final)
    ensures var c := AliasUpTo(alloc, code, table, |code|);
            SameOutside(Exec(code, p0), Exec(HousedCode(c, final, code), p0))
  {
    SafeIsHarmless(alloc, code, table, final);
    HarmlessAllocationPreservesMeaning(alloc, code, table, final, p0);
  }

  // ---------- copies ----------

  /** If every aliased result is a copy, nothing else is put in a class. */
  lemma CopiesAreHarmless(alloc: seq<Alloc>, code: seq<Instr>, table: seq<Range>)
    requires NoAliases(alloc) && Descending(alloc) && Numbered(code, |alloc|) && Tabled(alloc, code, table) && |table| == |alloc|
    requires forall n: nat :: n < |code| && HasDest(code[n]) && IsAlias(AliasUpTo(alloc, code, table, |code|), Dest(code[n]))
               ==> IsMov(code[n])
    ensures CopiesOnly(alloc, code, table)
  {
    hide Numbered, Tabled, AliasUpTo, Defined, DefLine, NoAliases;
    forall n: nat, t: Temp | n < |code| && HasDest(code[n]) && t != Dest(code[n]) && LiveAt(code, table, t, n + 1)
        && SameClass(alloc, code, table, t, Dest(code[n]))
      ensures IsMov(code[n])
    {
      LiveWithResult(alloc, code, table, n, t);
      LaterIsAliased(alloc, code, table, t, Dest(code[n]));
    }
  }
}
