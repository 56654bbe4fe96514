/**
 Live ranges, aliasing and linear scan together: what the allocation promises about the
 temporaries themselves.
 */
module Allocation {
  import opened Ph2
  import opened LiveRanges
  import opened LinearScan
  import opened PriorityQueue

  /** The class interval of `r`: from its definition to the last use of any member. */
  ghost function ClassSpan(c: seq<Alloc>, code: seq<Instr>, r: Temp): Range
    requires Descending(c) && Defined(code, r)
  {
    Range(DefLine(code, r), LastUse(c, code, DefLine(code, r), |code|, r) - DefLine(code, r), r)
  }

  lemma {:induction false} FirstIsPlaced(start: seq<Alloc>, ranges: seq<Range>, k: nat)
    requires k < |ranges| && Unplaced(start, ranges[k].reg) && !Mentions(ranges[..k], ranges[k].reg)
    ensures ranges[k] in PlacedOf(start, ranges)
  {
    var front := ranges[..|ranges| - 1];
    if k < |front| {
      assert front[..k] == ranges[..k];
      FirstIsPlaced(start, front, k);
    } else {
      assert front == ranges[..k];
    }
  }

  lemma SpanOfRoot(c: seq<Alloc>, code: seq<Instr>, r: Temp)
    requires Descending(c) && Numbered(code, |c|) && r < |c| && Defined(code, r) && Close(c, r) == r
    ensures HasDest(code[DefLine(code, r)]) && Span(c, code, |code|, DefLine(code, r)) == ClassSpan(c, code, r)
  {
    DefLineDefines(code, r);
  }

  /** A definition in the class of `r` other than that of `r` comes later. */
  lemma RegDefinedLater(c: seq<Alloc>, code: seq<Instr>, i: nat)
    requires Descending(c) && Numbered(code, |c|) && PointsBack(c, code, |code|) && i < |code| && HasDest(code[i])
    ensures var r := Span(c, code, |code|, i).reg; Defined(code, r) && DefLine(code, r) <= i
  {
    hide Numbered;
    OperandsInRange(code, |c|, i);
    var t := Dest(code[i]);
    assert Defines(code[i], t);
    DefLineIs(code, |c|, i, t);
    RootDefinedFirst(c, code, |code|, t);
  }

  /** The second run places the class interval of every class that has no place. */
  lemma ClassSpanIsPlaced(c: seq<Alloc>, code: seq<Instr>, ranges: seq<Range>, r: Temp)
    requires Descending(c) && Numbered(code, |c|) && PointsBack(c, code, |code|)
    requires AreSpans(c, code, |code|, ranges)
    requires r < |c| && Defined(code, r) && Close(c, r) == r && c[r].Unset?
    ensures ClassSpan(c, code, r) in PlacedOf(c, ranges)
  {
    hide Numbered, LastUse, Span, DefLine, Defined, PlacedOf, PointsBack, DefLines, ClassSpan;
    SpanOfRoot(c, code, r);
    DefLinesExactly(code, |code|);
    var lines := DefLines(code, |code|);
    var k :| 0 <= k < |lines| && lines[k] == DefLine(code, r);
    RootReg(c, code, r);
    forall j | 0 <= j < k ensures ranges[..k][j].reg != r {
      RegDefinedLater(c, code, lines[j]);
    }
    FirstIsPlaced(c, ranges, k);
  }

  lemma RootReg(c: seq<Alloc>, code: seq<Instr>, r: Temp)
    requires Descending(c) && Defined(code, r)
    ensures ClassSpan(c, code, r).reg == r
  {
  }

  /** `t`'s class holds host register `num`. */
  ghost predicate Holds(c: seq<Alloc>, final: seq<Alloc>, t: Temp, num: nat)
    requires Descending(c)
  {
    t < |c| == |final| && c[Close(c, t)].Unset? && final[Close(c, t)] == Ireg(num)
  }

  /** Two classes that hold the same register have disjoint intervals. */
  lemma ClassesApart(c: seq<Alloc>, code: seq<Instr>, ranges: seq<Range>, final: seq<Alloc>, r: Temp, q: Temp, num: nat)
    requires Descending(c) && Numbered(code, |c|) && PointsBack(c, code, |code|)
    requires AreSpans(c, code, |code|, ranges) && InterferenceFree(final, PlacedOf(c, ranges))
    requires Defined(code, r) && Defined(code, q) && r != q && Holds(c, final, r, num) && Holds(c, final, q, num)
    requires Close(c, r) == r && Close(c, q) == q
    ensures !Overlap(ClassSpan(c, code, r), ClassSpan(c, code, q))
  {
    ClassSpanIsPlaced(c, code, ranges, r);
    ClassSpanIsPlaced(c, code, ranges, q);
    hide Numbered, LastUse, DefLine, Defined, PlacedOf, PointsBack, AreSpans;
    var placed := PlacedOf(c, ranges);
    var j :| 0 <= j < |placed| && placed[j] == ClassSpan(c, code, r);
    var k :| 0 <= k < |placed| && placed[k] == ClassSpan(c, code, q);
    assert Clash(final, placed[j], placed[k]) <==> Overlap(placed[j], placed[k]);
    assert Clash(final, placed[k], placed[j]) <==> Overlap(placed[j], placed[k]);
  }

  /** A temporary's span lies within its class's interval. */
  lemma WithinClass(alloc: seq<Alloc>, code: seq<Instr>, table: seq<Range>, t: Temp)
    requires NoAliases(alloc) && Descending(alloc) && Numbered(code, |alloc|) && Tabled(alloc, code, table)
    requires |table| == |alloc| && t < |alloc| && Defined(code, t)
    ensures var c := AliasUpTo(alloc, code, table, |code|);
            Defined(code, Close(c, t)) && PointsBack(c, code, |code|)
            && ClassSpan(c, code, Close(c, t)).start <= table[t].start
            && End(table[t]) <= End(ClassSpan(c, code, Close(c, t)))
  {
    hide Numbered, LastUse, DefLine, Defined, PointsBack, AliasUpTo, Tabled;
    AliasingJoins(alloc, code, table, |code|);
    TabledSpan(alloc, code, table, t);
    ClassSpanCovers(alloc, code, table, t);
  }

  /** Temporaries of different classes with the same register are live at different times. */
  lemma OtherClassesApart(alloc: seq<Alloc>, code: seq<Instr>, table: seq<Range>, ranges: seq<Range>, final: seq<Alloc>,
                          a: Temp, b: Temp, num: nat)
    requires NoAliases(alloc) && Descending(alloc) && Numbered(code, |alloc|) && Tabled(alloc, code, table)
    requires |table| == |alloc| && AreSpans(AliasUpTo(alloc, code, table, |code|), code, |code|, ranges)
    requires InterferenceFree(final, PlacedOf(AliasUpTo(alloc, code, table, |code|), ranges))
    requires a < |alloc| && b < |alloc| && Defined(code, a) && Defined(code, b)
    requires var c := AliasUpTo(alloc, code, table, |code|);
             Close(c, a) != Close(c, b) && Holds(c, final, a, num) && Holds(c, final, b, num)
    ensures End(table[a]) < table[b].start || End(table[b]) < table[a].start
  {
    hide Numbered, LastUse, DefLine, Defined, PlacedOf, PointsBack, AreSpans, AliasUpTo, Tabled, InterferenceFree, ClassSpan;
    var c := AliasUpTo(alloc, code, table, |code|);
    WithinClass(alloc, code, table, a);
    WithinClass(alloc, code, table, b);
    CloseIsIdempotent(c, a);
    CloseIsIdempotent(c, b);
    ClassesApart(c, code, ranges, final, Close(c, a), Close(c, b), num);
  }

  // ---------- where a temporary lives ----------

  /** As palloc_init and palloc_constant leave the places: constants have theirs, nothing else has one. */
  ghost predicate Initial(alloc: seq<Alloc>) {
    forall t :: 0 <= t < |alloc| ==> alloc[t].Unset? || IsConstant(alloc[t])
  }

  /** A host register, a slot of the register file, or a constant. */
  datatype Home = InReg(num: nat) | InSlot(slot: nat) | Literal(t: Temp)

  function HomeOf(c: seq<Alloc>, final: seq<Alloc>, t: Temp): Home
    requires Descending(c) && t < |c| == |final|
  {
    var r := Close(c, t);
    match final[r]
    case Ireg(num) => InReg(num)
    case Rfile(slot) => InSlot(slot)
    case _ => Literal(r)
  }

  /** No two temporaries that share a home are live together, but for the line where one is computed from the other. */
  ghost predicate Safe(alloc: seq<Alloc>, code: seq<Instr>, table: seq<Range>, final: seq<Alloc>)
    requires Descending(alloc) && Numbered(code, |alloc|) && |table| == |alloc| == |final|
  {
    var c := AliasUpTo(alloc, code, table, |code|);
    forall a: Temp, b: Temp :: a < |c| && b < |c| && a != b && Defined(code, a) && Defined(code, b)
      && HomeOf(c, final, a) == HomeOf(c, final, b)
      ==> TakeTurns(code, table, a, b)
  }

  /** A class root after aliasing an initial allocation: not set, and then placed, or constant. */
  lemma RootPlace(alloc: seq<Alloc>, code: seq<Instr>, table: seq<Range>, final: seq<Alloc>, t: Temp)
    requires Initial(alloc) && Descending(alloc) && Numbered(code, |alloc|) && |table| == |alloc|
    requires Complete(AliasUpTo(alloc, code, table, |code|), code, final) && t < |alloc| && Defined(code, t)
    ensures var c := AliasUpTo(alloc, code, table, |code|);
            var r := Close(c, t);
            && |final| == |c| && Defined(code, r)
            && (if c[r].Unset? then final[r].Ireg? || final[r] == Rfile(r) else HomeOf(c, final, t) == Literal(r))
  {
    hide Numbered, AliasUpTo, PointsBack, AllJoin, Defined;
    var c := AliasUpTo(alloc, code, table, |code|);
    AliasingJoins(alloc, code, table, |code|);
    AliasingOnlyJoins(alloc, code, table, |code|);
    RootDefinedFirst(c, code, |code|, t);
  }

  /** Two temporaries with one home are of one class, or their classes hold one register. */
  lemma SameHome(alloc: seq<Alloc>, code: seq<Instr>, table: seq<Range>, final: seq<Alloc>, a: Temp, b: Temp)
    requires Initial(alloc) && Descending(alloc) && Numbered(code, |alloc|) && |table| == |alloc|
    requires Complete(AliasUpTo(alloc, code, table, |code|), code, final)
    requires a < |alloc| && b < |alloc| && Defined(code, a) && Defined(code, b)
    requires var c := AliasUpTo(alloc, code, table, |code|);
             |final| == |c| && HomeOf(c, final, a) == HomeOf(c, final, b) && Close(c, a) != Close(c, b)
    ensures var c := AliasUpTo(alloc, code, table, |code|);
            var num := final[Close(c, a)];
            num.Ireg? && Holds(c, final, a, num.num) && Holds(c, final, b, num.num)
  {
    hide Numbered, AliasUpTo, Complete, Defined;
    RootPlace(alloc, code, table, final, a);
    RootPlace(alloc, code, table, final, b);
  }

  /**
   Where moves let their operands die, two temporaries with one home are live in turns, and
   share at most the line where the second is computed from the first.
   */
  lemma AllocationIsSafe(alloc: seq<Alloc>, code: seq<Instr>, table: seq<Range>, ranges: seq<Range>, final: seq<Alloc>,
                         a: Temp, b: Temp)
    requires Initial(alloc) && NoAliases(alloc) && Descending(alloc) && Numbered(code, |alloc|) && Tabled(alloc, code, table)
    requires MovesDie(alloc, code, table) && |table| == |alloc|
    requires AreSpans(AliasUpTo(alloc, code, table, |code|), code, |code|, ranges)
    requires InterferenceFree(final, PlacedOf(AliasUpTo(alloc, code, table, |code|), ranges))
    requires Complete(AliasUpTo(alloc, code, table, |code|), code, final)
    requires a < |alloc| && b < |alloc| && a != b && Defined(code, a) && Defined(code, b)
    requires var c := AliasUpTo(alloc, code, table, |code|);
             |final| == |c| && HomeOf(c, final, a) == HomeOf(c, final, b)
    ensures TakeTurns(code, table, a, b)
  {
    hide *;
    var c := AliasUpTo(alloc, code, table, |code|);
    if Close(c, a) == Close(c, b) {
      SameClassTakesTurns(alloc, code, table, a, b);
    } else {
      SameHome(alloc, code, table, final, a, b);
      OtherClassesApart(alloc, code, table, ranges, final, a, b, final[Close(c, a)].num);
      ApartTakesTurns(code, table, a, b);
    }
  }

  lemma ApartTakesTurns(code: seq<Instr>, table: seq<Range>, a: Temp, b: Temp)
    requires a < |table| && b < |table|
    requires End(table[a]) < table[b].start || End(table[b]) < table[a].start
    ensures TakeTurns(code, table, a, b)
  {
  }

  /** The allocation is safe exactly when every move that aliases is the last use of its operand. */
  lemma AllocationIsSafeExactly(alloc: seq<Alloc>, code: seq<Instr>, table: seq<Range>, ranges: seq<Range>, final: seq<Alloc>)
    requires Initial(alloc) && NoAliases(alloc) && Descending(alloc) && Numbered(code, |alloc|) && Tabled(alloc, code, table)
    requires |table| == |alloc| && AreSpans(AliasUpTo(alloc, code, table, |code|), code, |code|, ranges)
    requires InterferenceFree(final, PlacedOf(AliasUpTo(alloc, code, table, |code|), ranges))
    requires Complete(AliasUpTo(alloc, code, table, |code|), code, final)
    ensures |final| == |alloc| && (Safe(alloc, code, table, final) <==> MovesDie(alloc, code, table))
  {
    hide Numbered, AliasUpTo, Tabled, AreSpans, InterferenceFree, PlacedOf, Defined, TakeTurns, Initial, NoAliases;
    var c := AliasUpTo(alloc, code, table, |code|);
    assert |final| == |c|;
    if MovesDie(alloc, code, table) {
      forall a: Temp, b: Temp | a < |c| && b < |c| && a != b && Defined(code, a) && Defined(code, b)
          && HomeOf(c, final, a) == HomeOf(c, final, b)
        ensures TakeTurns(code, table, a, b)
      {
        AllocationIsSafe(alloc, code, table, ranges, final, a, b);
      }
    } else {
      var i :| 0 <= i < |code| && MayAlias(alloc, code[i]) && End(table[code[i].src]) > i;
      LivingMoveClashes(alloc, code, table, i);
      assert HomeOf(c, final, code[i].src) == HomeOf(c, final, code[i].dest);
    }
  }

  // ---------- copies in one home ----------

  /** `t` is defined before line `n` and may still be read there or later. */
  ghost predicate LiveAt(code: seq<Instr>, table: seq<Range>, t: Temp, n: nat) {
    t < |table| && Defined(code, t) && DefLine(code, t) < n <= End(table[t])
  }

  /** Nothing but a copy of what it holds is put in the home of another temporary that is still live. */
  ghost predicate Harmless(alloc: seq<Alloc>, code: seq<Instr>, table: seq<Range>, final: seq<Alloc>)
    requires Descending(alloc) && Numbered(code, |alloc|) && |table| == |alloc| == |final|
  {
    forall n: nat, t: Temp :: n < |code| && HasDest(code[n]) && t != Dest(code[n]) && LiveAt(code, table, t, n + 1)
      && SharesHome(alloc, code, table, final, t, Dest(code[n]))
      ==> IsMov(code[n]) && SharesHome(alloc, code, table, final, code[n].src, code[n].dest)
  }

  ghost predicate SharesHome(alloc: seq<Alloc>, code: seq<Instr>, table: seq<Range>, final: seq<Alloc>, a: Temp, b: Temp)
    requires Descending(alloc) && Numbered(code, |alloc|) && |table| == |alloc| == |final|
  {
    var c := AliasUpTo(alloc, code, table, |code|);
    a < |c| && b < |c| && HomeOf(c, final, a) == HomeOf(c, final, b)
  }

  /** Nothing but a copy is put in a class of which another member is still live. */
  ghost predicate CopiesOnly(alloc: seq<Alloc>, code: seq<Instr>, table: seq<Range>)
    requires Descending(alloc) && Numbered(code, |alloc|) && |table| == |alloc|
  {
    forall n: nat, t: Temp :: n < |code| && HasDest(code[n]) && t != Dest(code[n]) && LiveAt(code, table, t, n + 1)
      && SameClass(alloc, code, table, t, Dest(code[n]))
      ==> IsMov(code[n])
  }

  ghost predicate SameClass(alloc: seq<Alloc>, code: seq<Instr>, table: seq<Range>, a: Temp, b: Temp)
    requires Descending(alloc) && Numbered(code, |alloc|) && |table| == |alloc|
  {
    var c := AliasUpTo(alloc, code, table, |code|);
    a < |c| && b < |c| && Close(c, a) == Close(c, b)
  }

  /** A result that joins a class defined before it is aliased, and a move joins its operand's class. */
  lemma MoveJoinsOperand(alloc: seq<Alloc>, code: seq<Instr>, table: seq<Range>, n: nat, t: Temp)
    requires NoAliases(alloc) && Descending(alloc) && Numbered(code, |alloc|) && |table| == |alloc|
    requires n < |code| && IsMov(code[n]) && t < |alloc| && Defined(code, t) && DefLine(code, t) < n
    requires SameClass(alloc, code, table, t, code[n].dest)
    ensures SameClass(alloc, code, table, code[n].src, code[n].dest)
  {
    hide Numbered, AliasUpTo, PointsBack, DefLine, Defined;
    OperandsInRange(code, |alloc|, n);
    DefinedAt(code, |alloc|, n);
    AliasingJoins(alloc, code, table, |code|);
    LaterIsAliased(alloc, code, table, t, code[n].dest);
    assert Joins(AliasUpTo(alloc, code, table, |code|), code, table, n);
  }

  /** Temporaries of two classes do not share a home while both are live. */
  lemma SharedIsSameClass(alloc: seq<Alloc>, code: seq<Instr>, table: seq<Range>, ranges: seq<Range>, final: seq<Alloc>,
                          a: Temp, b: Temp)
    requires Initial(alloc) && NoAliases(alloc) && Descending(alloc) && Numbered(code, |alloc|) && Tabled(alloc, code, table)
    requires |table| == |alloc| == |final| && AreSpans(AliasUpTo(alloc, code, table, |code|), code, |code|, ranges)
    requires InterferenceFree(final, PlacedOf(AliasUpTo(alloc, code, table, |code|), ranges))
    requires Complete(AliasUpTo(alloc, code, table, |code|), code, final)
    requires a < |alloc| && b < |alloc| && Defined(code, a) && Defined(code, b)
    requires table[b].start <= End(table[a]) && table[a].start <= End(table[b])
    ensures SharesHome(alloc, code, table, final, a, b) <==> SameClass(alloc, code, table, a, b)
  {
    hide *;
    var c := AliasUpTo(alloc, code, table, |code|);
    SharesParts(alloc, code, table, final, a, b);
    if SharesHome(alloc, code, table, final, a, b) && Close(c, a) != Close(c, b) {
      SameHome(alloc, code, table, final, a, b);
      OtherClassesApart(alloc, code, table, ranges, final, a, b, final[Close(c, a)].num);
    }
  }

  lemma SharesParts(alloc: seq<Alloc>, code: seq<Instr>, table: seq<Range>, final: seq<Alloc>, a: Temp, b: Temp)
    requires Descending(alloc) && Numbered(code, |alloc|) && |table| == |alloc| == |final| && a < |alloc| && b < |alloc|
    ensures var c := AliasUpTo(alloc, code, table, |code|);
            && |c| == |alloc| && Descending(c)
            && (SharesHome(alloc, code, table, final, a, b) <==> HomeOf(c, final, a) == HomeOf(c, final, b))
            && (SameClass(alloc, code, table, a, b) <==> Close(c, a) == Close(c, b))
            && (Close(c, a) == Close(c, b) ==> HomeOf(c, final, a) == HomeOf(c, final, b))
  {
  }

  /** The allocator's result is harmless exactly when nothing but copies go into classes still live. */
  lemma AllocationIsHarmlessExactly(alloc: seq<Alloc>, code: seq<Instr>, table: seq<Range>, ranges: seq<Range>, final: seq<Alloc>)
    requires Initial(alloc) && NoAliases(alloc) && Descending(alloc) && Numbered(code, |alloc|) && Tabled(alloc, code, table)
    requires |table| == |alloc| == |final| && AreSpans(AliasUpTo(alloc, code, table, |code|), code, |code|, ranges)
    requires InterferenceFree(final, PlacedOf(AliasUpTo(alloc, code, table, |code|), ranges))
    requires Complete(AliasUpTo(alloc, code, table, |code|), code, final)
    ensures Harmless(alloc, code, table, final) <==> CopiesOnly(alloc, code, table)
  {
    hide Numbered, Tabled, AliasUpTo, Complete, AreSpans, InterferenceFree, PlacedOf, Initial, NoAliases, Defined, DefLine,
         SharesHome, SameClass;
    forall n: nat, t: Temp | n < |code| && HasDest(code[n]) && t != Dest(code[n]) && LiveAt(code, table, t, n + 1)
      ensures SharesHome(alloc, code, table, final, t, Dest(code[n])) <==> SameClass(alloc, code, table, t, Dest(code[n]))
      ensures IsMov(code[n]) && SameClass(alloc, code, table, t, Dest(code[n]))
              ==> SharesHome(alloc, code, table, final, code[n].src, code[n].dest)
    {
      LiveWithResult(alloc, code, table, n, t);
      TabledSpan(alloc, code, table, t);
      SharedIsSameClass(alloc, code, table, ranges, final, t, Dest(code[n]));
      if IsMov(code[n]) && SameClass(alloc, code, table, t, Dest(code[n])) {
        MovIs(code[n]);
        assert Uses(code[n], code[n].src);
        UsedWithinSpan(alloc, code, table, n, code[n].src);
        MoveJoinsOperand(alloc, code, table, n, t);
        SharesParts(alloc, code, table, final, code[n].src, code[n].dest);
      }
    }
  }

  lemma MovIs(i: Instr)
    requires IsMov(i)
    ensures HasDest(i) && Dest(i) == i.dest && Sources(i) == [i.src]
  {
  }

  lemma SameLine(code: seq<Instr>, t: Temp, n: nat)
    requires Defined(code, t) && n < |code| && DefLine(code, t) == n
    ensures HasDest(code[n]) && Dest(code[n]) == t
  {
  }

  /** The lines of a result and of another temporary that is live after it. */
  lemma LiveWithResult(alloc: seq<Alloc>, code: seq<Instr>, table: seq<Range>, n: nat, t: Temp)
    requires NoAliases(alloc) && Descending(alloc) && Numbered(code, |alloc|) && Tabled(alloc, code, table) && |table| == |alloc|
    requires n < |code| && HasDest(code[n]) && LiveAt(code, table, t, n + 1) && t != Dest(code[n])
    ensures var d := Dest(code[n]);
            && d < |alloc| && Defined(code, d) && DefLine(code, d) == table[d].start == n <= End(table[d])
            && DefLine(code, t) < n && LiveAt(code, table, t, n)
  {
    hide Numbered, Tabled, LastUse;
    OperandsInRange(code, |alloc|, n);
    DefinedAt(code, |alloc|, n);
    TabledSpan(alloc, code, table, Dest(code[n]));
    if DefLine(code, t) == n { SameLine(code, t, n); }
  }

  /** The spans of a chunk in the order linear scan wants them. */
  lemma SpansArePending(c: seq<Alloc>, code: seq<Instr>, ranges: seq<Range>)
    requires Descending(c) && Numbered(code, |c|) && AreSpans(c, code, |code|, ranges)
    ensures Pending(ranges, 0, |c|)
  {
    hide Numbered, LastUse;
    DefLinesExactly(code, |code|);
    var lines := DefLines(code, |code|);
    forall k | 0 <= k < |ranges| ensures ranges[k].start == lines[k] && ranges[k].reg < |c| {
      SpanParts(c, code, lines[k]);
    }
  }

  lemma FirstRunInRange(alloc: seq<Alloc>, code: seq<Instr>, ranges: seq<Range>)
    requires NoAliases(alloc) && Descending(alloc) && Numbered(code, |alloc|) && AreSpans(alloc, code, |code|, ranges)
    ensures forall k :: 0 <= k < |ranges| ==> ranges[k].reg < |alloc|
  {
    SpansArePending(alloc, code, ranges);
  }

  // ---------- nothing is spilled without need ----------

  /** `s` is the interval of a class that needs a place, and the class is live on `line`. */
  ghost predicate LiveOn(c: seq<Alloc>, code: seq<Instr>, s: Range, line: nat) {
    && Descending(c) && Unplaced(c, s.reg) && Defined(code, s.reg) && s == ClassSpan(c, code, s.reg)
    && s.start <= line <= End(s)
  }

  /** More classes are live on `line` than there are registers. */
  ghost predicate FullHouse(c: seq<Alloc>, code: seq<Instr>, line: nat, on: set<Range>) {
    |on| > MAXREG && forall s :: s in on ==> LiveOn(c, code, s, line)
  }

  /** Seven of them, the host having eight registers of which two are reserved. */
  lemma FullHouseExactly(c: seq<Alloc>, code: seq<Instr>, line: nat, on: set<Range>)
    ensures FullHouse(c, code, line, on) <==> |on| >= 7 && forall s :: s in on ==> LiveOn(c, code, s, line)
  {
  }

  /**
   Every class has a place: what was settled before linear scan stays, and every other class
   has a register, or its own slot if seven classes are live on some line.
   */
  ghost predicate Complete(c: seq<Alloc>, code: seq<Instr>, final: seq<Alloc>) {
    && |final| == |c|
    && (forall t :: 0 <= t < |c| && (c[t].Alias? || IsConstant(c[t])) ==> final[t] == c[t])
    && (forall r: nat :: r < |c| && c[r].Unset? && Defined(code, r) ==> final[r].Ireg? || final[r] == Rfile(r))
    && ((forall r: nat :: r < |c| && c[r].Unset? && Defined(code, r) ==> final[r].Ireg?)
        || exists line: nat, on: set<Range> :: FullHouse(c, code, line, on))
  }

  lemma MemberIsMentioned(ranges: seq<Range>, r: Range)
    requires r in ranges
    ensures Mentions(ranges, r.reg)
  {
    var k :| 0 <= k < |ranges| && ranges[k] == r;
    assert ranges[k].reg == r.reg;
  }

  /** Linear scan places one span for each temporary at most, of those that have no place. */
  lemma {:induction false} PlacedOnce(start: seq<Alloc>, ranges: seq<Range>, r: Range, q: Range)
    requires r in PlacedOf(start, ranges) && q in PlacedOf(start, ranges) && r.reg == q.reg
    ensures r == q && r in ranges && Unplaced(start, r.reg)
  {
    var front, last := ranges[..|ranges| - 1], ranges[|ranges| - 1];
    if r in PlacedOf(start, front) {
      PlacedOnce(start, front, r, r);
      MemberIsMentioned(front, r);
      if q in PlacedOf(start, front) { PlacedOnce(start, front, r, q); }
    } else if q in PlacedOf(start, front) {
      PlacedOnce(start, front, q, q);
      MemberIsMentioned(front, q);
    }
  }

  /** What linear scan places are the class intervals of the classes without a place. */
  lemma PlacedIsClassSpan(c: seq<Alloc>, code: seq<Instr>, ranges: seq<Range>, s: Range)
    requires Descending(c) && Numbered(code, |c|) && PointsBack(c, code, |code|)
    requires AreSpans(c, code, |code|, ranges) && s in PlacedOf(c, ranges)
    ensures Unplaced(c, s.reg) && Defined(code, s.reg) && s == ClassSpan(c, code, s.reg)
  {
    hide Numbered, LastUse, Span, DefLine, Defined, PlacedOf, PointsBack, DefLines, ClassSpan;
    PlacedOnce(c, ranges, s, s);
    DefLinesExactly(code, |code|);
    var lines := DefLines(code, |code|);
    var k :| 0 <= k < |ranges| && ranges[k] == s;
    RegDefinedLater(c, code, lines[k]);
    ClassSpanIsPlaced(c, code, ranges, s.reg);
    RootReg(c, code, s.reg);
    PlacedOnce(c, ranges, s, ClassSpan(c, code, s.reg));
  }

  lemma MentionedIsPlaced(c: seq<Alloc>, code: seq<Instr>, ranges: seq<Range>, r: nat)
    requires Descending(c) && Numbered(code, |c|) && PointsBack(c, code, |code|)
    requires AreSpans(c, code, |code|, ranges) && Unplaced(c, r) && Defined(code, r)
    ensures Mentions(ranges, r) && exists s :: s in PlacedOf(c, ranges) && s.reg == r
  {
    hide Numbered, Defined, PlacedOf, PointsBack, ClassSpan, AreSpans;
    ClassSpanIsPlaced(c, code, ranges, r);
    RootReg(c, code, r);
    PlacedOnce(c, ranges, ClassSpan(c, code, r), ClassSpan(c, code, r));
  }

  lemma AllocationIsComplete(c: seq<Alloc>, code: seq<Instr>, ranges: seq<Range>, final: seq<Alloc>)
    requires Descending(c) && Numbered(code, |c|) && PointsBack(c, code, |code|) && AreSpans(c, code, |code|, ranges)
    requires Settled(c, ranges, final) && SpillsWhenCrowded(final, PlacedOf(c, ranges))
    ensures Complete(c, code, final)
  {
    hide Numbered, PointsBack, AreSpans, PlacedOf, Defined, Mentions;
    var placed := PlacedOf(c, ranges);
    forall r: nat | r < |c| && c[r].Unset? && Defined(code, r)
      ensures (final[r].Ireg? || final[r] == Rfile(r)) && exists k :: 0 <= k < |placed| && placed[k].reg == r
    {
      MentionedIsPlaced(c, code, ranges, r);
    }
    if line: nat :| Crowded(placed, line) {
      var on :| CrowdedBy(placed, line, on);
      forall s | s in on ensures LiveOn(c, code, s, line) {
        PlacedIsClassSpan(c, code, ranges, s);
      }
      assert FullHouse(c, code, line, on);
    }
  }

  /** The passes in the order the recompiler runs them, over a chunk's lines. */
  method AllocateRegisters(alloc: array<Alloc>, code: seq<Instr>) returns (table: seq<Range>)
    requires Initial(alloc[..]) && Descending(alloc[..]) && Numbered(code, alloc.Length)
    modifies alloc
    ensures |table| == alloc.Length && Tabled(old(alloc[..]), code, table)
    ensures Safe(old(alloc[..]), code, table, alloc[..]) <==> MovesDie(old(alloc[..]), code, table)
    ensures Harmless(old(alloc[..]), code, table, alloc[..]) <==> CopiesOnly(old(alloc[..]), code, table)
    ensures Complete(AliasUpTo(old(alloc[..]), code, table, |code|), code, alloc[..])
  {
    hide Numbered, Tabled, MovesDie, AreSpans, PlacedOf, InterferenceFree, Safe, Inv, IsHeap, SpillsWhenCrowded, AliasUpTo,
         Pending, Complete, Settled, PointsBack, AllJoin, Initial, NoAliases, Harmless, CopiesOnly;
    ghost var before := alloc[..];
    InitialHasNoAliases(before);
    var first := FindSpans(alloc[..], code);
    FirstRunInRange(before, code, first);
    var reversetable := ReverseTable(first, alloc.Length);
    FirstRunIsTabled(before, code, first, reversetable);
    table := reversetable;
    SrcDestAlias(alloc, code, reversetable);
    ghost var c := alloc[..];
    var second := FindSpans(alloc[..], code);
    SpansArePending(c, code, second);
    var allocator := new Allocator(alloc);
    assert Flat([second]) == second;
    allocator.LinearScan([second], c);
    AliasingJoins(before, code, table, |code|);
    AllocationIsComplete(c, code, second, alloc[..]);
    AllocationIsSafeExactly(before, code, table, second, alloc[..]);
    AllocationIsHarmlessExactly(before, code, table, second, alloc[..]);
  }

  lemma InitialHasNoAliases(alloc: seq<Alloc>)
    requires Initial(alloc)
    ensures NoAliases(alloc)
  {
  }
}
