/**
 Live spans of temporaries and the aliasing of a result with its dying first operand
 (palloc_findspans, palloc_srcdestalias, palloc_close, dynarec/palloc.c).  Lines number the
 instructions of a chunk in the order its blocks are visited.
 */
module LiveRanges {
  import opened Ph2

  // ---------- allocations ----------

  datatype Alloc = Unset | ConstByte | Constant | Rfile(slot: nat) | Ireg(num: nat) | Alias(value: Temp)

  /** Alias edges go to lower-numbered temporaries. */
  ghost predicate Descending(alloc: seq<Alloc>) {
    forall t :: 0 <= t < |alloc| && alloc[t].Alias? ==> alloc[t].value < t
  }

  /** palloc_close: follow aliases to the temporary that stands for the whole class. */
  function Close(alloc: seq<Alloc>, t: Temp): (r: Temp)
    requires Descending(alloc) && t < |alloc|
    ensures r <= t && r < |alloc| && !alloc[r].Alias?
  {
    if alloc[t].Alias? then Close(alloc, alloc[t].value) else t
  }

  lemma CloseIsIdempotent(alloc: seq<Alloc>, t: Temp)
    requires Descending(alloc) && t < |alloc|
    ensures Close(alloc, Close(alloc, t)) == Close(alloc, t)
  {
  }

  // ---------- code ----------

  /** The temporary an instruction defines. */
  function Dest(i: Instr): Temp
    requires HasDest(i)
  {
    i.dest
  }

  predicate Uses(i: Instr, t: Temp) {
    t in Sources(i)
  }

  predicate Defines(i: Instr, t: Temp) {
    HasDest(i) && Dest(i) == t
  }

  /**
   Code as pheta_emit leaves it: below `n` temporaries, each defined once, before its uses,
   and numbered above its operands.
   */
  ghost predicate Numbered(code: seq<Instr>, n: nat) {
    && (forall i, t: nat :: 0 <= i < |code| && Uses(code[i], t) ==> t < n)
    && (forall i, t: nat :: 0 <= i < |code| && Defines(code[i], t) ==> t < n)
    && (forall i, s: nat, t: nat :: 0 <= i < |code| && Uses(code[i], s) && Defines(code[i], t) ==> s < t)
    && (forall i, j, t: nat :: 0 <= i < |code| && 0 <= j < |code| && Defines(code[i], t) && Defines(code[j], t) ==> i == j)
    && (forall j, t: nat :: 0 <= j < |code| && Uses(code[j], t) ==> exists i :: 0 <= i < j && Defines(code[i], t))
  }

  // ---------- spans ----------

  datatype Range = Range(start: nat, length: nat, reg: Temp)

  function End(r: Range): nat {
    r.start + r.length
  }

  /** An instruction reads some temporary of the class of `r`. */
  ghost predicate UsesClass(alloc: seq<Alloc>, i: Instr, r: Temp)
    requires Descending(alloc)
  {
    exists s: nat :: Uses(i, s) && s < |alloc| && Close(alloc, s) == r
  }

  /** The last of the lines `start..n` that reads the class of `r`; `start` if none does. */
  ghost function LastUse(alloc: seq<Alloc>, code: seq<Instr>, start: nat, n: nat, r: Temp): (line: nat)
    requires Descending(alloc) && n <= |code|
    ensures line == start || start < line < n
  {
    if n <= start + 1 then start
    else if UsesClass(alloc, code[n - 1], r) then n - 1
    else LastUse(alloc, code, start, n - 1, r)
  }

  lemma {:induction false} LastUseIsLast(alloc: seq<Alloc>, code: seq<Instr>, start: nat, n: nat, r: Temp, j: nat)
    requires Descending(alloc) && n <= |code|
    ensures LastUse(alloc, code, start, n, r) > start ==> UsesClass(alloc, code[LastUse(alloc, code, start, n, r)], r)
    ensures start < j < n && UsesClass(alloc, code[j], r) ==> j <= LastUse(alloc, code, start, n, r)
  {
    if n > start + 1 && !UsesClass(alloc, code[n - 1], r) { LastUseIsLast(alloc, code, start, n - 1, r, j); }
  }

  /** The span of the definition at line `i`, once the lines below `n` are scanned. */
  ghost function Span(alloc: seq<Alloc>, code: seq<Instr>, n: nat, i: nat): Range
    requires Descending(alloc) && i < n <= |code| && HasDest(code[i]) && Numbered(code, |alloc|)
  {
    assert Defines(code[i], Dest(code[i]));
    var r := Close(alloc, Dest(code[i]));
    Range(i, LastUse(alloc, code, i, n, r) - i, r)
  }

  /** The lines below `n` that define something, in order. */
  function DefLines(code: seq<Instr>, n: nat): (lines: seq<nat>)
    requires n <= |code|
    ensures forall k :: 0 <= k < |lines| ==> lines[k] < n && HasDest(code[lines[k]])
  {
    if n == 0 then []
    else DefLines(code, n - 1) + if HasDest(code[n - 1]) then [n - 1] else []
  }

  lemma {:induction false} DefLinesExactly(code: seq<Instr>, n: nat)
    requires n <= |code|
    ensures forall i :: 0 <= i < n && HasDest(code[i]) ==> i in DefLines(code, n)
    ensures forall j, k :: 0 <= j < k < |DefLines(code, n)| ==> DefLines(code, n)[j] < DefLines(code, n)[k]
  {
    if n > 0 {
      DefLinesExactly(code, n - 1);
      forall i | 0 <= i < n && HasDest(code[i]) ensures i in DefLines(code, n) {
        if i < n - 1 { assert i in DefLines(code, n - 1); }
      }
    }
  }

  /** `ranges` are the spans of the definitions below `n`, in order. */
  ghost predicate AreSpans(alloc: seq<Alloc>, code: seq<Instr>, n: nat, ranges: seq<Range>)
    requires Descending(alloc) && n <= |code| && Numbered(code, |alloc|)
  {
    var lines := DefLines(code, n);
    |ranges| == |lines| && forall k :: 0 <= k < |ranges| ==> ranges[k] == Span(alloc, code, n, lines[k])
  }

  /** palloc_findspans: a new span for each definition, and every span of a class stretched at each of its uses. */
  method FindSpans(alloc: seq<Alloc>, code: seq<Instr>) returns (ranges: seq<Range>)
    requires Descending(alloc) && Numbered(code, |alloc|)
    ensures AreSpans(alloc, code, |code|, ranges)
  {
    ranges := [];
    for i := 0 to |code|
      invariant AreSpans(alloc, code, i, ranges)
    {
      ghost var was := ranges;
      if HasDest(code[i]) {
        assert Defines(code[i], Dest(code[i]));
        ranges := ranges + [Range(i, 0, Close(alloc, Dest(code[i])))];
        assert ranges[..|ranges| - 1] == was;
      }
      ghost var before := ranges;
      ranges := Stretch(alloc, code[i], i, ranges);
      StretchedAreSpans(alloc, code, i, before, ranges);
    }
  }

  ghost function StretchedIfUsed(alloc: seq<Alloc>, instr: Instr, r: Range, line: nat): Range
    requires Descending(alloc) && r.start <= line
  {
    if UsesClass(alloc, instr, r.reg) then r.(length := line - r.start) else r
  }

  /** End at `line` each span whose class the instruction reads. */
  method Stretch(alloc: seq<Alloc>, instr: Instr, line: nat, ranges: seq<Range>) returns (out: seq<Range>)
    requires Descending(alloc) && forall t: nat :: Uses(instr, t) ==> t < |alloc|
    requires forall k :: 0 <= k < |ranges| ==> ranges[k].start <= line
    ensures |out| == |ranges|
    ensures forall k :: 0 <= k < |out| ==> out[k] == StretchedIfUsed(alloc, instr, ranges[k], line)
  {
    out := ranges;
    for k := 0 to |ranges|
      invariant |out| == |ranges|
      invariant forall m :: k <= m < |out| ==> out[m] == ranges[m]
      invariant forall m :: 0 <= m < k ==> out[m] == StretchedIfUsed(alloc, instr, ranges[m], line)
    {
      var hit := ReadsClass(alloc, instr, ranges[k].reg);
      if hit { out := out[k := ranges[k].(length := line - ranges[k].start)]; }
    }
  }

  method ReadsClass(alloc: seq<Alloc>, instr: Instr, r: Temp) returns (hit: bool)
    requires Descending(alloc) && forall t: nat :: Uses(instr, t) ==> t < |alloc|
    ensures hit <==> UsesClass(alloc, instr, r)
  {
    hit := false;
    var src := Sources(instr);
    for j := 0 to |src|
      invariant hit ==> UsesClass(alloc, instr, r)
      invariant forall m :: 0 <= m < j && src[m] < |alloc| && Close(alloc, src[m]) == r ==> hit
    {
      assert Uses(instr, src[j]);
      if Close(alloc, src[j]) == r { hit := true; }
    }
    if UsesClass(alloc, instr, r) {
      ghost var s: nat :| Uses(instr, s) && s < |alloc| && Close(alloc, s) == r;
      ghost var m :| 0 <= m < |src| && src[m] == s;
    }
  }

  /** One more line: the spans so far, and a new empty one if the line defines something. */
  ghost predicate AreSpansAndNew(alloc: seq<Alloc>, code: seq<Instr>, i: nat, ranges: seq<Range>)
    requires Descending(alloc) && i < |code| && Numbered(code, |alloc|)
  {
    if HasDest(code[i]) then
      assert Defines(code[i], Dest(code[i]));
      |ranges| > 0 && AreSpans(alloc, code, i, ranges[..|ranges| - 1])
      && ranges[|ranges| - 1] == Range(i, 0, Close(alloc, Dest(code[i])))
    else AreSpans(alloc, code, i, ranges)
  }

  lemma StretchedAreSpans(alloc: seq<Alloc>, code: seq<Instr>, i: nat, ranges: seq<Range>, out: seq<Range>)
    requires Descending(alloc) && i < |code| && Numbered(code, |alloc|)
    requires AreSpansAndNew(alloc, code, i, ranges) && |out| == |ranges|
    requires forall k :: 0 <= k < |ranges| ==> ranges[k].start <= i
    requires forall k :: 0 <= k < |out| ==> out[k] == StretchedIfUsed(alloc, code[i], ranges[k], i)
    ensures AreSpans(alloc, code, i + 1, out)
  {
  }

  // ---------- source/destination aliasing ----------

  predicate IsConstant(a: Alloc) {
    a.Constant? || a.ConstByte?
  }

  predicate IsMov(i: Instr) {
    i.Unary? && i.op1.MOV?
  }

  /** What aliasing does at one line; `table` gives the span of each temporary. */
  function AliasStep(alloc: seq<Alloc>, instr: Instr, line: nat, table: seq<Range>): seq<Alloc>
    requires Descending(alloc) && |table| == |alloc|
    requires HasDest(instr) ==> Dest(instr) < |alloc|
    requires Sources(instr) != [] ==> Sources(instr)[0] < |alloc|
  {
    if !HasDest(instr) || Sources(instr) == [] then alloc
    else
      var dest, src := Dest(instr), Sources(instr)[0];
      var root := Close(alloc, src);
      if !alloc[dest].Unset? || IsConstant(alloc[root]) then alloc
      else if IsMov(instr) then alloc[dest := Alias(src)]
      else if End(table[src]) <= line then alloc[dest := Alias(root)]
      else alloc
  }

  /** Aliasing over the first `n` lines. */
  function AliasUpTo(alloc: seq<Alloc>, code: seq<Instr>, table: seq<Range>, n: nat): (a: seq<Alloc>)
    requires Descending(alloc) && |table| == |alloc| && Numbered(code, |alloc|) && n <= |code|
    ensures |a| == |alloc| && Descending(a)
  {
    if n == 0 then alloc
    else
      var before := AliasUpTo(alloc, code, table, n - 1);
      OperandsInRange(code, |alloc|, n - 1);
      AliasStep(before, code[n - 1], n - 1, table)
  }

  lemma OperandsInRange(code: seq<Instr>, n: nat, i: nat)
    requires Numbered(code, n) && i < |code|
    ensures HasDest(code[i]) ==> Dest(code[i]) < n && forall k :: 0 <= k < |Sources(code[i])| ==> Sources(code[i])[k] < Dest(code[i])
    ensures forall k :: 0 <= k < |Sources(code[i])| ==> Sources(code[i])[k] < n
  {
    if HasDest(code[i]) { assert Defines(code[i], Dest(code[i])); }
    forall k | 0 <= k < |Sources(code[i])|
      ensures Sources(code[i])[k] < n && (HasDest(code[i]) ==> Sources(code[i])[k] < Dest(code[i]))
    {
      assert Uses(code[i], Sources(code[i])[k]);
    }
  }

  /** Index the spans by temporary; a later span of the same one wins. */
  method ReverseTable(ranges: seq<Range>, n: nat) returns (table: seq<Range>)
    requires forall k :: 0 <= k < |ranges| ==> ranges[k].reg < n
    ensures |table| == n
    ensures forall k :: 0 <= k < |ranges| && (forall m :: k < m < |ranges| ==> ranges[m].reg != ranges[k].reg) ==>
              table[ranges[k].reg] == ranges[k]
  {
    table := seq(n, t requires t >= 0 => Range(0, 0, t));
    for i := 0 to |ranges|
      invariant |table| == n
      invariant forall k :: 0 <= k < i && (forall m :: k < m < i ==> ranges[m].reg != ranges[k].reg) ==>
                  table[ranges[k].reg] == ranges[k]
    {
      table := table[ranges[i].reg := ranges[i]];
    }
  }

  /** palloc_srcdestalias, over the lines of all blocks. */
  method SrcDestAlias(alloc: array<Alloc>, code: seq<Instr>, table: seq<Range>)
    requires Descending(alloc[..]) && |table| == alloc.Length && Numbered(code, alloc.Length)
    modifies alloc
    ensures alloc[..] == AliasUpTo(old(alloc[..]), code, table, |code|)
  {
    for i := 0 to |code|
      invariant Descending(alloc[..]) && alloc[..] == AliasUpTo(old(alloc[..]), code, table, i)
    {
      OperandsInRange(code, alloc.Length, i);
      AliasLine(alloc, code[i], i, table);
    }
  }

  method AliasLine(alloc: array<Alloc>, instr: Instr, line: nat, table: seq<Range>)
    requires Descending(alloc[..]) && |table| == alloc.Length
    requires HasDest(instr) ==> Dest(instr) < alloc.Length
    requires Sources(instr) != [] ==> Sources(instr)[0] < alloc.Length
    modifies alloc
    ensures alloc[..] == AliasStep(old(alloc[..]), instr, line, table)
  {
    if HasDest(instr) && Sources(instr) != [] {
      var dest, src := Dest(instr), Sources(instr)[0];
      var root := Close(alloc[..], src);
      if IsMov(instr) {
        if alloc[dest].Unset? && !IsConstant(alloc[root]) { alloc[dest] := Alias(src); }
      } else if End(table[src]) <= line {
        if alloc[dest].Unset? && !IsConstant(alloc[root]) { alloc[dest] := Alias(root); }
      }
    }
  }

  // ---------- aliases go back along definitions ----------

  ghost predicate Defined(code: seq<Instr>, t: Temp) {
    exists i :: 0 <= i < |code| && Defines(code[i], t)
  }

  ghost function DefLine(code: seq<Instr>, t: Temp): (i: nat)
    requires Defined(code, t)
    ensures i < |code| && Defines(code[i], t)
  {
    var i :| 0 <= i < |code| && Defines(code[i], t); i
  }

  lemma DefLineIs(code: seq<Instr>, n: nat, i: nat, t: Temp)
    requires Numbered(code, n) && i < |code| && Defines(code[i], t)
    ensures Defined(code, t) && DefLine(code, t) == i
  {
  }

  lemma UsedIsDefined(code: seq<Instr>, n: nat, j: nat, t: Temp)
    requires Numbered(code, n) && j < |code| && Uses(code[j], t)
    ensures Defined(code, t) && DefLine(code, t) < j
  {
    var i :| 0 <= i < j && Defines(code[i], t);
    DefLineIs(code, n, i, t);
  }

  /** Every alias made in the first `n` lines points back to a temporary defined at an earlier line. */
  ghost predicate PointsBack(alloc: seq<Alloc>, code: seq<Instr>, n: nat) {
    forall t: nat :: t < |alloc| && alloc[t].Alias? ==>
      && Defined(code, t) && DefLine(code, t) < n
      && Defined(code, alloc[t].value) && DefLine(code, alloc[t].value) < DefLine(code, t)
  }

  /** The class's representative was defined first. */
  lemma {:induction false} RootDefinedFirst(alloc: seq<Alloc>, code: seq<Instr>, n: nat, t: Temp)
    requires Descending(alloc) && PointsBack(alloc, code, n) && t < |alloc| && Defined(code, t)
    ensures Defined(code, Close(alloc, t))
    ensures if alloc[t].Alias? then DefLine(code, Close(alloc, t)) < DefLine(code, t) else Close(alloc, t) == t
  {
    if alloc[t].Alias? {
      RootDefinedFirst(alloc, code, n, alloc[t].value);
    }
  }

  /** Aliasing one more temporary does not move the classes of those defined before it. */
  lemma {:induction false} CloseUnmoved(alloc: seq<Alloc>, code: seq<Instr>, n: nat, d: Temp, v: Temp, t: Temp)
    requires Descending(alloc) && PointsBack(alloc, code, n) && t < |alloc| && Defined(code, t) && DefLine(code, t) < n
    requires v < d < |alloc| && Defined(code, d) && DefLine(code, d) == n && alloc[d].Unset?
    ensures Descending(alloc[d := Alias(v)]) && Close(alloc[d := Alias(v)], t) == Close(alloc, t)
  {
    if alloc[t].Alias? {
      CloseUnmoved(alloc, code, n, d, v, alloc[t].value);
    }
  }

  /** How the temporary defined at line `i` came to be aliased: its first operand dies there. */
  ghost predicate Joins(alloc: seq<Alloc>, code: seq<Instr>, table: seq<Range>, i: nat)
    requires Descending(alloc) && |table| == |alloc| && Numbered(code, |alloc|) && i < |code|
  {
    HasDest(code[i]) && Sources(code[i]) != [] &&
    var dest, src := Dest(code[i]), Sources(code[i])[0];
    OperandsInRange(code, |alloc|, i);
    Close(alloc, dest) == Close(alloc, src) && (IsMov(code[i]) || End(table[src]) <= i)
  }

  ghost predicate AllJoin(alloc: seq<Alloc>, code: seq<Instr>, table: seq<Range>, n: nat)
    requires Descending(alloc) && |table| == |alloc| && Numbered(code, |alloc|) && n <= |code|
  {
    forall i :: 0 <= i < n && HasDest(code[i]) && IsAlias(alloc, Dest(code[i])) ==> Joins(alloc, code, table, i)
  }

  predicate IsAlias(alloc: seq<Alloc>, t: Temp) {
    t < |alloc| && alloc[t].Alias?
  }

  /** No temporary is aliased to begin with. */
  ghost predicate NoAliases(alloc: seq<Alloc>) {
    forall t :: 0 <= t < |alloc| ==> !alloc[t].Alias?
  }

  /** What one line can do: nothing, or alias its result with its first operand's class. */
  lemma AliasStepShape(a: seq<Alloc>, instr: Instr, line: nat, table: seq<Range>)
    requires Descending(a) && |table| == |a|
    requires HasDest(instr) ==> Dest(instr) < |a| && forall k :: 0 <= k < |Sources(instr)| ==> Sources(instr)[k] < Dest(instr)
    requires Sources(instr) != [] ==> Sources(instr)[0] < |a|
    ensures var b := AliasStep(a, instr, line, table);
            b == a ||
            (HasDest(instr) && Sources(instr) != [] &&
             var d, src := Dest(instr), Sources(instr)[0];
             && a[d].Unset? && |b| == |a| && b[d].Alias? && b == a[d := b[d]]
             && (b[d].value == src || b[d].value == Close(a, src)) && b[d].value < d
             && (IsMov(instr) || End(table[src]) <= line))
  {
  }

  lemma NothingJoins(alloc: seq<Alloc>, code: seq<Instr>, table: seq<Range>)
    requires NoAliases(alloc) && Descending(alloc) && |table| == |alloc| && Numbered(code, |alloc|)
    ensures PointsBack(alloc, code, 0) && AllJoin(alloc, code, table, 0)
  {
  }

  lemma {:induction false} AliasingJoins(alloc: seq<Alloc>, code: seq<Instr>, table: seq<Range>, n: nat)
    requires NoAliases(alloc) && Descending(alloc) && |table| == |alloc| && Numbered(code, |alloc|) && n <= |code|
    ensures PointsBack(AliasUpTo(alloc, code, table, n), code, n)
    ensures AllJoin(AliasUpTo(alloc, code, table, n), code, table, n)
  {
    hide Numbered, PointsBack, AllJoin, AliasStep, NoAliases;
    if n == 0 {
      NothingJoins(alloc, code, table);
    } else {
      var i := n - 1;
      var a := AliasUpTo(alloc, code, table, i);
      var b := AliasUpTo(alloc, code, table, n);
      AliasingJoins(alloc, code, table, i);
      OperandsInRange(code, |alloc|, i);
      AliasStepShape(a, code[i], i, table);
      if b == a {
        SameAliasesJoin(a, code, table, i);
      } else {
        NewAliasJoins(a, code, table, i, Dest(code[i]), b[Dest(code[i])].value);
      }
    }
  }

  lemma SameAliasesJoin(a: seq<Alloc>, code: seq<Instr>, table: seq<Range>, i: nat)
    requires Descending(a) && |table| == |a| && Numbered(code, |a|) && i < |code|
    requires PointsBack(a, code, i) && AllJoin(a, code, table, i)
    ensures PointsBack(a, code, i + 1) && AllJoin(a, code, table, i + 1)
  {
    if HasDest(code[i]) {
      assert Defines(code[i], Dest(code[i]));
      DefLineIs(code, |a|, i, Dest(code[i]));
    }
  }

  lemma NewAliasPointsBack(a: seq<Alloc>, code: seq<Instr>, i: nat, d: Temp, v: Temp)
    requires Descending(a) && PointsBack(a, code, i)
    requires v < d < |a| && a[d].Unset? && Defined(code, d) && DefLine(code, d) == i
    requires Defined(code, v) && DefLine(code, v) < i
    ensures Descending(a[d := Alias(v)]) && PointsBack(a[d := Alias(v)], code, i + 1)
  {
    hide DefLine, Defined;
  }

  lemma NewAliasJoins(a: seq<Alloc>, code: seq<Instr>, table: seq<Range>, i: nat, d: Temp, v: Temp)
    requires Descending(a) && |table| == |a| && Numbered(code, |a|) && i < |code|
    requires PointsBack(a, code, i) && AllJoin(a, code, table, i)
    requires HasDest(code[i]) && d == Dest(code[i]) && d < |a| && a[d].Unset? && Sources(code[i]) != []
    requires var src := Sources(code[i])[0]; src < |a| && (v == src || v == Close(a, src)) && v < d
    requires IsMov(code[i]) || End(table[Sources(code[i])[0]]) <= i
    ensures Descending(a[d := Alias(v)])
    ensures PointsBack(a[d := Alias(v)], code, i + 1) && AllJoin(a[d := Alias(v)], code, table, i + 1)
  {
    hide Numbered, PointsBack, DefLine, Defined;
    var b, src := a[d := Alias(v)], Sources(code[i])[0];
    assert Uses(code[i], src) && Defines(code[i], d);
    UsedIsDefined(code, |a|, i, src);
    DefLineIs(code, |a|, i, d);
    RootDefinedFirst(a, code, i, src);
    NewAliasPointsBack(a, code, i, d, v);
    NewJoin(a, code, table, i, d, v);
    forall j | 0 <= j < i + 1 && HasDest(code[j]) && IsAlias(b, Dest(code[j])) ensures Joins(b, code, table, j) {
      if j < i { OldAliasJoins(a, code, table, i, d, v, j); }
    }
  }

  lemma NewJoin(a: seq<Alloc>, code: seq<Instr>, table: seq<Range>, i: nat, d: Temp, v: Temp)
    requires Descending(a) && |table| == |a| && Numbered(code, |a|) && i < |code| && PointsBack(a, code, i)
    requires HasDest(code[i]) && d == Dest(code[i]) && d < |a| && a[d].Unset? && Sources(code[i]) != []
    requires Defined(code, d) && DefLine(code, d) == i
    requires var src := Sources(code[i])[0];
             src < |a| && (v == src || v == Close(a, src)) && v < d && Defined(code, src) && DefLine(code, src) < i
    requires IsMov(code[i]) || End(table[Sources(code[i])[0]]) <= i
    ensures Descending(a[d := Alias(v)]) && Joins(a[d := Alias(v)], code, table, i)
  {
    hide Numbered, PointsBack, DefLine, Defined;
    var src := Sources(code[i])[0];
    RootDefinedFirst(a, code, i, src);
    CloseUnmoved(a, code, i, d, v, src);
    CloseUnmoved(a, code, i, d, v, v);
    CloseIsIdempotent(a, src);
    OperandsInRange(code, |a|, i);
  }

  lemma OldAliasJoins(a: seq<Alloc>, code: seq<Instr>, table: seq<Range>, i: nat, d: Temp, v: Temp, j: nat)
    requires Descending(a) && |table| == |a| && Numbered(code, |a|) && i < |code|
    requires PointsBack(a, code, i) && AllJoin(a, code, table, i)
    requires v < d < |a| && Defined(code, d) && DefLine(code, d) == i && a[d].Unset?
    requires j < i && HasDest(code[j]) && IsAlias(a[d := Alias(v)], Dest(code[j]))
    ensures Descending(a[d := Alias(v)]) && Joins(a[d := Alias(v)], code, table, j)
  {
    assert Defines(code[j], Dest(code[j]));
    DefLineIs(code, |a|, j, Dest(code[j]));
    assert Joins(a, code, table, j);
    assert Uses(code[j], Sources(code[j])[0]);
    UsedIsDefined(code, |a|, j, Sources(code[j])[0]);
    CloseUnmoved(a, code, i, d, v, Dest(code[j]));
    CloseUnmoved(a, code, i, d, v, Sources(code[j])[0]);
  }

  // ---------- one class, one interval ----------

  lemma NothingToClose(alloc: seq<Alloc>, t: Temp)
    requires NoAliases(alloc) && t < |alloc|
    ensures Descending(alloc) && Close(alloc, t) == t
  {
  }

  /** `table` holds the span of every temporary, before any aliasing. */
  ghost predicate Tabled(alloc: seq<Alloc>, code: seq<Instr>, table: seq<Range>)
    requires Descending(alloc) && Numbered(code, |alloc|)
  {
    |table| == |alloc| &&
    forall t: nat :: t < |alloc| && Defined(code, t) ==> table[t] == Span(alloc, code, |code|, DefLine(code, t))
  }

  lemma FirstRunReg(alloc: seq<Alloc>, code: seq<Instr>, i: nat)
    requires NoAliases(alloc) && Descending(alloc) && Numbered(code, |alloc|) && i < |code| && HasDest(code[i])
    ensures Span(alloc, code, |code|, i).reg == Dest(code[i]) < |alloc|
    ensures Defined(code, Dest(code[i])) && DefLine(code, Dest(code[i])) == i
  {
    hide Numbered;
    OperandsInRange(code, |alloc|, i);
    NothingToClose(alloc, Dest(code[i]));
    assert Defines(code[i], Dest(code[i]));
    DefLineIs(code, |alloc|, i, Dest(code[i]));
  }

  /** The first run has one span for each temporary. */
  lemma FirstRunDistinct(alloc: seq<Alloc>, code: seq<Instr>, ranges: seq<Range>, k: nat, m: nat)
    requires NoAliases(alloc) && Descending(alloc) && Numbered(code, |alloc|)
    requires AreSpans(alloc, code, |code|, ranges) && k < m < |ranges|
    ensures ranges[m].reg != ranges[k].reg
  {
    hide Numbered, DefLines, Span, LastUse;
    var lines := DefLines(code, |code|);
    DefLinesExactly(code, |code|);
    FirstRunReg(alloc, code, lines[k]);
    FirstRunReg(alloc, code, lines[m]);
  }

  /** The reverse table of the first run of palloc_findspans is exact. */
  lemma FirstRunIsTabled(alloc: seq<Alloc>, code: seq<Instr>, ranges: seq<Range>, table: seq<Range>)
    requires NoAliases(alloc) && Descending(alloc) && Numbered(code, |alloc|)
    requires AreSpans(alloc, code, |code|, ranges) && |table| == |alloc|
    requires forall k :: 0 <= k < |ranges| ==> ranges[k].reg < |alloc|
    requires forall k :: 0 <= k < |ranges| && (forall m :: k < m < |ranges| ==> ranges[m].reg != ranges[k].reg) ==>
               table[ranges[k].reg] == ranges[k]
    ensures Tabled(alloc, code, table)
  {
    hide Numbered, DefLines, Span, LastUse;
    var lines := DefLines(code, |code|);
    DefLinesExactly(code, |code|);
    forall t: nat | t < |alloc| && Defined(code, t) ensures table[t] == Span(alloc, code, |code|, DefLine(code, t)) {
      var k :| 0 <= k < |lines| && lines[k] == DefLine(code, t);
      FirstRunReg(alloc, code, lines[k]);
      forall m | k < m < |ranges| ensures ranges[m].reg != ranges[k].reg {
        FirstRunDistinct(alloc, code, ranges, k, m);
      }
    }
  }

  // ---------- moves ----------

  /** A move whose result palloc_srcdestalias gives its operand's place. */
  predicate MayAlias(alloc: seq<Alloc>, i: Instr) {
    IsMov(i) && i.dest < |alloc| && i.src < |alloc| && alloc[i.dest].Unset? && !IsConstant(alloc[i.src])
  }

  /** Every such move is the last use of its operand. */
  ghost predicate MovesDie(alloc: seq<Alloc>, code: seq<Instr>, table: seq<Range>) {
    |table| == |alloc| && forall i :: 0 <= i < |code| && MayAlias(alloc, code[i]) ==> End(table[code[i].src]) <= i
  }

  /** Aliasing changes entries that are not set only, and points at no constant. */
  ghost predicate OnlyJoins(alloc: seq<Alloc>, a: seq<Alloc>)
    requires Descending(a)
  {
    && |a| == |alloc|
    && (forall t :: 0 <= t < |a| ==> a[t] == alloc[t] || (alloc[t].Unset? && a[t].Alias?))
    && (forall t :: 0 <= t < |a| && a[t].Alias? ==> !IsConstant(a[a[t].value]))
  }

  lemma {:induction false} RootNotConstant(alloc: seq<Alloc>, a: seq<Alloc>, t: Temp)
    requires Descending(a) && OnlyJoins(alloc, a) && t < |a|
    ensures IsConstant(a[Close(a, t)]) <==> IsConstant(alloc[t])
    ensures a[t].Alias? ==> !IsConstant(a[Close(a, t)])
  {
    if a[t].Alias? && a[a[t].value].Alias? {
      RootNotConstant(alloc, a, a[t].value);
    }
  }

  lemma StepOnlyJoins(alloc: seq<Alloc>, a: seq<Alloc>, instr: Instr, line: nat, table: seq<Range>)
    requires Descending(a) && OnlyJoins(alloc, a) && |table| == |a|
    requires HasDest(instr) ==> Dest(instr) < |a| && forall k :: 0 <= k < |Sources(instr)| ==> Sources(instr)[k] < Dest(instr)
    requires Sources(instr) != [] ==> Sources(instr)[0] < |a|
    ensures Descending(AliasStep(a, instr, line, table)) && OnlyJoins(alloc, AliasStep(a, instr, line, table))
    ensures MayAlias(alloc, instr) && a[instr.dest] == alloc[instr.dest] ==>
              AliasStep(a, instr, line, table)[instr.dest].Alias?
    ensures IsMov(instr) && !MayAlias(alloc, instr) ==> AliasStep(a, instr, line, table) == a
  {
    if Sources(instr) != [] {
      RootNotConstant(alloc, a, Sources(instr)[0]);
    }
  }

  lemma {:induction false} AliasingOnlyJoins(alloc: seq<Alloc>, code: seq<Instr>, table: seq<Range>, n: nat)
    requires NoAliases(alloc) && Descending(alloc) && |table| == |alloc| && Numbered(code, |alloc|) && n <= |code|
    ensures OnlyJoins(alloc, AliasUpTo(alloc, code, table, n))
  {
    hide Numbered, MayAlias, AliasStep;
    if n > 0 {
      AliasingOnlyJoins(alloc, code, table, n - 1);
      OperandsInRange(code, |alloc|, n - 1);
      StepOnlyJoins(alloc, AliasUpTo(alloc, code, table, n - 1), code[n - 1], n - 1, table);
    }
  }

  lemma StepLeavesOthers(a: seq<Alloc>, instr: Instr, line: nat, table: seq<Range>, t: Temp)
    requires Descending(a) && |table| == |a| && t < |a| && !Defines(instr, t)
    requires HasDest(instr) ==> Dest(instr) < |a|
    requires Sources(instr) != [] ==> Sources(instr)[0] < |a|
    ensures |AliasStep(a, instr, line, table)| == |a| && AliasStep(a, instr, line, table)[t] == a[t]
  {
  }

  /** Only the line that defines a temporary changes its entry. */
  lemma OtherLinesLeave(alloc: seq<Alloc>, code: seq<Instr>, table: seq<Range>, n: nat, t: Temp)
    requires Descending(alloc) && |table| == |alloc| && Numbered(code, |alloc|) && n < |code| && t < |alloc|
    requires !Defines(code[n], t)
    ensures AliasUpTo(alloc, code, table, n + 1)[t] == AliasUpTo(alloc, code, table, n)[t]
  {
    OperandsInRange(code, |alloc|, n);
    StepLeavesOthers(AliasUpTo(alloc, code, table, n), code[n], n, table, t);
    hide Numbered, AliasStep, Defines;
  }

  /** An entry once aliased stays so, and only its definition can alias it. */
  lemma {:induction false} AliasIsMadeAtDefinition(alloc: seq<Alloc>, code: seq<Instr>, table: seq<Range>, i: nat, n: nat)
    requires NoAliases(alloc) && Descending(alloc) && |table| == |alloc| && Numbered(code, |alloc|) && i < n <= |code|
    requires HasDest(code[i])
    ensures Dest(code[i]) < |alloc|
    ensures AliasUpTo(alloc, code, table, n)[Dest(code[i])] == AliasUpTo(alloc, code, table, i + 1)[Dest(code[i])]
    ensures AliasUpTo(alloc, code, table, i)[Dest(code[i])] == alloc[Dest(code[i])]
  {
    hide Numbered, AliasUpTo, AliasStep, DefLine, Defined;
    OperandsInRange(code, |alloc|, i);
    DefinedAt(code, |alloc|, i);
    AliasingOnlyJoins(alloc, code, table, i);
    AliasingJoins(alloc, code, table, i);
    if n > i + 1 {
      AliasIsMadeAtDefinition(alloc, code, table, i, n - 1);
      if HasDest(code[n - 1]) { DefinedAt(code, |alloc|, n - 1); }
      OtherLinesLeave(alloc, code, table, n - 1, Dest(code[i]));
    }
  }

  lemma DefinedAt(code: seq<Instr>, n: nat, i: nat)
    requires Numbered(code, n) && i < |code| && HasDest(code[i])
    ensures Defined(code, Dest(code[i])) && DefLine(code, Dest(code[i])) == i
  {
    assert Defines(code[i], Dest(code[i]));
    DefLineIs(code, n, i, Dest(code[i]));
  }

  /** A move's result is aliased exactly when it has no place and the operand is no constant. */
  lemma MoveAliasedExactly(alloc: seq<Alloc>, code: seq<Instr>, table: seq<Range>, i: nat)
    requires NoAliases(alloc) && Descending(alloc) && |table| == |alloc| && Numbered(code, |alloc|)
    requires i < |code| && IsMov(code[i])
    ensures code[i].dest < |alloc| && code[i].src < |alloc|
    ensures IsAlias(AliasUpTo(alloc, code, table, |code|), code[i].dest) <==> MayAlias(alloc, code[i])
  {
    hide Numbered, OnlyJoins, AliasStep;
    OperandsInRange(code, |alloc|, i);
    assert Sources(code[i]) == [code[i].src];
    AliasIsMadeAtDefinition(alloc, code, table, i, |code|);
    AliasingOnlyJoins(alloc, code, table, i);
    StepOnlyJoins(alloc, AliasUpTo(alloc, code, table, i), code[i], i, table);
  }

  /** A temporary is live to its last use. */
  lemma UsedWithinSpan(alloc: seq<Alloc>, code: seq<Instr>, table: seq<Range>, j: nat, t: Temp)
    requires NoAliases(alloc) && Descending(alloc) && Numbered(code, |alloc|) && Tabled(alloc, code, table)
    requires j < |code| && Uses(code[j], t)
    ensures t < |alloc| && Defined(code, t) && DefLine(code, t) < j <= End(table[t])
  {
    UsedIsDefined(code, |alloc|, j, t);
    assert Defines(code[DefLine(code, t)], t);
    NothingToClose(alloc, t);
    assert UsesClass(alloc, code[j], t);
    LastUseIsLast(alloc, code, DefLine(code, t), |code|, t, j);
  }

  /** `b` is computed from `a`, its first operand. */
  ghost predicate ComputedFrom(code: seq<Instr>, b: Temp, a: Temp) {
    Defined(code, b) && Sources(code[DefLine(code, b)]) != [] && Sources(code[DefLine(code, b)])[0] == a
  }

  /** `a` is done before `b` is defined, or on that very line, where `b` is computed from it. */
  ghost predicate Precedes(code: seq<Instr>, table: seq<Range>, a: Temp, b: Temp)
    requires a < |table| && b < |table|
  {
    End(table[a]) < table[b].start || (End(table[a]) == table[b].start && ComputedFrom(code, b, a))
  }

  ghost predicate TakeTurns(code: seq<Instr>, table: seq<Range>, a: Temp, b: Temp)
    requires a < |table| && b < |table|
  {
    Precedes(code, table, a, b) || Precedes(code, table, b, a)
  }

  /** Unless a move lets it live on, the operand a temporary is aliased with is last used where the temporary is defined. */
  lemma OperandDies(alloc: seq<Alloc>, code: seq<Instr>, table: seq<Range>, b: Temp) returns (p: Temp)
    requires NoAliases(alloc) && Descending(alloc) && Numbered(code, |alloc|) && Tabled(alloc, code, table)
    requires MovesDie(alloc, code, table)
    requires b < |alloc| && Defined(code, b) && AliasUpTo(alloc, code, table, |code|)[b].Alias?
    ensures p < |alloc| && Defined(code, p) && DefLine(code, p) < DefLine(code, b) == End(table[p])
    ensures ComputedFrom(code, b, p)
    ensures var a := AliasUpTo(alloc, code, table, |code|); Close(a, p) == Close(a, b)
  {
    hide Numbered, MayAlias, Tabled, PointsBack;
    var a, i := AliasUpTo(alloc, code, table, |code|), DefLine(code, b);
    AliasingJoins(alloc, code, table, |code|);
    assert IsAlias(a, Dest(code[i])) && Joins(a, code, table, i);
    OperandsInRange(code, |alloc|, i);
    p := Sources(code[i])[0];
    if IsMov(code[i]) {
      MoveAliasedExactly(alloc, code, table, i);
    }
    assert Uses(code[i], p);
    UsedWithinSpan(alloc, code, table, i, p);
  }

  /** If `b` is computed from `p` on `p`'s last line, what takes turns with `p` is done before `b`. */
  lemma TurnsThrough(code: seq<Instr>, table: seq<Range>, a: Temp, p: Temp, b: Temp)
    requires a < |table| && p < |table| && b < |table|
    requires table[p].start < End(table[p]) == table[b].start && ComputedFrom(code, b, p)
    requires table[a].start < table[b].start && (p == a || TakeTurns(code, table, a, p))
    ensures Precedes(code, table, a, b)
  {
    hide ComputedFrom;
  }

  /** The first case of the next lemma: `b` is defined after `a`. */
  lemma LaterTakesTurns(alloc: seq<Alloc>, code: seq<Instr>, table: seq<Range>, a: Temp, p: Temp, b: Temp)
    requires NoAliases(alloc) && Descending(alloc) && Numbered(code, |alloc|) && Tabled(alloc, code, table)
    requires a < |alloc| && b < |alloc| && p < |alloc| && Defined(code, a) && Defined(code, b) && Defined(code, p)
    requires DefLine(code, a) < DefLine(code, b) && DefLine(code, p) < DefLine(code, b) == End(table[p])
    requires ComputedFrom(code, b, p) && (p == a || TakeTurns(code, table, a, p))
    ensures Precedes(code, table, a, b)
  {
    hide Numbered, ComputedFrom, TakeTurns, Tabled;
    TabledSpan(alloc, code, table, a);
    TabledSpan(alloc, code, table, b);
    TabledSpan(alloc, code, table, p);
    TurnsThrough(code, table, a, p, b);
  }

  lemma TurnsEitherWay(code: seq<Instr>, table: seq<Range>, a: Temp, b: Temp)
    requires a < |table| && b < |table|
    ensures TakeTurns(code, table, a, b) <==> TakeTurns(code, table, b, a)
    ensures Precedes(code, table, a, b) ==> TakeTurns(code, table, a, b)
  {
  }

  /** Different temporaries of one class are defined on different lines; the later one is aliased. */
  lemma LaterIsAliased(alloc: seq<Alloc>, code: seq<Instr>, table: seq<Range>, a: Temp, b: Temp)
    requires NoAliases(alloc) && Descending(alloc) && Numbered(code, |alloc|) && |table| == |alloc|
    requires a < |alloc| && b < |alloc| && a != b && Defined(code, a) && Defined(code, b)
    requires var c := AliasUpTo(alloc, code, table, |code|); Close(c, a) == Close(c, b)
    ensures DefLine(code, a) != DefLine(code, b)
    ensures DefLine(code, a) < DefLine(code, b) ==> AliasUpTo(alloc, code, table, |code|)[b].Alias?
  {
    hide Numbered, AliasUpTo, PointsBack, AllJoin;
    var c := AliasUpTo(alloc, code, table, |code|);
    AliasingJoins(alloc, code, table, |code|);
    RootDefinedFirst(c, code, |code|, a);
    RootDefinedFirst(c, code, |code|, b);
  }

  /** Then the temporaries of one class are live in turns. */
  lemma {:induction false} SameClassTakesTurns(alloc: seq<Alloc>, code: seq<Instr>, table: seq<Range>, a: Temp, b: Temp)
    requires NoAliases(alloc) && Descending(alloc) && Numbered(code, |alloc|) && Tabled(alloc, code, table)
    requires MovesDie(alloc, code, table)
    requires a < |alloc| && b < |alloc| && a != b && Defined(code, a) && Defined(code, b)
    requires var c := AliasUpTo(alloc, code, table, |code|); Close(c, a) == Close(c, b)
    ensures |table| == |alloc| && TakeTurns(code, table, a, b)
    decreases DefLine(code, a) + DefLine(code, b)
  {
    assert |table| == |alloc|;
    hide *;
    LaterIsAliased(alloc, code, table, a, b);
    LaterIsAliased(alloc, code, table, b, a);
    TurnsEitherWay(code, table, a, b);
    TurnsEitherWay(code, table, b, a);
    if DefLine(code, a) < DefLine(code, b) {
      var p := OperandDies(alloc, code, table, b);
      if p != a { SameClassTakesTurns(alloc, code, table, a, p); }
      LaterTakesTurns(alloc, code, table, a, p, b);
    } else {
      var p := OperandDies(alloc, code, table, a);
      if p != b { SameClassTakesTurns(alloc, code, table, b, p); }
      LaterTakesTurns(alloc, code, table, b, p, a);
    }
  }

  /** A move that lets its operand live on gives two temporaries of one class that do not take turns. */
  lemma LivingMoveClashes(alloc: seq<Alloc>, code: seq<Instr>, table: seq<Range>, i: nat)
    requires NoAliases(alloc) && Descending(alloc) && Numbered(code, |alloc|) && Tabled(alloc, code, table)
    requires i < |code| && MayAlias(alloc, code[i]) && End(table[code[i].src]) > i
    ensures var c, a, b := AliasUpTo(alloc, code, table, |code|), code[i].src, code[i].dest;
            && a != b && Defined(code, a) && Defined(code, b) && Close(c, a) == Close(c, b) && !TakeTurns(code, table, a, b)
  {
    hide Numbered, PointsBack;
    var c, a, b := AliasUpTo(alloc, code, table, |code|), code[i].src, code[i].dest;
    OperandsInRange(code, |alloc|, i);
    assert Sources(code[i]) == [a] && Uses(code[i], a);
    MoveAliasedExactly(alloc, code, table, i);
    AliasingJoins(alloc, code, table, |code|);
    assert IsAlias(c, Dest(code[i])) && Joins(c, code, table, i);
    DefinedAt(code, |alloc|, i);
    UsedWithinSpan(alloc, code, table, i, a);
    TabledSpan(alloc, code, table, a);
    TabledSpan(alloc, code, table, b);
  }

  /** The temporaries of every class take turns. */
  ghost predicate ClassesTakeTurns(alloc: seq<Alloc>, code: seq<Instr>, table: seq<Range>)
    requires Descending(alloc) && Numbered(code, |alloc|) && |table| == |alloc|
  {
    var c := AliasUpTo(alloc, code, table, |code|);
    forall a: Temp, b: Temp :: a < |c| && b < |c| && a != b && Defined(code, a) && Defined(code, b)
      && Close(c, a) == Close(c, b)
      ==> TakeTurns(code, table, a, b)
  }

  /** Aliasing is safe exactly when every move that aliases is the last use of its operand. */
  lemma AliasingIsSafeExactly(alloc: seq<Alloc>, code: seq<Instr>, table: seq<Range>)
    requires NoAliases(alloc) && Descending(alloc) && Numbered(code, |alloc|) && Tabled(alloc, code, table)
    ensures ClassesTakeTurns(alloc, code, table) <==> MovesDie(alloc, code, table)
  {
    hide Numbered, AliasUpTo, TakeTurns, Defined;
    var c := AliasUpTo(alloc, code, table, |code|);
    if MovesDie(alloc, code, table) {
      forall a: Temp, b: Temp | a < |c| && b < |c| && a != b && Defined(code, a) && Defined(code, b) && Close(c, a) == Close(c, b)
        ensures TakeTurns(code, table, a, b)
      {
        SameClassTakesTurns(alloc, code, table, a, b);
      }
    } else {
      var i :| 0 <= i < |code| && MayAlias(alloc, code[i]) && End(table[code[i].src]) > i;
      LivingMoveClashes(alloc, code, table, i);
      assert code[i].src < |c| && code[i].dest < |c|;
    }
  }

  /** Where an aliased temporary is defined, its class is read. */
  lemma JoinReadsClass(alloc: seq<Alloc>, code: seq<Instr>, table: seq<Range>, t: Temp)
    requires NoAliases(alloc) && Descending(alloc) && Numbered(code, |alloc|) && |table| == |alloc|
    requires t < |alloc| && Defined(code, t) && AliasUpTo(alloc, code, table, |code|)[t].Alias?
    ensures var c := AliasUpTo(alloc, code, table, |code|); UsesClass(c, code[DefLine(code, t)], Close(c, t))
  {
    hide Numbered, AliasUpTo;
    var c, i := AliasUpTo(alloc, code, table, |code|), DefLine(code, t);
    AliasingJoins(alloc, code, table, |code|);
    assert IsAlias(c, Dest(code[i])) && Joins(c, code, table, i);
    OperandsInRange(code, |alloc|, i);
    assert Uses(code[i], Sources(code[i])[0]);
  }

  lemma CoversLine(c: seq<Alloc>, code: seq<Instr>, d: nat, j: nat, r: Temp)
    requires Descending(c) && d <= j < |code| && (j == d || UsesClass(c, code[j], r))
    ensures j <= LastUse(c, code, d, |code|, r)
  {
    LastUseIsLast(c, code, d, |code|, r, j);
  }

  lemma TabledSpan(alloc: seq<Alloc>, code: seq<Instr>, table: seq<Range>, t: Temp)
    requires NoAliases(alloc) && Descending(alloc) && Numbered(code, |alloc|) && Tabled(alloc, code, table)
    requires t < |alloc| && Defined(code, t)
    ensures |table| == |alloc| && table[t].start == DefLine(code, t)
    ensures End(table[t]) == LastUse(alloc, code, DefLine(code, t), |code|, t)
  {
    NothingToClose(alloc, t);
  }

  /** Where a temporary's span ends, its class is read, unless that is where the class begins. */
  lemma EndReadsClass(alloc: seq<Alloc>, code: seq<Instr>, table: seq<Range>, t: Temp)
    requires NoAliases(alloc) && Descending(alloc) && Numbered(code, |alloc|) && |table| == |alloc|
    requires t < |alloc| && Defined(code, t)
    ensures var c := AliasUpTo(alloc, code, table, |code|);
            var r, last := Close(c, t), LastUse(alloc, code, DefLine(code, t), |code|, t);
            && Defined(code, r) && DefLine(code, r) <= DefLine(code, t) && Close(c, r) == r
            && (last == DefLine(code, r) || UsesClass(c, code[last], r))
  {
    hide Numbered, AliasUpTo, UsesClass, Defined, DefLine, PointsBack, AllJoin;
    var c := AliasUpTo(alloc, code, table, |code|);
    AliasingJoins(alloc, code, table, |code|);
    RootDefinedFirst(c, code, |code|, t);
    CloseIsIdempotent(c, t);
    var last := LastUse(alloc, code, DefLine(code, t), |code|, t);
    LastUseIsLast(alloc, code, DefLine(code, t), |code|, t, last);
    if last > DefLine(code, t) {
      UseOfMember(alloc, c, code, last, t);
    } else if c[t].Alias? {
      JoinReadsClass(alloc, code, table, t);
    }
  }

  /** The interval from a class's first definition to its last use covers the span of every temporary in it. */
  lemma ClassSpanCovers(alloc: seq<Alloc>, code: seq<Instr>, table: seq<Range>, t: Temp)
    requires NoAliases(alloc) && Descending(alloc) && Numbered(code, |alloc|) && |table| == |alloc|
    requires t < |alloc| && Defined(code, t)
    ensures var c := AliasUpTo(alloc, code, table, |code|);
            var r := Close(c, t);
            && Defined(code, r) && DefLine(code, r) <= DefLine(code, t)
            && LastUse(alloc, code, DefLine(code, t), |code|, t) <= LastUse(c, code, DefLine(code, r), |code|, r)
  {
    hide *;
    var c := AliasUpTo(alloc, code, table, |code|);
    EndReadsClass(alloc, code, table, t);
    CoversLine(c, code, DefLine(code, Close(c, t)), LastUse(alloc, code, DefLine(code, t), |code|, t), Close(c, t));
  }

  lemma SpanParts(c: seq<Alloc>, code: seq<Instr>, i: nat)
    requires Descending(c) && Numbered(code, |c|) && i < |code| && HasDest(code[i])
    ensures var s := Span(c, code, |code|, i);
            Dest(code[i]) < |c| && s.start == i && s.reg == Close(c, Dest(code[i]))
            && End(s) == LastUse(c, code, i, |code|, s.reg)
  {
    assert Defines(code[i], Dest(code[i]));
  }

  lemma DefLineDefines(code: seq<Instr>, t: Temp)
    requires Defined(code, t)
    ensures HasDest(code[DefLine(code, t)]) && Dest(code[DefLine(code, t)]) == t
  {
  }

  lemma UseOfMember(alloc: seq<Alloc>, c: seq<Alloc>, code: seq<Instr>, j: nat, t: Temp)
    requires NoAliases(alloc) && Descending(alloc) && Descending(c) && |c| == |alloc| && j < |code| && t < |alloc|
    requires UsesClass(alloc, code[j], t)
    ensures UsesClass(c, code[j], Close(c, t))
  {
    var s: nat :| Uses(code[j], s) && s < |alloc| && Close(alloc, s) == t;
    NothingToClose(alloc, s);
  }
}
