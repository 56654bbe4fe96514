/**
 Linear-scan register allocation (palloc_linearscan, dynarec/palloc.c), after Poletto and
 Sarkar.  Code emission between spans, and the evictions it may cause, are left out.
 */
module LinearScan {
  import opened LiveRanges
  import opened PriorityQueue

  // ---------- host registers ----------

  /** EAX, ECX, EDX, EBX, ESP, EBP, ESI, EDI. */
  const IREGS := 8
  const ESP := 4
  const EBP := 5
  const MAXREG := 6

  /** Use counts: 0 free, 1 in use, 2 reserved. */
  ghost predicate Registers(reguse: seq<nat>) {
    && |reguse| == IREGS && reguse[ESP] == 2 && reguse[EBP] == 2
    && forall s :: 0 <= s < IREGS && s != ESP && s != EBP ==> reguse[s] <= 1
  }

  function One(v: nat): nat {
    if v == 1 then 1 else 0
  }

  function InUse(reguse: seq<nat>): nat
    requires |reguse| == IREGS
  {
    One(reguse[0]) + One(reguse[1]) + One(reguse[2]) + One(reguse[3])
    + One(reguse[4]) + One(reguse[5]) + One(reguse[6]) + One(reguse[7])
  }

  /** At most six registers are in use; while fewer are, one is free. */
  lemma FreeRegister(reguse: seq<nat>)
    requires Registers(reguse)
    ensures InUse(reguse) <= MAXREG
    ensures InUse(reguse) < MAXREG <==> exists s :: 0 <= s < IREGS && reguse[s] == 0
  {
    if InUse(reguse) < MAXREG {
      var s := if reguse[0] == 0 then 0 else if reguse[1] == 0 then 1 else if reguse[2] == 0 then 2
               else if reguse[3] == 0 then 3 else if reguse[6] == 0 then 6 else 7;
      assert reguse[s] == 0;
    }
  }

  // ---------- the invariant ----------

  predicate Overlap(r: Range, q: Range) {
    r.start <= End(q) && q.start <= End(r)
  }

  predicate Hosted(alloc: seq<Alloc>, r: Range) {
    r.reg < |alloc| && alloc[r.reg].Ireg?
  }

  /** Both hold a host register, on some line at once. */
  predicate Clash(alloc: seq<Alloc>, r: Range, q: Range) {
    Hosted(alloc, r) && Hosted(alloc, q) && Overlap(r, q)
  }

  /** Spans left with a host register hold an allowed one, and overlapping spans different ones. */
  ghost predicate InterferenceFree(alloc: seq<Alloc>, placed: seq<Range>) {
    && (forall k :: 0 <= k < |placed| && Hosted(alloc, placed[k]) ==>
          alloc[placed[k].reg].num < IREGS && alloc[placed[k].reg].num != ESP && alloc[placed[k].reg].num != EBP)
    && (forall j, k :: 0 <= j < k < |placed| && Clash(alloc, placed[j], placed[k]) ==>
          alloc[placed[j].reg].num != alloc[placed[k].reg].num)
  }

  /** A span's entry in the active queue. */
  function Entry(r: Range): Item<Range> {
    Item(End(r), r)
  }

  /** Spans placed so far: one for each temporary, in order, each with a register or a slot. */
  ghost predicate Placed(alloc: seq<Alloc>, placed: seq<Range>, line: nat) {
    && (forall k :: 0 <= k < |placed| ==>
          placed[k].reg < |alloc| && placed[k].start <= line && (alloc[placed[k].reg].Ireg? || alloc[placed[k].reg].Rfile?))
    && (forall j, k :: 0 <= j < k < |placed| ==> placed[j].reg != placed[k].reg)
  }

  /** The active queue holds placed spans, each once, and every hosted one that has not ended before `line`. */
  ghost predicate Active(alloc: seq<Alloc>, placed: seq<Range>, active: multiset<Item<Range>>, line: nat) {
    && (forall x :: x in active ==> x.data in placed && x == Entry(x.data) && active[x] == 1)
    && (forall k :: 0 <= k < |placed| && Hosted(alloc, placed[k]) && End(placed[k]) >= line ==> Entry(placed[k]) in active)
  }

  /** A register is in use exactly when one hosted active span holds it. */
  ghost predicate Owned(alloc: seq<Alloc>, reguse: seq<nat>, active: multiset<Item<Range>>) {
    && |reguse| == IREGS
    && (forall x, s :: Holds(alloc, active, x, s) ==> 0 <= s < IREGS && reguse[s] == 1)
    && (forall x, y, s :: Holds(alloc, active, x, s) && Holds(alloc, active, y, s) ==> x == y)
    && (forall s :: 0 <= s < IREGS && reguse[s] == 1 ==> exists x :: Holds(alloc, active, x, s))
  }

  ghost predicate Holds(alloc: seq<Alloc>, active: multiset<Item<Range>>, x: Item<Range>, s: int) {
    x in active && Hosted(alloc, x.data) && alloc[x.data.reg].num == s
  }

  ghost predicate Inv(alloc: seq<Alloc>, reguse: seq<nat>, regno: nat, active: multiset<Item<Range>>,
                      placed: seq<Range>, line: nat)
  {
    && Registers(reguse) && regno == InUse(reguse)
    && Placed(alloc, placed, line) && Active(alloc, placed, active, line) && Owned(alloc, reguse, active)
    && InterferenceFree(alloc, placed)
  }

  // ---------- expiring ----------

  /** The register use after the entry `x` leaves the active queue. */
  function Freed(alloc: seq<Alloc>, reguse: seq<nat>, x: Item<Range>): seq<nat> {
    if Hosted(alloc, x.data) && alloc[x.data.reg].num < |reguse| && reguse[alloc[x.data.reg].num] == 1
    then reguse[alloc[x.data.reg].num := 0] else reguse
  }

  lemma ExpireActive(alloc: seq<Alloc>, placed: seq<Range>, active: multiset<Item<Range>>, line: nat, line': nat, x: Item<Range>)
    requires Active(alloc, placed, active, line) && x in active && x.priority < line' && line <= line'
    ensures Active(alloc, placed, active - multiset{x}, line')
  {
  }

  lemma ExpireOwned(alloc: seq<Alloc>, reguse: seq<nat>, active: multiset<Item<Range>>, x: Item<Range>)
    requires Owned(alloc, reguse, active) && x in active && active[x] == 1
    ensures Owned(alloc, Freed(alloc, reguse, x), active - multiset{x})
  {
    var a, u := active - multiset{x}, Freed(alloc, reguse, x);
    if Hosted(alloc, x.data) { assert Holds(alloc, active, x, alloc[x.data.reg].num); }
    forall y, s | Holds(alloc, a, y, s) ensures Holds(alloc, active, y, s) && y != x {}
    forall s | 0 <= s < IREGS && u[s] == 1 ensures exists y :: Holds(alloc, a, y, s) {
      var y :| Holds(alloc, active, y, s);
      assert Holds(alloc, a, y, s);
    }
  }

  lemma ExpireRegisters(alloc: seq<Alloc>, reguse: seq<nat>, active: multiset<Item<Range>>, x: Item<Range>)
    requires Registers(reguse) && Owned(alloc, reguse, active) && x in active
    ensures Registers(Freed(alloc, reguse, x))
    ensures InUse(Freed(alloc, reguse, x)) == InUse(reguse) - if Hosted(alloc, x.data) then 1 else 0
  {
    if Hosted(alloc, x.data) { assert Holds(alloc, active, x, alloc[x.data.reg].num); }
  }

  // ---------- taking a free register ----------

  lemma TakeRegisters(reguse: seq<nat>, s: nat)
    requires Registers(reguse) && s < IREGS && reguse[s] == 0
    ensures Registers(reguse[s := 1]) && InUse(reguse[s := 1]) == InUse(reguse) + 1
  {
  }

  /** A span newly placed, and what no placed span has yet. */
  ghost predicate Fresh(alloc: seq<Alloc>, placed: seq<Range>, r: Range) {
    r.reg < |alloc| && forall k :: 0 <= k < |placed| ==> placed[k].reg != r.reg
  }

  lemma PlaceOne(alloc: seq<Alloc>, placed: seq<Range>, line: nat, r: Range, a: Alloc)
    requires Placed(alloc, placed, line) && Fresh(alloc, placed, r) && r.start <= line && (a.Ireg? || a.Rfile?)
    ensures Placed(alloc[r.reg := a], placed + [r], line)
  {
  }

  lemma FreshIsInactive(alloc: seq<Alloc>, placed: seq<Range>, active: multiset<Item<Range>>, line: nat, r: Range)
    requires Active(alloc, placed, active, line) && Fresh(alloc, placed, r)
    ensures forall x :: x in active ==> x.data.reg != r.reg
  {
    forall x | x in active ensures x.data.reg != r.reg {
      var k :| 0 <= k < |placed| && placed[k] == x.data;
    }
  }

  lemma ActivateOne(alloc: seq<Alloc>, placed: seq<Range>, active: multiset<Item<Range>>, line: nat, r: Range, a: Alloc)
    requires Active(alloc, placed, active, line) && Fresh(alloc, placed, r)
    ensures Active(alloc[r.reg := a], placed + [r], active + multiset{Entry(r)}, line)
  {
    var p, m := placed + [r], active + multiset{Entry(r)};
    FreshIsInactive(alloc, placed, active, line, r);
    assert p[|placed|] == r && Entry(r) !in active;
    forall k | 0 <= k < |p| && Hosted(alloc[r.reg := a], p[k]) && End(p[k]) >= line ensures Entry(p[k]) in m {
      assert k < |placed| ==> Hosted(alloc, placed[k]);
    }
  }

  lemma OwnFree(alloc: seq<Alloc>, reguse: seq<nat>, placed: seq<Range>, active: multiset<Item<Range>>, line: nat, r: Range, s: nat)
    requires Owned(alloc, reguse, active) && Active(alloc, placed, active, line) && Fresh(alloc, placed, r)
    requires s < IREGS && reguse[s] == 0
    ensures Owned(alloc[r.reg := Ireg(s)], reguse[s := 1], active + multiset{Entry(r)})
  {
    var b, u, m := alloc[r.reg := Ireg(s)], reguse[s := 1], active + multiset{Entry(r)};
    FreshIsInactive(alloc, placed, active, line, r);
    hide Active, Fresh;
    forall x, t | Holds(b, m, x, t) && x != Entry(r) ensures Holds(alloc, active, x, t) && t != s {}
    forall t | 0 <= t < IREGS && u[t] == 1 ensures exists y :: Holds(b, m, y, t) {
      if t == s {
        assert Holds(b, m, Entry(r), t);
      } else {
        var y :| Holds(alloc, active, y, t);
        assert Holds(b, m, y, t);
      }
    }
  }

  /** A register that no unexpired span holds interferes with nothing. */
  lemma NoInterference(alloc: seq<Alloc>, placed: seq<Range>, active: multiset<Item<Range>>, r: Range, s: nat)
    requires InterferenceFree(alloc, placed) && Active(alloc, placed, active, r.start) && Fresh(alloc, placed, r)
    requires s < IREGS && s != ESP && s != EBP
    requires forall x :: x in active && Hosted(alloc, x.data) ==> alloc[x.data.reg].num != s
    ensures InterferenceFree(alloc[r.reg := Ireg(s)], placed + [r])
  {
    var b, p := alloc[r.reg := Ireg(s)], placed + [r];
    forall j, k | 0 <= j < k < |p| && Clash(b, p[j], p[k])
      ensures b[p[j].reg].num != b[p[k].reg].num
    {
      assert Hosted(alloc, placed[j]);
      if k == |placed| {
        assert Entry(placed[j]) in active;
      } else {
        assert Clash(alloc, placed[j], placed[k]);
      }
    }
  }

  // ---------- spilling ----------

  /** The span `d` gives up its register to `r`. */
  function Spilled(alloc: seq<Alloc>, d: Range, r: Range): seq<Alloc>
    requires d.reg < |alloc| && r.reg < |alloc| && alloc[d.reg].Ireg?
  {
    alloc[r.reg := Ireg(alloc[d.reg].num)][d.reg := Rfile(d.reg)]
  }

  lemma SpillPlaced(alloc: seq<Alloc>, placed: seq<Range>, line: nat, r: Range, d: Range)
    requires Placed(alloc, placed, line) && Fresh(alloc, placed, r) && r.start <= line && d in placed && Hosted(alloc, d)
    ensures Placed(Spilled(alloc, d, r), placed + [r], line)
  {
  }

  lemma SpillActive(alloc: seq<Alloc>, placed: seq<Range>, active: multiset<Item<Range>>, line: nat, r: Range, d: Range)
    requires Placed(alloc, placed, line) && Active(alloc, placed, active, line) && Fresh(alloc, placed, r)
    requires d in placed && Hosted(alloc, d)
    ensures Active(Spilled(alloc, d, r), placed + [r], active + multiset{Entry(r)}, line)
  {
    var b, p, m := Spilled(alloc, d, r), placed + [r], active + multiset{Entry(r)};
    ActivateOne(alloc, placed, active, line, r, Ireg(0));
    forall k | 0 <= k < |p| && Hosted(b, p[k]) && End(p[k]) >= line ensures Entry(p[k]) in m {
      assert Hosted(alloc[r.reg := Ireg(0)], p[k]);
    }
  }

  lemma OneEntryEach(alloc: seq<Alloc>, placed: seq<Range>, active: multiset<Item<Range>>, line: nat, d: Item<Range>)
    requires Placed(alloc, placed, line) && Active(alloc, placed, active, line) && d in active
    ensures forall x :: x in active && x.data.reg == d.data.reg ==> x == d
  {
    forall x | x in active && x.data.reg == d.data.reg ensures x == d {
      var k :| 0 <= k < |placed| && placed[k] == x.data;
      var j :| 0 <= j < |placed| && placed[j] == d.data;
    }
  }

  /** After the spill, whoever holds a register held it before; and `r` took over from `d`. */
  lemma SpillHolders(alloc: seq<Alloc>, placed: seq<Range>, active: multiset<Item<Range>>, line: nat, r: Range, d: Range)
    requires Placed(alloc, placed, line) && Active(alloc, placed, active, line)
    requires Fresh(alloc, placed, r) && Entry(d) in active && Hosted(alloc, d)
    ensures var b, m := Spilled(alloc, d, r), active + multiset{Entry(r)};
            && Holds(b, m, Entry(r), alloc[d.reg].num)
            && (forall x, t {:trigger Holds(b, m, x, t)} :: Holds(b, m, x, t) ==>
                  if x == Entry(r) then t == alloc[d.reg].num else Holds(alloc, active, x, t) && x != Entry(d))
            && (forall x, t {:trigger Holds(alloc, active, x, t)} :: Holds(alloc, active, x, t) && x != Entry(d) ==>
                  Holds(b, m, x, t))
  {
    FreshIsInactive(alloc, placed, active, line, r);
    OneEntryEach(alloc, placed, active, line, Entry(d));
    hide Active, Fresh, Placed;
  }

  lemma SpillOwned(alloc: seq<Alloc>, reguse: seq<nat>, placed: seq<Range>, active: multiset<Item<Range>>, line: nat, r: Range, d: Range)
    requires Owned(alloc, reguse, active) && Placed(alloc, placed, line) && Active(alloc, placed, active, line)
    requires Fresh(alloc, placed, r) && Entry(d) in active && Hosted(alloc, d)
    ensures Owned(Spilled(alloc, d, r), reguse, active + multiset{Entry(r)})
  {
    var b, m, n := Spilled(alloc, d, r), active + multiset{Entry(r)}, alloc[d.reg].num;
    SpillHolders(alloc, placed, active, line, r, d);
    assert Holds(alloc, active, Entry(d), n);
    hide Active, Fresh, Placed, Holds, Spilled;
    forall t | 0 <= t < IREGS && reguse[t] == 1 ensures exists y :: Holds(b, m, y, t) {
      if t != n {
        var y :| Holds(alloc, active, y, t);
        assert Holds(b, m, y, t);
      }
    }
  }

  lemma SpillInterference(alloc: seq<Alloc>, reguse: seq<nat>, placed: seq<Range>, active: multiset<Item<Range>>, r: Range, d: Range)
    requires InterferenceFree(alloc, placed) && Owned(alloc, reguse, active) && Placed(alloc, placed, r.start)
    requires Active(alloc, placed, active, r.start) && Fresh(alloc, placed, r) && Entry(d) in active && Hosted(alloc, d)
    ensures InterferenceFree(Spilled(alloc, d, r), placed + [r])
  {
    var b, p := Spilled(alloc, d, r), placed + [r];
    assert d in placed && Entry(d).data == d;
    forall j, k | 0 <= j < k < |p| && Clash(b, p[j], p[k])
      ensures b[p[j].reg].num != b[p[k].reg].num
    {
      assert Hosted(alloc, placed[j]) && p[j].reg != d.reg;
      if k == |placed| {
        assert Entry(placed[j]) in active;
        assert Holds(alloc, active, Entry(placed[j]), alloc[placed[j].reg].num);
        assert Holds(alloc, active, Entry(d), alloc[d.reg].num);
      } else {
        assert Clash(alloc, placed[j], placed[k]);
      }
    }
  }

  // ---------- crowding ----------

  /** Seven spans are live on one line. */
  ghost predicate Crowded(placed: seq<Range>, line: nat) {
    exists on: set<Range> :: CrowdedBy(placed, line, on)
  }

  ghost predicate CrowdedBy(placed: seq<Range>, line: nat, on: set<Range>) {
    |on| > MAXREG && forall r :: r in on ==> Covers(placed, r, line)
  }

  ghost predicate Covers(placed: seq<Range>, r: Range, line: nat) {
    r in placed && r.start <= line <= End(r)
  }

  /** A span was spilled only if seven were live on one line. */
  ghost predicate SpillsWhenCrowded(alloc: seq<Alloc>, placed: seq<Range>) {
    (forall k :: 0 <= k < |placed| ==> Hosted(alloc, placed[k])) || exists line: nat :: Crowded(placed, line)
  }

  lemma StillCrowded(placed: seq<Range>, r: Range, line: nat)
    requires Crowded(placed, line)
    ensures Crowded(placed + [r], line)
  {
    var on :| CrowdedBy(placed, line, on);
    assert CrowdedBy(placed + [r], line, on);
  }

  lemma PlaceSpills(alloc: seq<Alloc>, placed: seq<Range>, r: Range, s: nat)
    requires SpillsWhenCrowded(alloc, placed) && Fresh(alloc, placed, r)
    ensures SpillsWhenCrowded(alloc[r.reg := Ireg(s)], placed + [r])
  {
    var b, p := alloc[r.reg := Ireg(s)], placed + [r];
    if line: nat :| Crowded(placed, line) {
      StillCrowded(placed, r, line);
    } else {
      forall k | 0 <= k < |p| ensures Hosted(b, p[k]) {
        assert k < |placed| ==> Hosted(alloc, placed[k]);
      }
    }
  }

  lemma SevenAreCrowded(placed: seq<Range>, line: nat, a: Range, b: Range, c: Range, d: Range, e: Range, f: Range, g: Range)
    requires a !in {b, c, d, e, f, g} && b !in {c, d, e, f, g} && c !in {d, e, f, g} && d !in {e, f, g}
    requires e !in {f, g} && f != g
    requires Covers(placed, a, line) && Covers(placed, b, line) && Covers(placed, c, line) && Covers(placed, d, line)
    requires Covers(placed, e, line) && Covers(placed, f, line) && Covers(placed, g, line)
    ensures Crowded(placed, line)
  {
    hide Covers;
    assert |{a, b, c, d, e, f, g}| == 7;
    assert CrowdedBy(placed, line, {a, b, c, d, e, f, g});
  }

  /** A span that holds register `s` and reaches `line`. */
  lemma HolderOf(alloc: seq<Alloc>, reguse: seq<nat>, placed: seq<Range>, active: multiset<Item<Range>>, line: nat, s: nat)
    returns (r: Range)
    requires Owned(alloc, reguse, active) && Placed(alloc, placed, line) && Active(alloc, placed, active, line)
    requires s < IREGS && reguse[s] == 1 && forall x :: x in active ==> x.priority >= line
    ensures Hosted(alloc, r) && alloc[r.reg].num == s && Covers(placed, r, line)
  {
    var x :| Holds(alloc, active, x, s);
    r := x.data;
  }

  /** Six registers held by spans that reach the start of `r`: with `r`, seven spans live there. */
  lemma AllHeldIsCrowded(alloc: seq<Alloc>, reguse: seq<nat>, placed: seq<Range>, active: multiset<Item<Range>>, r: Range)
    requires Registers(reguse) && InUse(reguse) >= MAXREG
    requires Owned(alloc, reguse, active) && Placed(alloc, placed, r.start) && Active(alloc, placed, active, r.start)
    requires Fresh(alloc, placed, r) && r.reg < |alloc| && alloc[r.reg].Unset?
    requires forall x :: x in active ==> x.priority >= r.start
    ensures Crowded(placed + [r], r.start)
  {
    hide Fresh;
    FreeRegister(reguse);
    var a := HolderOf(alloc, reguse, placed, active, r.start, 0);
    var b := HolderOf(alloc, reguse, placed, active, r.start, 1);
    var c := HolderOf(alloc, reguse, placed, active, r.start, 2);
    var d := HolderOf(alloc, reguse, placed, active, r.start, 3);
    var e := HolderOf(alloc, reguse, placed, active, r.start, 6);
    var f := HolderOf(alloc, reguse, placed, active, r.start, 7);
    hide Owned, Active, Registers, InUse, Covers;
    StillCovers(placed, r, r.start);
    SevenAreCrowded(placed + [r], r.start, a, b, c, d, e, f, r);
  }

  lemma StillCovers(placed: seq<Range>, r: Range, line: nat)
    requires r.start <= line <= End(r)
    ensures Covers(placed + [r], r, line)
    ensures forall q :: Covers(placed, q, line) ==> Covers(placed + [r], q, line)
  {
    assert (placed + [r])[|placed|] == r;
    forall q | Covers(placed, q, line) ensures Covers(placed + [r], q, line) {
      var k :| 0 <= k < |placed| && placed[k] == q;
      assert (placed + [r])[k] == q;
    }
  }

  /**
   The temporary `t` has a place now, a register if it had none.  Of the others the same ones
   have none, and at most a register is given up for a slot.
   */
  ghost predicate OnlyPlaces(before: seq<Alloc>, after: seq<Alloc>, t: nat) {
    && |after| == |before|
    && (t < |before| && before[t].Unset? ==> after[t].Ireg?)
    && forall u :: 0 <= u < |before| ==>
         && (after[u].Unset? <==> before[u].Unset? && u != t)
         && (before[u].Unset? || after[u] == before[u] || (before[u].Ireg? && after[u] == Rfile(u)))
  }

  /** After placing the spans `seen`: the temporaries without a place had none and have no span; the settled are as before. */
  ghost predicate Settled(start: seq<Alloc>, seen: seq<Range>, alloc: seq<Alloc>) {
    && |alloc| == |start|
    && forall t :: 0 <= t < |start| ==>
         && (alloc[t].Unset? <==> start[t].Unset? && !Mentions(seen, t))
         && (start[t].Unset? ==> alloc[t].Unset? || alloc[t].Ireg? || alloc[t] == Rfile(t))
         && (start[t].Unset? || start[t].Ireg? || alloc[t] == start[t])
  }

  /** The lowest free register. */
  predicate Lowest(reguse: seq<nat>, s: nat)
    requires |reguse| == IREGS
  {
    s < IREGS && reguse[s] == 0 && forall k :: 0 <= k < s ==> reguse[k] != 0
  }

  /** The places of `r` and of the span it takes its register from. */
  ghost predicate SpilledOne(before: seq<Alloc>, items: seq<Item<Range>>, r: Range, after: seq<Alloc>) {
    exists f ::
      && 0 <= f < |items| && Chosen(before, items, End(r), f)
      && items[f].data.reg < |before| && r.reg < |before| && after == Spilled(before, items[f].data, r)
  }

  /**
   Which active span is spilled: of those in registers, the last in the queue's array that
   ends after `end`, or the first if none does.
   */
  ghost predicate Chosen(alloc: seq<Alloc>, items: seq<Item<Range>>, end: nat, f: nat)
    requires f < |items|
  {
    && Hosted(alloc, items[f].data)
    && (forall j :: f < j < |items| && Hosted(alloc, items[j].data) ==> End(items[j].data) <= end)
    && (End(items[f].data) <= end ==> forall j :: 0 <= j < f ==> !Hosted(alloc, items[j].data))
  }

  /** That determines it, so two choices of one state are one. */
  lemma ChosenOnce(alloc: seq<Alloc>, items: seq<Item<Range>>, end: nat, f: nat, g: nat)
    requires f < |items| && g < |items| && Chosen(alloc, items, end, f) && Chosen(alloc, items, end, g)
    ensures f == g
  {
  }

  // ---------- the allocator ----------

  class Allocator {
    const alloc: array<Alloc>
    const reguse: array<nat>
    var regno: nat
    const active: Queue<Range>

    /** The spans placed so far, and the line reached. */
    ghost var placed: seq<Range>
    ghost var line: nat

    ghost predicate Valid()
      reads this, alloc, reguse, active, active.item
    {
      && active.Valid()
      && Inv(alloc[..], reguse[..], regno, active.Contents(), placed, line)
      && SpillsWhenCrowded(alloc[..], placed)
    }

    /** palloc_linearscan: no register in use, ESP and EBP reserved, nothing active. */
    constructor (alloc: array<Alloc>)
      ensures Valid() && this.alloc == alloc && alloc[..] == old(alloc[..]) && placed == [] && line == 0
      ensures Seen(alloc[..], [])
      ensures fresh(reguse) && fresh(active) && fresh(active.item)
    {
      this.alloc := alloc;
      reguse := new nat[IREGS](s => if s == ESP || s == EBP then 2 else 0);
      regno := 0;
      active := new Queue();
      placed := [];
      line := 0;
    }

    /** The state while `r` is active but not yet placed: `others` are the other active spans. */
    ghost predicate Placing(r: Range, others: multiset<Item<Range>>)
      reads this, alloc, reguse, active, active.item
    {
      && active.Valid() && active.Contents() == others + multiset{Entry(r)}
      && Inv(alloc[..], reguse[..], regno, others, placed, r.start)
      && SpillsWhenCrowded(alloc[..], placed)
      && r.reg < alloc.Length && Fresh(alloc[..], placed, r) && alloc[r.reg].Unset?
    }

    /** Give back the register of the active queue's first span, and drop the span. */
    method ExpireOne(r: Range, ghost others: multiset<Item<Range>>)
      requires Placing(r, others) && active.length > 0 && active.item[0].priority < r.start
      modifies reguse, this`regno, active, active.item
      ensures active.item == old(active.item) && active.length < old(active.length)
      ensures Placing(r, others - multiset{old(active.item[0])})
    {
      hide Inv, IsHeap, SpillsWhenCrowded, Fresh, Least, Freed;
      ghost var x := active.item[0];
      FirstIsOther(active.item[..active.length], others, r);
      Expires(alloc[..], reguse[..], regno, others, placed, r.start, x);
      Release(active.item[0].data, x);
      DropFirst(r, others);
    }

    method DropFirst(r: Range, ghost others: multiset<Item<Range>>)
      requires active.Valid() && active.Contents() == others + multiset{Entry(r)}
      requires active.length > 0 && active.item[0] in others
      modifies active, active.item
      ensures active.Valid() && active.item == old(active.item) && active.length < old(active.length)
      ensures active.Contents() == others - multiset{old(active.item[0])} + multiset{Entry(r)}
    {
      hide IsHeap, Least;
      var _ := active.Extract();
    }

    /** The register of an expired span, if it has one, is free again. */
    method Release(del: Range, ghost x: Item<Range>)
      requires x.data == del && del.reg < alloc.Length && reguse.Length == IREGS
      requires alloc[del.reg].Ireg? ==> alloc[del.reg].num < IREGS && reguse[alloc[del.reg].num] == 1 && regno > 0
      modifies reguse, this`regno
      ensures reguse[..] == Freed(alloc[..], old(reguse[..]), x)
      ensures regno == old(regno) - if alloc[del.reg].Ireg? then 1 else 0
    {
      var a := alloc[del.reg];
      if a.Ireg? && reguse[a.num] == 1 {
        reguse[a.num] := 0;
        regno := regno - 1;
      }
    }

    /** Expire every span that ended before `r` starts. */
    method Expire(r: Range, ghost others: multiset<Item<Range>>) returns (ghost rest: multiset<Item<Range>>)
      requires Placing(r, others)
      modifies reguse, this`regno, active, active.item
      ensures active.item == old(active.item) && Placing(r, rest)
      ensures forall x :: x in rest ==> x.priority >= r.start
    {
      hide Inv, IsHeap, SpillsWhenCrowded, Fresh, Least;
      rest := others;
      while active.length > 0 && active.item[0].priority < r.start
        invariant active.item == old(active.item) && Placing(r, rest)
        decreases active.length
      {
        ghost var x := active.item[0];
        ExpireOne(r, rest);
        rest := rest - multiset{x};
      }
      FirstReaches(active.item[..active.length], rest, r);
    }

    /** Claim the lowest free register: the source asserts that there is one. */
    method FindFree() returns (ireg: nat)
      requires Registers(reguse[..]) && regno == InUse(reguse[..]) < MAXREG
      modifies reguse, this`regno
      ensures Lowest(old(reguse[..]), ireg) && regno == old(regno) + 1
      ensures reguse[..] == old(reguse[..])[ireg := 1]
      ensures ireg < 8 && old(reguse[..])[ireg] == 0 && forall k :: 0 <= k < ireg ==> old(reguse[..])[k] != 0
    {
      FreeRegister(reguse[..]);
      ghost var t :| 0 <= t < IREGS && reguse[..][t] == 0;
      var found := -1;
      var s := 0;
      while found == -1 && s < IREGS
        invariant 0 <= s <= IREGS
        invariant found == -1 ==> reguse[..] == old(reguse[..]) && regno == old(regno)
                                  && forall k :: 0 <= k < s ==> reguse[k] != 0
        invariant found != -1 ==> 0 <= found && Lowest(old(reguse[..]), found) && regno == old(regno) + 1
                                  && reguse[..] == old(reguse[..])[found := 1]
                                  && forall k :: 0 <= k < found ==> old(reguse[..])[k] != 0
        decreases IREGS - s, found == -1
      {
        if reguse[s] == 0 {
          reguse[s] := 1;
          found := s;
          regno := regno + 1;
        }
        s := s + 1;
      }
      assert found != -1;
      ireg := found;
    }

    /** Choose an active span to spill: the source asserts that there is one. */
    method FindSpill(end: nat) returns (f: nat)
      requires active.Valid()
      requires forall j :: 0 <= j < active.length ==> active.item[j].data.reg < alloc.Length
      requires exists j :: 0 <= j < active.length && Hosted(alloc[..], active.item[j].data)
      ensures f < active.length && Chosen(alloc[..], active.item[..active.length], end, f)
    {
      var found := -1;
      for j := 0 to active.length
        invariant found == -1 ==> forall k :: 0 <= k < j ==> !Hosted(alloc[..], active.item[k].data)
        invariant found != -1 ==> 0 <= found < j && Chosen(alloc[..], active.item[..j], end, found)
      {
        var seek := active.item[j].data;
        if alloc[seek.reg].Ireg? && (End(seek) > end || found == -1) { found := j; }
      }
      assert found != -1;
      f := found;
    }
  
    /** Put `r` in the lowest free register. */
    method TakeFree(r: Range, ghost others: multiset<Item<Range>>)
      requires Placing(r, others) && regno < MAXREG
      modifies alloc, reguse, this`regno, this`placed, this`line
      ensures exists s :: Lowest(old(reguse[..]), s) && alloc[..] == old(alloc[..])[r.reg := Ireg(s)]
      ensures Valid() && placed == old(placed) + [r] && line == r.start
      ensures OnlyPlaces(old(alloc[..]), alloc[..], r.reg)
    {
      hide Inv, IsHeap, SpillsWhenCrowded, Fresh;
      ghost var a, u := alloc[..], reguse[..];
      Counted(a, u, regno, others, placed, r.start);
      var ireg := FindFree();
      Takes(a, u, regno - 1, others, placed, r, ireg);
      alloc[r.reg] := Ireg(ireg);
      placed := placed + [r];
      line := r.start;
      assert alloc[..] == a[r.reg := Ireg(ireg)];
    }

    /** Give `r` the register of an active span, which loses it. */
    method SpillOne(r: Range, ghost others: multiset<Item<Range>>)
      requires Placing(r, others) && regno >= MAXREG && forall x :: x in others ==> x.priority >= r.start
      modifies alloc, this`placed, this`line
      ensures SpilledOne(old(alloc[..]), active.item[..active.length], r, alloc[..])
      ensures Valid() && placed == old(placed) + [r] && line == r.start
      ensures OnlyPlaces(old(alloc[..]), alloc[..], r.reg)
    {
      hide Inv, IsHeap, SpillsWhenCrowded, Fresh;
      ghost var a, u := alloc[..], reguse[..];
      SomeoneToSpill(a, u, regno, others, placed, r, active.item[..active.length]);
      var f := FindSpill(End(r));
      var del := active.item[f].data;
      SpillsOne(a, u, regno, others, placed, r, active.item[..active.length], f);
      alloc[r.reg] := Ireg(alloc[del.reg].num);
      alloc[del.reg] := Rfile(del.reg);
      placed := placed + [r];
      line := r.start;
      assert alloc[..] == Spilled(a, del, r);
    }

    /** A span whose temporary has no place yet. */
    method PlaceUnset(r: Range)
      requires Valid() && line <= r.start && r.reg < alloc.Length && alloc[r.reg].Unset?
      requires Fresh(alloc[..], placed, r)
      modifies this, alloc, reguse, active, active.item
      ensures Valid() && (active.item == old(active.item) || fresh(active.item)) && line == r.start
      ensures placed == old(placed) + [r] && OnlyPlaces(old(alloc[..]), alloc[..], r.reg)
    {
      hide IsHeap, Inv, SpillsWhenCrowded, Fresh, OnlyPlaces;
      ghost var others := active.Contents();
      LaterLine(alloc[..], reguse[..], regno, others, placed, line, r.start);
      active.Insert(End(r), r);
      others := Expire(r, others);
      if regno < MAXREG {
        TakeFree(r, others);
      } else {
        SpillOne(r, others);
      }
    }

    /** One span: skipped if its temporary has a place already. */
    method Place(r: Range)
      requires Valid() && line <= r.start && r.reg < alloc.Length
      modifies this, alloc, reguse, active, active.item
      ensures Valid() && (active.item == old(active.item) || fresh(active.item)) && line == r.start
      ensures placed == if old(alloc[r.reg]).Unset? then old(placed) + [r] else old(placed)
      ensures OnlyPlaces(old(alloc[..]), alloc[..], r.reg)
    {
      hide IsHeap, Inv, SpillsWhenCrowded, Fresh;
      LaterLine(alloc[..], reguse[..], regno, active.Contents(), placed, line, r.start);
      if alloc[r.reg].Unset? {
        UnsetIsFresh(alloc[..], reguse[..], regno, active.Contents(), placed, r);
        PlaceUnset(r);
      } else {
        line := r.start;
      }
    }

    /** What was placed, and which temporaries have a place, after the spans `seen` from the allocation `start`. */
    ghost predicate Seen(start: seq<Alloc>, seen: seq<Range>)
      reads this, alloc
    {
      placed == PlacedOf(start, seen) && Settled(start, seen, alloc[..])
    }

    /** palloc_linearscan_inner for one block: its spans in the order of their starts. */
    method ScanBlock(live: Queue<Range>, ghost start: seq<Alloc>, ghost seen: seq<Range>, ghost ranges: seq<Range>)
      requires Valid() && Seen(start, seen) && line == LastStart(seen) && live.Valid() && live != active && live.item != active.item
      requires live.Contents() == multiset(ByStart(ranges)) && Pending(ranges, line, alloc.Length)
      modifies this, alloc, reguse, active, active.item, live, live.item
      ensures Valid() && Seen(start, seen + ranges) && (active.item == old(active.item) || fresh(active.item))
      ensures line == LastStart(seen + ranges)
    {
      hide IsHeap, Inv, SpillsWhenCrowded, PlacedOf, Least, ByStart, Mentions, Pending, Divided, LastStart;
      ghost var done, rest := seen, ranges;
      NoneAcross(seen, ranges);
      while live.length > 0
        invariant Valid() && live.Valid() && Seen(start, done)
        invariant live.item == old(live.item) && (active.item == old(active.item) || fresh(active.item))
        invariant live.Contents() == multiset(ByStart(rest)) && Pending(rest, line, alloc.Length)
        invariant Divided(seen + ranges, done, rest) && line == LastStart(done)
        decreases live.length
      {
        ScanNext(live, start, done, rest);
        OneAcross(seen + ranges, done, rest);
        done, rest := done + [rest[0]], rest[1..];
      }
      AllExtracted(rest);
      assert done == seen + ranges by { AllAcross(seen + ranges, done); }
    }

    /** The next span of a block. */
    method ScanNext(live: Queue<Range>, ghost start: seq<Alloc>, ghost done: seq<Range>, ghost rest: seq<Range>)
      requires Valid() && live.Valid() && Seen(start, done) && live != active && live.item != active.item
      requires live.length > 0 && live.Contents() == multiset(ByStart(rest)) && Pending(rest, line, alloc.Length)
      modifies this, alloc, reguse, active, active.item, live, live.item
      ensures rest != [] && Valid() && live.Valid() && Seen(start, done + [rest[0]]) && line == rest[0].start
      ensures live.item == old(live.item) && (active.item == old(active.item) || fresh(active.item))
      ensures live.length < old(live.length)
      ensures live.Contents() == multiset(ByStart(rest[1..])) && Pending(rest[1..], line, alloc.Length)
    {
      hide IsHeap, Inv, SpillsWhenCrowded, PlacedOf, Least, ByStart, Mentions, Pending;
      PendingAscends(rest, line, alloc.Length);
      var rangeitem := live.Extract();
      LeastIsFirst(rest, rangeitem.value);
      PendingRest(rest, line, alloc.Length);
      PlaceNext(rangeitem.value.data, start, done);
    }

    /** Place one span and account for it. */
    method PlaceNext(r: Range, ghost start: seq<Alloc>, ghost seen: seq<Range>)
      requires Valid() && Seen(start, seen) && line <= r.start && r.reg < alloc.Length
      modifies this, alloc, reguse, active, active.item
      ensures Valid() && Seen(start, seen + [r]) && (active.item == old(active.item) || fresh(active.item))
      ensures line == r.start
    {
      hide IsHeap, Inv, SpillsWhenCrowded, PlacedOf, Mentions;
      SeenOneMore(start, seen, r);
      Place(r);
    }

    /** palloc_linearscan over the blocks in the order they are visited, each with its spans. */
    method LinearScan(blocks: seq<seq<Range>>, ghost start: seq<Alloc>)
      requires Valid() && Seen(start, []) && line == 0 && Pending(Flat(blocks), 0, alloc.Length)
      modifies this, alloc, reguse, active, active.item
      ensures Valid() && Seen(start, Flat(blocks))
      ensures InterferenceFree(alloc[..], PlacedOf(start, Flat(blocks)))
      ensures SpillsWhenCrowded(alloc[..], PlacedOf(start, Flat(blocks)))
    {
      hide IsHeap, Inv, SpillsWhenCrowded, PlacedOf, Pending, ByStart;
      assert Flat(blocks[..0]) == [];
      for b := 0 to |blocks|
        invariant Valid() && Seen(start, Flat(blocks[..b])) && (active.item == old(active.item) || fresh(active.item))
        invariant line == LastStart(Flat(blocks[..b]))
      {
        FlatNext(blocks, b, alloc.Length);
        var live := FillQueue(blocks[b]);
        ScanBlock(live, start, Flat(blocks[..b]), blocks[b]);
      }
      assert blocks[..|blocks|] == blocks;
      InvIsInterferenceFree(alloc[..], reguse[..], regno, active.Contents(), placed, line);
    }
  }

  /** A block's live queue, as palloc_findspans fills it. */
  method FillQueue(ranges: seq<Range>) returns (live: Queue<Range>)
    ensures fresh(live) && fresh(live.item) && live.Valid() && live.Contents() == multiset(ByStart(ranges))
  {
    hide IsHeap, ByStart;
    live := new Queue();
    assert ByStart(ranges[..0]) == [] by { NothingByStart(); }
    for k := 0 to |ranges|
      invariant live.Valid() && fresh(live) && fresh(live.item) && live.Contents() == multiset(ByStart(ranges[..k]))
    {
      live.Insert(ranges[k].start, ranges[k]);
      ByStartAppend(ranges[..k], ranges[k]);
      assert ranges[..k + 1] == ranges[..k] + [ranges[k]];
    }
    assert ranges[..|ranges|] == ranges;
  }

  // ---------- the order of spans ----------

  ghost predicate Ascending(ranges: seq<Range>) {
    forall j, k :: 0 <= j < k < |ranges| ==> ranges[j].start < ranges[k].start
  }

  /** Spans still to be placed, in order, from `line` on. */
  ghost predicate Pending(ranges: seq<Range>, line: nat, temps: nat) {
    Ascending(ranges) && forall k :: 0 <= k < |ranges| ==> line <= ranges[k].start && ranges[k].reg < temps
  }

  ghost predicate Divided(all: seq<Range>, done: seq<Range>, rest: seq<Range>) {
    all == done + rest
  }

  lemma NoneAcross(seen: seq<Range>, ranges: seq<Range>)
    ensures Divided(seen + ranges, seen, ranges)
  {
  }

  lemma OneAcross(all: seq<Range>, done: seq<Range>, rest: seq<Range>)
    requires Divided(all, done, rest) && rest != []
    ensures Divided(all, done + [rest[0]], rest[1..]) && LastStart(done + [rest[0]]) == rest[0].start
  {
  }

  lemma AllAcross(all: seq<Range>, done: seq<Range>)
    requires Divided(all, done, [])
    ensures all == done
  {
  }

  lemma PendingAscends(ranges: seq<Range>, line: nat, temps: nat)
    requires Pending(ranges, line, temps)
    ensures Ascending(ranges)
  {
  }

  lemma PendingRest(ranges: seq<Range>, line: nat, temps: nat)
    requires Pending(ranges, line, temps) && ranges != []
    ensures line <= ranges[0].start && ranges[0].reg < temps && Pending(ranges[1..], ranges[0].start, temps)
  {
  }

  /** The live queue's entries for some spans. */
  function ByStart(ranges: seq<Range>): (items: seq<Item<Range>>)
    ensures |items| == |ranges|
  {
    seq(|ranges|, k requires 0 <= k < |ranges| => Item(ranges[k].start, ranges[k]))
  }

  predicate Mentions(ranges: seq<Range>, t: nat) {
    exists k :: 0 <= k < |ranges| && ranges[k].reg == t
  }

  function Flat(blocks: seq<seq<Range>>): seq<Range> {
    if blocks == [] then [] else Flat(blocks[..|blocks| - 1]) + blocks[|blocks| - 1]
  }

  /** The spans that linear scan places: the first one of each temporary that has no place to begin with. */
  ghost function PlacedOf(start: seq<Alloc>, ranges: seq<Range>): seq<Range> {
    if ranges == [] then []
    else
      var front, r := ranges[..|ranges| - 1], ranges[|ranges| - 1];
      PlacedOf(start, front) + if Unplaced(start, r.reg) && !Mentions(front, r.reg) then [r] else []
  }

  predicate Unplaced(start: seq<Alloc>, t: nat) {
    t < |start| && start[t].Unset?
  }

  lemma NothingByStart()
    ensures ByStart([]) == []
  {
  }

  lemma AllExtracted(ranges: seq<Range>)
    requires multiset(ByStart(ranges)) == multiset{}
    ensures ranges == []
  {
    assert |multiset(ByStart(ranges))| == |ByStart(ranges)|;
  }

  lemma ByStartAppend(ranges: seq<Range>, r: Range)
    ensures ByStart(ranges + [r]) == ByStart(ranges) + [Item(r.start, r)]
  {
  }

  /** What the spans of block `b` inherit from the chunk's. */
  lemma FlatNext(blocks: seq<seq<Range>>, b: nat, temps: nat)
    requires b < |blocks| && Pending(Flat(blocks), 0, temps)
    ensures Flat(blocks[..b + 1]) == Flat(blocks[..b]) + blocks[b]
    ensures Pending(blocks[b], LastStart(Flat(blocks[..b])), temps)
  {
    assert blocks[..b + 1][..b] == blocks[..b];
    FlatPrefix(blocks, b + 1);
    MiddlePending(Flat(blocks[..b]), blocks[b], Flat(blocks), temps);
  }

  function LastStart(ranges: seq<Range>): nat {
    if ranges == [] then 0 else ranges[|ranges| - 1].start
  }

  lemma MiddlePending(front: seq<Range>, here: seq<Range>, all: seq<Range>, temps: nat)
    requires front + here <= all && Pending(all, 0, temps)
    ensures Pending(here, LastStart(front), temps)
  {
    assert forall k :: 0 <= k < |here| ==> here[k] == all[|front| + k];
    if front != [] { assert front[|front| - 1] == all[|front| - 1]; }
  }

  lemma {:induction false} FlatPrefix(blocks: seq<seq<Range>>, b: nat)
    requires b <= |blocks|
    ensures Flat(blocks[..b]) <= Flat(blocks)
  {
    if b < |blocks| {
      FlatPrefix(blocks[..|blocks| - 1], b);
      assert blocks[..|blocks| - 1][..b] == blocks[..b];
    } else {
      assert blocks[..b] == blocks;
    }
  }

  // ---------- steps of the allocator ----------

  lemma InvIsInterferenceFree(alloc: seq<Alloc>, reguse: seq<nat>, regno: nat, active: multiset<Item<Range>>,
                              placed: seq<Range>, line: nat)
    requires Inv(alloc, reguse, regno, active, placed, line)
    ensures InterferenceFree(alloc, placed)
  {
  }

  /** Hosted spans that share a line hold different registers of the six, so seven are never all hosted. */
  lemma CrowdedSpills(alloc: seq<Alloc>, placed: seq<Range>, line: nat)
    requires InterferenceFree(alloc, placed) && Crowded(placed, line)
    ensures exists k :: 0 <= k < |placed| && !Hosted(alloc, placed[k])
  {
    var on :| CrowdedBy(placed, line, on);
    if forall k :: 0 <= k < |placed| ==> Hosted(alloc, placed[k]) {
      var nums := RegistersApart(alloc, placed, line, on);
      SubsetSize(nums, {0, 1, 2, 3, 6, 7});
    }
  }

  function RegisterOf(alloc: seq<Alloc>, r: Range): nat {
    if Hosted(alloc, r) then alloc[r.reg].num else IREGS
  }

  /** As many registers as hosted spans that cover a line. */
  lemma {:induction false} RegistersApart(alloc: seq<Alloc>, placed: seq<Range>, line: nat, on: set<Range>)
    returns (nums: set<nat>)
    requires InterferenceFree(alloc, placed) && forall r :: r in on ==> Covers(placed, r, line)
    requires forall k :: 0 <= k < |placed| ==> Hosted(alloc, placed[k])
    ensures |nums| == |on| && nums <= {0, 1, 2, 3, 6, 7}
    ensures forall n :: n in nums ==> exists r :: r in on && RegisterOf(alloc, r) == n
  {
    nums := {};
    if on != {} {
      var q :| q in on;
      nums := RegistersApart(alloc, placed, line, on - {q});
      AllowedRegister(alloc, placed, line, q);
      forall n | n in nums ensures n != RegisterOf(alloc, q) {
        var r :| r in on - {q} && RegisterOf(alloc, r) == n;
        CoveringApart(alloc, placed, line, r, q);
      }
      nums := nums + {RegisterOf(alloc, q)};
    }
  }

  lemma AllowedRegister(alloc: seq<Alloc>, placed: seq<Range>, line: nat, q: Range)
    requires InterferenceFree(alloc, placed) && Covers(placed, q, line)
    requires forall k :: 0 <= k < |placed| ==> Hosted(alloc, placed[k])
    ensures RegisterOf(alloc, q) in {0, 1, 2, 3, 6, 7}
  {
    var k :| 0 <= k < |placed| && placed[k] == q;
  }

  lemma {:induction false} SubsetSize(a: set<nat>, b: set<nat>)
    requires a <= b
    ensures |a| <= |b|
  {
    if a != {} {
      var x :| x in a;
      SubsetSize(a - {x}, b - {x});
    }
  }

  lemma CoveringApart(alloc: seq<Alloc>, placed: seq<Range>, line: nat, r: Range, q: Range)
    requires InterferenceFree(alloc, placed) && Covers(placed, r, line) && Covers(placed, q, line) && r != q
    requires forall k :: 0 <= k < |placed| ==> Hosted(alloc, placed[k])
    ensures RegisterOf(alloc, r) != RegisterOf(alloc, q)
  {
    var j :| 0 <= j < |placed| && placed[j] == r;
    var k :| 0 <= k < |placed| && placed[k] == q;
    assert Clash(alloc, placed[j], placed[k]) && Clash(alloc, placed[k], placed[j]);
  }

  /** Spans are spilled exactly when seven are live on one line. */
  lemma SpillsExactlyWhenCrowded(alloc: seq<Alloc>, placed: seq<Range>)
    requires InterferenceFree(alloc, placed) && SpillsWhenCrowded(alloc, placed)
    ensures (exists k :: 0 <= k < |placed| && !Hosted(alloc, placed[k])) <==> exists line: nat :: Crowded(placed, line)
  {
    if line: nat :| Crowded(placed, line) {
      CrowdedSpills(alloc, placed, line);
    }
  }

  lemma LaterLine(alloc: seq<Alloc>, reguse: seq<nat>, regno: nat, active: multiset<Item<Range>>, placed: seq<Range>,
                  line: nat, line': nat)
    requires Inv(alloc, reguse, regno, active, placed, line) && line <= line'
    ensures Inv(alloc, reguse, regno, active, placed, line')
  {
  }

  lemma UnsetIsFresh(alloc: seq<Alloc>, reguse: seq<nat>, regno: nat, active: multiset<Item<Range>>, placed: seq<Range>, r: Range)
    requires Inv(alloc, reguse, regno, active, placed, r.start) && r.reg < |alloc| && alloc[r.reg].Unset?
    ensures Fresh(alloc, placed, r)
  {
  }

  /** The least entry of ascending spans is the first one's. */
  lemma LeastIsFirst(ranges: seq<Range>, x: Item<Range>)
    requires Ascending(ranges) && Least(multiset(ByStart(ranges)), x)
    ensures ranges != [] && x == Item(ranges[0].start, ranges[0])
    ensures multiset(ByStart(ranges)) - multiset{x} == multiset(ByStart(ranges[1..]))
  {
    var items := ByStart(ranges);
    var k :| 0 <= k < |items| && items[k] == x;
    assert items[0] in multiset(items);
    assert items == [items[0]] + ByStart(ranges[1..]);
  }

  lemma MentionsOneMore(ranges: seq<Range>, r: Range, t: nat)
    ensures Mentions(ranges + [r], t) <==> Mentions(ranges, t) || t == r.reg
  {
    var all := ranges + [r];
    assert all[|ranges|] == r;
    if k :| 0 <= k < |ranges| && ranges[k].reg == t { assert all[k].reg == t; }
  }

  lemma SeenOneMore(start: seq<Alloc>, ranges: seq<Range>, r: Range)
    ensures PlacedOf(start, ranges + [r]) ==
            PlacedOf(start, ranges) + if Unplaced(start, r.reg) && !Mentions(ranges, r.reg) then [r] else []
    ensures forall t: nat :: Mentions(ranges + [r], t) <==> Mentions(ranges, t) || t == r.reg
  {
    var all := ranges + [r];
    assert all[..|all| - 1] == ranges;
    forall t: nat ensures Mentions(ranges + [r], t) <==> Mentions(ranges, t) || t == r.reg {
      MentionsOneMore(ranges, r, t);
    }
  }

  lemma Counted(alloc: seq<Alloc>, reguse: seq<nat>, regno: nat, active: multiset<Item<Range>>, placed: seq<Range>, line: nat)
    requires Inv(alloc, reguse, regno, active, placed, line)
    ensures Registers(reguse) && regno == InUse(reguse)
  {
  }

  lemma Takes(alloc: seq<Alloc>, reguse: seq<nat>, regno: nat, active: multiset<Item<Range>>, placed: seq<Range>, r: Range, s: nat)
    requires Inv(alloc, reguse, regno, active, placed, r.start) && Fresh(alloc, placed, r)
    requires SpillsWhenCrowded(alloc, placed) && s < IREGS && |reguse| == IREGS && reguse[s] == 0
    ensures Inv(alloc[r.reg := Ireg(s)], reguse[s := 1], regno + 1, active + multiset{Entry(r)}, placed + [r], r.start)
    ensures SpillsWhenCrowded(alloc[r.reg := Ireg(s)], placed + [r])
  {
    forall x | x in active && Hosted(alloc, x.data) ensures alloc[x.data.reg].num != s {
      assert Holds(alloc, active, x, alloc[x.data.reg].num);
    }
    hide Placed, Active, Owned, InterferenceFree, Fresh, SpillsWhenCrowded;
    TakeRegisters(reguse, s);
    PlaceOne(alloc, placed, r.start, r, Ireg(s));
    ActivateOne(alloc, placed, active, r.start, r, Ireg(s));
    OwnFree(alloc, reguse, placed, active, r.start, r, s);
    NoInterference(alloc, placed, active, r, s);
    PlaceSpills(alloc, placed, r, s);
  }

  /** With every register in use, some active span other than `r` holds one. */
  lemma SomeoneToSpill(alloc: seq<Alloc>, reguse: seq<nat>, regno: nat, active: multiset<Item<Range>>, placed: seq<Range>,
                       r: Range, items: seq<Item<Range>>)
    requires Inv(alloc, reguse, regno, active, placed, r.start) && regno >= MAXREG && Fresh(alloc, placed, r)
    requires multiset(items) == active + multiset{Entry(r)}
    ensures forall j :: 0 <= j < |items| ==> items[j].data.reg < |alloc|
    ensures exists j :: 0 <= j < |items| && Hosted(alloc, items[j].data)
  {
    FreeRegister(reguse);
    assert reguse[0] == 1;
    var x :| Holds(alloc, active, x, 0);
    assert x in multiset(items);
    forall j | 0 <= j < |items| ensures items[j].data.reg < |alloc| {
      assert items[j] in multiset(items);
    }
  }

  lemma SpillsOne(alloc: seq<Alloc>, reguse: seq<nat>, regno: nat, active: multiset<Item<Range>>, placed: seq<Range>,
                  r: Range, items: seq<Item<Range>>, f: nat)
    requires Inv(alloc, reguse, regno, active, placed, r.start) && regno >= MAXREG && Fresh(alloc, placed, r)
    requires alloc[r.reg].Unset? && multiset(items) == active + multiset{Entry(r)} && f < |items|
    requires Hosted(alloc, items[f].data) && forall x :: x in active ==> x.priority >= r.start
    ensures items[f].data.reg != r.reg && !alloc[items[f].data.reg].Unset?
    ensures Inv(Spilled(alloc, items[f].data, r), reguse, regno, active + multiset{Entry(r)}, placed + [r], r.start)
    ensures SpillsWhenCrowded(Spilled(alloc, items[f].data, r), placed + [r])
  {
    var d := items[f].data;
    assert items[f] in multiset(items) && items[f] in active;
    assert items[f] == Entry(d) && d in placed;
    hide Placed, Active, Owned, InterferenceFree, Fresh;
    SpillPlaced(alloc, placed, r.start, r, d);
    SpillActive(alloc, placed, active, r.start, r, d);
    SpillOwned(alloc, reguse, placed, active, r.start, r, d);
    SpillInterference(alloc, reguse, placed, active, r, d);
    AllHeldIsCrowded(alloc, reguse, placed, active, r);
  }

  /** An active span that ended before `r` starts is not `r`. */
  lemma FirstIsOther(items: seq<Item<Range>>, others: multiset<Item<Range>>, r: Range)
    requires items != [] && multiset(items) == others + multiset{Entry(r)} && items[0].priority < r.start
    ensures items[0] in others
  {
    assert items[0] in multiset(items);
  }

  /** Once the first active span reaches `r`, they all do. */
  lemma FirstReaches(items: seq<Item<Range>>, others: multiset<Item<Range>>, r: Range)
    requires IsHeap(items) && multiset(items) == others + multiset{Entry(r)}
    requires items != [] ==> items[0].priority >= r.start
    ensures forall x :: x in others ==> x.priority >= r.start
  {
    forall x | x in others ensures x.priority >= r.start {
      assert x in multiset(items);
      var i :| 0 <= i < |items| && items[i] == x;
      HeadIsLeast(items, i);
    }
  }

  lemma Expires(alloc: seq<Alloc>, reguse: seq<nat>, regno: nat, active: multiset<Item<Range>>, placed: seq<Range>,
                line: nat, x: Item<Range>)
    requires Inv(alloc, reguse, regno, active, placed, line) && x in active && x.priority < line
    ensures x.data.reg < |alloc| && |reguse| == IREGS
    ensures Hosted(alloc, x.data) ==>
              alloc[x.data.reg].num < IREGS && reguse[alloc[x.data.reg].num] == 1 && regno > 0
    ensures Inv(alloc, Freed(alloc, reguse, x), regno - (if Hosted(alloc, x.data) then 1 else 0), active - multiset{x},
                placed, line)
  {
    if Hosted(alloc, x.data) { assert Holds(alloc, active, x, alloc[x.data.reg].num); }
    ExpireActive(alloc, placed, active, line, line, x);
    ExpireOwned(alloc, reguse, active, x);
    ExpireRegisters(alloc, reguse, active, x);
  }
}
