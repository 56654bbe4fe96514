/**
 Block data transfer, LDM and STM (exec_bdt, core/execute.inc.c), on the registers of the
 processor, with the S bit clear or set: set, it means the user's registers, or for an LDM
 of r15 a return from an exception.  Memory is addressed by word.
 */
module BlockTransfer {
  import opened Words
  import opened Banks
  import opened Processor

  const WORDS := 0x4000_0000

  /** Addresses wrap round at 2^32. */
  function Wrap(a: int): (b: nat)
    ensures b < MODULUS
  {
    a % MODULUS
  }

  /** The word an address lies in: its low two bits are ignored. */
  function WordOf(a: nat): (w: nat)
    requires a < MODULUS
    ensures w < WORDS
  {
    a / 4
  }

  type Memory = map<nat, word>

  function Read(m: Memory, w: nat): word {
    if w in m then m[w] else 0
  }

  // ---------- layout ----------

  /** Up or down, before or after: IA, IB, DA and DB. */
  datatype Order = Order(up: bool, pre: bool)

  /** The order whose LDM undoes an STM: the other direction, the other side. */
  function Opposite(o: Order): Order {
    Order(!o.up, !o.pre)
  }

  /** How many registers of the list are below `i`. */
  function Below(list: set<nat>, i: nat): (n: nat)
    ensures n <= i
  {
    if i == 0 then 0 else Below(list, i - 1) + if i - 1 in list then 1 else 0
  }

  function Count(list: set<nat>): (n: nat)
    ensures n <= 16
  {
    Below(list, 16)
  }

  /** The lowest address transferred (before wrapping). */
  function Lowest(base: nat, o: Order, n: nat): int {
    if o.up then base + (if o.pre then 4 else 0) else base - 4 * n + (if o.pre then 0 else 4)
  }

  /** The address of register `i`: four bytes for each listed register below it. */
  function Address(base: nat, o: Order, list: set<nat>, i: nat): (a: nat)
    ensures a < MODULUS
  {
    Wrap(Lowest(base, o, Count(list)) + 4 * Below(list, i))
  }

  /** The base register's new value, if it is written back. */
  function FinalBase(base: nat, o: Order, n: nat): nat {
    Wrap(if o.up then base + 4 * n else base - 4 * n)
  }

  function Slot(base: nat, o: Order, list: set<nat>, i: nat): (w: nat)
    ensures w < WORDS
  {
    WordOf(Address(base, o, list, i))
  }

  lemma WordsWrap(a: int, k: nat)
    ensures WordOf(Wrap(a + 4 * k)) == (WordOf(Wrap(a)) + k) % WORDS
  {
    var q, r := (a + 4 * k) / MODULUS, Wrap(a + 4 * k);
    var q0, r0 := a / MODULUS, Wrap(a);
    assert a + 4 * k == MODULUS * q + r && a == MODULUS * q0 + r0;
    assert r == r0 + 4 * k - MODULUS * (q - q0);
    assert WordOf(r) == WordOf(r0) + k - WORDS * (q - q0);
  }

  lemma {:induction false} BelowGrows(list: set<nat>, i: nat, j: nat)
    requires i < j && i in list
    ensures Below(list, i) < Below(list, j)
  {
    if i < j - 1 { BelowGrows(list, i, j - 1); }
  }

  /** Listed registers go to different words. */
  lemma SlotsDiffer(base: nat, o: Order, list: set<nat>, i: nat, j: nat)
    requires i < 16 && j < 16 && i != j && i in list && j in list
    ensures Slot(base, o, list, i) != Slot(base, o, list, j)
  {
    hide Below, Lowest, WordOf, Wrap;
    var low := Lowest(base, o, Count(list));
    WordsWrap(low, Below(list, i));
    WordsWrap(low, Below(list, j));
    if i < j { BelowGrows(list, i, j); } else { BelowGrows(list, j, i); }
    SmallStepsDiffer(WordOf(Wrap(low)), Below(list, i), Below(list, j));
  }

  lemma SmallStepsDiffer(w: nat, i: nat, j: nat)
    requires w < WORDS && i < 16 && j < 16 && i != j
    ensures (w + i) % WORDS != (w + j) % WORDS
  {
  }

  /** An STM and the opposite LDM from the base it leaves use the same addresses, and return to the first base. */
  lemma OppositeLayout(base: nat, o: Order, list: set<nat>, i: nat)
    requires base < MODULUS
    ensures var base' := FinalBase(base, o, Count(list));
            && Address(base', Opposite(o), list, i) == Address(base, o, list, i)
            && FinalBase(base', Opposite(o), Count(list)) == base
  {
    hide Below, Wrap, Count;
    var n := Count(list);
    WrapSmall(base);
    if o.up {
      WrapTwice(base + 4 * n, -4 * n + (if o.pre then 4 else 0) + 4 * Below(list, i));
      WrapTwice(base + 4 * n, -4 * n);
    } else {
      WrapTwice(base - 4 * n, (if o.pre then 0 else 4) + 4 * Below(list, i));
      WrapTwice(base - 4 * n, 4 * n);
    }
  }

  lemma WrapSmall(a: nat)
    requires a < MODULUS
    ensures Wrap(a) == a
  {
  }

  lemma WrapTwice(a: int, b: int)
    ensures Wrap(Wrap(a) + b) == Wrap(a + b)
  {
    var q := a / MODULUS;
    assert Wrap(a) == a - MODULUS * q;
    ModShift(a + b, -q);
  }

  lemma ModShift(x: int, k: int)
    ensures (x + MODULUS * k) % MODULUS == x % MODULUS
  {
    var q := x / MODULUS;
    assert x + MODULUS * k == MODULUS * (q + k) + x % MODULUS;
  }

  // ---------- what a transfer does ----------

  /** The instruction: order, write-back, base register, register list, and the S bit, which the source calls the hat. */
  datatype Args = Args(o: Order, w: bool, rn: nat, list: set<nat>, hat: bool)

  ghost predicate ValidArgs(x: Args) {
    x.rn < 16 && forall i :: i in x.list ==> i < 16
  }

  /** The word of memory that goes with register `i`. */
  function SlotOf(x: Args, base: word, i: nat): (w: nat)
    ensures w < WORDS
  {
    Slot(Unsigned(base), x.o, x.list, i)
  }

  /** Exactly the listed registers' words hold `values`; the rest of memory is as before. */
  ghost predicate Stored(x: Args, base: word, values: seq<word>, done: set<nat>, before: Memory, after: Memory)
    requires |values| == 16
  {
    && (forall i :: i in done && 0 <= i < 16 ==> Read(after, SlotOf(x, base, i)) == values[i])
    && (forall w :: (forall i :: i in done && 0 <= i < 16 ==> SlotOf(x, base, i) != w) ==> Read(after, w) == Read(before, w))
  }

  /** Exactly the listed registers hold their words of memory. */
  ghost predicate LoadedFrom(x: Args, base: word, done: set<nat>, m: Memory, before: seq<word>, after: seq<word>)
    requires |before| == |after| == 16
  {
    forall i :: 0 <= i < 16 ==> after[i] == if i in done then Read(m, SlotOf(x, base, i)) else before[i]
  }

  /** One more word stored. */
  lemma StoreOne(x: Args, base: word, values: seq<word>, done: set<nat>, before: Memory, after: Memory, i: nat)
    requires |values| == 16 && ValidArgs(x) && done <= x.list && i in x.list && i !in done
    requires Stored(x, base, values, done, before, after)
    ensures Stored(x, base, values, done + {i}, before, after[SlotOf(x, base, i) := values[i]])
  {
    hide Slot;
    var s, m := SlotOf(x, base, i), after[SlotOf(x, base, i) := values[i]];
    forall j | j in done && 0 <= j < 16 ensures SlotOf(x, base, j) != s {
      SlotsDiffer(Unsigned(base), x.o, x.list, i, j);
    }
    forall w | forall j :: j in done + {i} && 0 <= j < 16 ==> SlotOf(x, base, j) != w
      ensures Read(m, w) == Read(before, w)
    {
      assert i in done + {i};
      assert forall j :: j in done && 0 <= j < 16 ==> j in done + {i};
    }
  }

  /** The values an STM stores: r15 as the source reads it. */
  function Values(r: seq<word>, pcstore: word): (v: seq<word>)
    requires |r| == 16
    ensures |v| == 16
  {
    r[15 := pcstore]
  }

  /** The base register's new value. */
  ghost function NewBase(x: Args, base: word): (w: word)
    ensures Unsigned(w) == FinalBase(Unsigned(base), x.o, Count(x.list))
  {
    WordFor(FinalBase(Unsigned(base), x.o, Count(x.list)))
  }

  /** Register `i` after the transfer and the write-back, which wins over a load. */
  ghost function Transferred(x: Args, load: bool, base: word, m: Memory, r: seq<word>, i: nat): word
    requires |r| == 16 && i < 16
  {
    if x.w && i == x.rn then NewBase(x, base)
    else if load && i in x.list then Read(m, SlotOf(x, base, i))
    else r[i]
  }

  ghost function AllTransferred(x: Args, load: bool, base: word, m: Memory, r: seq<word>): (q: seq<word>)
    requires |r| == 16
    ensures |q| == 16 && forall i :: 0 <= i < 16 ==> q[i] == Transferred(x, load, base, m, r, i)
  {
    seq(16, i requires 0 <= i < 16 => Transferred(x, load, base, m, r, i))
  }

  /** The hat without a load of r15: the user's registers are meant. */
  predicate OfUser(x: Args, load: bool) {
    x.hat && !(load && 15 in x.list)
  }

  /** The hat with a load of r15: the saved status comes back as well. */
  predicate Returns(x: Args, load: bool) {
    x.hat && load && 15 in x.list
  }

  ghost predicate Ready(x: Args, load: bool, s: State) {
    Valid(s) && ValidArgs(x) && (Returns(x, load) ==> s.spsrCurrent < SPSRS && Accepted(s.spsr[s.spsrCurrent].mode))
  }

  /** What is asked before: a good state and instruction, and for a hatted LDM of r15 a saved status to return to. */
  lemma ReadyExactly(x: Args, load: bool, s: State)
    requires Valid(s) && x.rn < 16 && forall i :: i in x.list ==> i < 16
    ensures !(x.hat && load && 15 in x.list) ==> Ready(x, load, s)
    ensures Ready(x, load, s) ==> Valid(s) && ValidArgs(x)
  {
  }

  /** The state whose live registers move. */
  function Source(x: Args, load: bool, s: State): (u: State)
    requires Valid(s)
    ensures Valid(u)
  {
    if OfUser(x, load) then ToUserBank(s) else s
  }

  /** The state when the registers have moved, before r15 is advanced. */
  ghost function Moved(x: Args, load: bool, s: State, m: Memory): (t: State)
    requires Ready(x, load, s)
    ensures Valid(t)
  {
    var u := Source(x, load, s);
    var v := u.(r := AllTransferred(x, load, s.r[x.rn], m, u.r));
    if OfUser(x, load) then FromUserBank(v)
    else if Returns(x, load) then var saved := v.spsr[v.spsrCurrent]; SwitchMode(v, saved.mode).(cpsr := saved)
    else v
  }

  /** exec_bdt on the registers. */
  ghost function Finished(x: Args, load: bool, s: State, m: Memory): (t: State)
    requires Ready(x, load, s)
    ensures Valid(t)
  {
    var t := Moved(x, load, s, m);
    t.(r := t.r[15 := if load && 15 in x.list then Ahead(t.r[15]) else Onward(t.r[15])])
  }

  /** exec_bdt on memory, for an STM. */
  ghost predicate StoredBy(x: Args, pcstore: word, s: State, before: Memory, after: Memory)
    requires Valid(s) && ValidArgs(x)
  {
    Stored(x, s.r[x.rn], Values(Source(x, false, s).r, pcstore), x.list, before, after)
  }

  // ---------- without the hat ----------

  lemma OppositeSlots(x: Args, base: word, base': word, i: nat)
    requires base' == NewBase(x, base)
    ensures SlotOf(x.(o := Opposite(x.o)), base', i) == SlotOf(x, base, i)
    ensures NewBase(x.(o := Opposite(x.o)), base') == base
  {
    NegativeIsLarge(base);
    OppositeLayout(Unsigned(base), x.o, x.list, i);
    hide Address, FinalBase, Count, Unsigned, WordOf;
    SameValue(NewBase(x.(o := Opposite(x.o)), base'), base);
  }

  /**
   The opposite LDM restores what an STM stored: whatever became of the registers in
   between, each listed one and the base have their old values again.
   */
  lemma RoundTrip(x: Args, pcstore: word, s: State, m: Memory, m1: Memory, s2: State)
    requires Ready(x, false, s) && Valid(s2)
    requires !x.hat && x.w && x.rn !in x.list && x.rn != 15 && 15 !in x.list
    requires StoredBy(x, pcstore, s, m, m1) && s2.r[x.rn] == Finished(x, false, s, m).r[x.rn]
    ensures var s3 := Finished(x.(o := Opposite(x.o)), true, s2, m1);
            && s3.r[x.rn] == s.r[x.rn]
            && forall i :: 0 <= i < 15 && i != x.rn ==> s3.r[i] == if i in x.list then s.r[i] else s2.r[i]
  {
    hide SlotOf, NewBase, Onward;
    var base := s.r[x.rn];
    assert s2.r[x.rn] == NewBase(x, base);
    OppositeSlots(x, base, s2.r[x.rn], 0);
    forall i | 0 <= i < 15 && i in x.list ensures Read(m1, SlotOf(x.(o := Opposite(x.o)), s2.r[x.rn], i)) == s.r[i] {
      OppositeSlots(x, base, s2.r[x.rn], i);
      assert Values(s.r, pcstore)[i] == s.r[i];
    }
  }

  /**
   Without the hat the mode's own registers are transferred: every register of every mode
   that is not live stays, and so do the saved banks and all of the status.
   */
  lemma PlainTransfer(x: Args, load: bool, s: State, m: Memory, k: nat, i: nat)
    requires Ready(x, load, s) && !x.hat && i < 15
    ensures var t, mode, base := Finished(x, load, s, m), s.cpsr.mode, s.r[x.rn];
            && t == s.(r := t.r)
            && t.r[i] == (if x.w && i == x.rn then NewBase(x, base)
                          else if load && i in x.list then Read(m, SlotOf(x, base, i)) else s.r[i])
            && View(t, mode, k, i) == if BankOf(k, i) == BankOf(mode, i) then t.r[i] else View(s, mode, k, i)
  {
    hide View, BankOf, NewBase, SlotOf, Onward, Ahead;
    LiveChanged(s, s.cpsr.mode, Finished(x, load, s, m).r, k, i);
  }

  lemma UserBankPc(s: State, q: seq<word>)
    requires Valid(s) && |q| == 16
    ensures ToUserBank(s).r[15] == s.r[15] && FromUserBank(ToUserBank(s).(r := q)).r[15] == q[15]
  {
    hide View, ToUserBank, FromUserBank, CurrentSpsr;
    assert ToUserBank(s).r[15] == s.r[15] by { ToUserBankPc(s); }
    UserTransferTouchesUserOnly(s, q, USR32, 0);
  }

  lemma ToUserBankPc(s: State)
    requires Valid(s)
    ensures ToUserBank(s).r[15] == s.r[15]
  {
    hide SaveCurrent, RestoreNew, CurrentSpsr;
    SaveKeepsStatus(s, s.cpsr.mode);
    RestoreKeepsStatus(SaveCurrent(s, s.cpsr.mode), USR32);
  }

  /** What arrives in r15 before it is advanced. */
  lemma MovedPc(x: Args, load: bool, s: State, m: Memory)
    requires Ready(x, load, s)
    ensures Moved(x, load, s, m).r[15] == Transferred(x, load, s.r[x.rn], m, s.r, 15)
  {
    hide Ready, ToUserBank, FromUserBank, SwitchMode, Transferred, CurrentSpsr;
    assert Ready(x, load, s) ==> Valid(s) && x.rn < 16 && (Returns(x, load) ==>
             s.spsrCurrent < SPSRS && Accepted(s.spsr[s.spsrCurrent].mode)) by { ReadyParts(x, load, s); }
    var q := AllTransferred(x, load, s.r[x.rn], m, Source(x, load, s).r);
    UserBankPc(s, q);
    SamePc(x, load, s.r[x.rn], m, s.r, ToUserBank(s).r);
    if Returns(x, load) { SwitchKeepsStatus(s.(r := q), s.spsr[s.spsrCurrent].mode); }
  }

  lemma ReadyParts(x: Args, load: bool, s: State)
    requires Ready(x, load, s)
    ensures Valid(s) && x.rn < 16
    ensures Returns(x, load) ==> s.spsrCurrent < SPSRS && Accepted(s.spsr[s.spsrCurrent].mode)
  {
  }

  lemma SamePc(x: Args, load: bool, base: word, m: Memory, r: seq<word>, r': seq<word>)
    requires |r| == |r'| == 16 && r[15] == r'[15]
    ensures Transferred(x, load, base, m, r, 15) == Transferred(x, load, base, m, r', 15)
  {
    hide NewBase, SlotOf;
  }

  lemma FinishedPc(x: Args, load: bool, s: State, m: Memory)
    requires Ready(x, load, s)
    ensures var pc := Moved(x, load, s, m).r[15];
            Finished(x, load, s, m).r[15] == if load && 15 in x.list then Ahead(pc) else Onward(pc)
  {
    hide Moved, Ready, Onward, Ahead;
  }

  lemma Advanced(pc: word)
    ensures Ahead(pc) == pc + 8 && Onward(pc) == pc + 4
  {
  }

  /** In every case r15 ends one instruction on, or two after what was loaded into it. */
  lemma PcAfter(x: Args, load: bool, s: State, m: Memory)
    requires Ready(x, load, s)
    ensures Valid(s) && x.rn < 16
    ensures var pc := Transferred(x, load, s.r[x.rn], m, s.r, 15);
            Finished(x, load, s, m).r[15] == if load && 15 in x.list then pc + 8 else pc + 4
  {
    ReadyParts(x, load, s);
    hide *;
    FinishedPc(x, load, s, m);
    MovedPc(x, load, s, m);
    Advanced(Transferred(x, load, s.r[x.rn], m, s.r, 15));
  }

  // ---------- with the hat ----------

  /** With the hat the registers a user program sees end as the transfer leaves what the user bank held. */
  lemma HattedValues(x: Args, load: bool, s: State, m: Memory, k: nat, i: nat)
    requires Ready(x, load, s) && x.hat && !(load && 15 in x.list) && i < 15
    ensures var t, mode := Finished(x, load, s, m), s.cpsr.mode;
            && t.cpsr == s.cpsr && t.spsr == s.spsr && t.spsrCurrent == CurrentSpsr(mode)
            && View(t, mode, k, i) ==
               if BankOf(k, i) != BankOf(USR32, i) then View(s, mode, k, i)
               else Transferred(x, load, s.r[x.rn], m, ToUserBank(s).r, i)
  {
    hide ToUserBank, FromUserBank, View, BankOf, NewBase, SlotOf, Onward, CurrentSpsr;
    var q := AllTransferred(x, load, s.r[x.rn], m, ToUserBank(s).r);
    UserTransferTouchesUserOnly(s, q, k, i);
    PcAdvanceUnseen(FromUserBank(ToUserBank(s).(r := q)), s.cpsr.mode, k, i, Onward(q[15]));
  }

  /** What LDM and STM of user registers are to do to register `i` of mode `k`. */
  ghost function HattedView(x: Args, load: bool, s: State, m: Memory, k: nat, i: nat): word
    requires Ready(x, load, s) && i < 15
  {
    var mode, base := s.cpsr.mode, s.r[x.rn];
    if BankOf(k, i) != BankOf(USR32, i) then View(s, mode, k, i)
    else if x.w && i == x.rn then NewBase(x, base)
    else if load && i in x.list then Read(m, SlotOf(x, base, i))
    else View(s, mode, USR32, i)
  }

  /**
   What LDM and STM of user registers do: the registers a user program sees are transferred, the
   base's write-back among them; every other register of every mode, and the status, stays.
   */
  lemma HattedTransfer(x: Args, load: bool, s: State, m: Memory, k: nat, i: nat)
    requires Ready(x, load, s) && x.hat && !(load && 15 in x.list) && UserHeld(s) && i < 15
    ensures var t := Finished(x, load, s, m);
            && t.cpsr == s.cpsr && t.spsr == s.spsr && t.spsrCurrent == CurrentSpsr(s.cpsr.mode)
            && View(t, s.cpsr.mode, k, i) == HattedView(x, load, s, m, k, i)
  {
    hide ToUserBank, Finished, View, BankOf, NewBase, SlotOf, CurrentSpsr, UserHeld;
    HattedValues(x, load, s, m, k, i);
    UserBankIsLive(s, i);
  }

  /** Exactly when it does: in a mode without a case, when the user bank holds what is not transferred. */
  lemma HattedTransferExactly(x: Args, load: bool, s: State, m: Memory)
    requires Ready(x, load, s) && x.hat && !(load && 15 in x.list)
    ensures (forall k: nat, i: nat :: i < 15 ==>
               View(Finished(x, load, s, m), s.cpsr.mode, k, i) == HattedView(x, load, s, m, k, i))
       <==> Known(s.cpsr.mode) || forall i :: 8 <= i < 15 && !(x.w && i == x.rn) && !(load && i in x.list)
                                    ==> s.usr[i - 8] == s.r[i]
  {
    hide ToUserBank, Finished, View, NewBase, SlotOf, CurrentSpsr;
    forall k: nat, i: nat | i < 15
      ensures View(Finished(x, load, s, m), s.cpsr.mode, k, i) == HattedView(x, load, s, m, k, i)
         <==> Known(s.cpsr.mode) || BankOf(k, i) != BankOf(USR32, i) || (x.w && i == x.rn) || (load && i in x.list)
              || i < 8 || s.usr[i - 8] == s.r[i]
    {
      HattedValues(x, load, s, m, k, i);
      UserBankRegister(s, i);
    }
    if forall k: nat, i: nat :: i < 15 ==>
         View(Finished(x, load, s, m), s.cpsr.mode, k, i) == HattedView(x, load, s, m, k, i) {
      forall i | 8 <= i < 15 && !(x.w && i == x.rn) && !(load && i in x.list)
        ensures Known(s.cpsr.mode) || s.usr[i - 8] == s.r[i]
      {
        assert View(Finished(x, load, s, m), s.cpsr.mode, USR32, i) == HattedView(x, load, s, m, USR32, i);
      }
    }
  }

  lemma PcAdvanceUnseen(s: State, live: nat, k: nat, i: nat, pc: word)
    requires Valid(s) && i < 15
    ensures View(s.(r := s.r[15 := pc]), live, k, i) == View(s, live, k, i)
  {
    hide BankOf;
    LiveChanged(s, live, s.r[15 := pc], k, i);
  }

  /** STM of user registers stores what a user program sees. */
  lemma HattedStore(x: Args, pcstore: word, s: State, before: Memory, after: Memory, i: nat)
    requires Ready(x, false, s) && x.hat && UserHeld(s) && StoredBy(x, pcstore, s, before, after)
    requires i < 15 && i in x.list
    ensures Read(after, SlotOf(x, s.r[x.rn], i)) == View(s, s.cpsr.mode, USR32, i)
  {
    hide ToUserBank, View, SlotOf;
    UserBankIsLive(s, i);
    assert Values(ToUserBank(s).r, pcstore)[i] == ToUserBank(s).r[i];
  }

  /**
   Saving a user program's registers and loading them back, perhaps from another mode and after
   anything in between: each listed user register returns, and nothing else changes.
   */
  lemma UserContextReturns(x: Args, y: Args, pcstore: word, s: State, m: Memory, m1: Memory, s2: State, k: nat, i: nat)
    requires Ready(x, false, s) && x.hat && UserHeld(s) && StoredBy(x, pcstore, s, m, m1)
    requires Ready(y, true, s2) && y.hat && 15 !in y.list && UserHeld(s2)
    requires y.list == x.list && y.o == x.o && s2.r[y.rn] == s.r[x.rn] && !y.w && i < 15
    ensures View(Finished(y, true, s2, m1), s2.cpsr.mode, k, i) ==
            if i in x.list && BankOf(k, i) == BankOf(USR32, i) then View(s, s.cpsr.mode, USR32, i)
            else View(s2, s2.cpsr.mode, k, i)
  {
    hide View, BankOf, Finished, Moved;
    HattedTransfer(y, true, s2, m1, k, i);
    assert SlotOf(y, s2.r[y.rn], i) == SlotOf(x, s.r[x.rn], i);
    if i in x.list { HattedStore(x, pcstore, s, m, m1, i); }
    if BankOf(k, i) == BankOf(USR32, i) { SameView(s2, k, i); }
  }

  lemma SameView(s: State, k: nat, i: nat)
    requires Valid(s) && i < 15 && BankOf(k, i) == BankOf(USR32, i)
    ensures View(s, s.cpsr.mode, k, i) == View(s, s.cpsr.mode, USR32, i)
  {
  }

  /**
   The base is read from the mode's own register but written back to the user's: exactly when
   the two are one, or nothing was to change, does the mode's register get its new value.
   */
  lemma WritebackReachesBaseExactly(x: Args, load: bool, s: State, m: Memory)
    requires Ready(x, load, s) && x.hat && !(load && 15 in x.list) && x.w && x.rn < 15
    ensures var mode, base := s.cpsr.mode, s.r[x.rn];
            (View(Finished(x, load, s, m), mode, mode, x.rn) == NewBase(x, base)
             <==> BankOf(mode, x.rn) == BankOf(USR32, x.rn) || NewBase(x, base) == base)
            && View(Finished(x, load, s, m), mode, USR32, x.rn) == NewBase(x, base)
  {
    hide Finished, Moved, BankOf, NewBase;
    HattedValues(x, load, s, m, s.cpsr.mode, x.rn);
    HattedValues(x, load, s, m, USR32, x.rn);
  }

  /** A write-back changes nothing exactly when the list is empty. */
  lemma BaseStaysExactly(x: Args, base: word)
    ensures NewBase(x, base) == base <==> Count(x.list) == 0
  {
    hide Unsigned, Count;
    NegativeIsLarge(base);
    var n := Count(x.list);
    assert n <= 16;
    if NewBase(x, base) == base {
      assert Unsigned(NewBase(x, base)) == Unsigned(base);
    } else if n == 0 {
      SameValue(NewBase(x, base), base);
    }
  }

  /** LDM with the hat and r15 in its list: the mode's registers are loaded, and the saved status comes back. */
  lemma HattedReturn(x: Args, s: State, m: Memory, k: nat, i: nat)
    requires Ready(x, true, s) && x.hat && 15 in x.list && i < 15
    requires Keeps(s.(r := AllTransferred(x, true, s.r[x.rn], m, s.r)), s.spsr[s.spsrCurrent].mode)
    ensures var t, mode, base := Finished(x, true, s, m), s.cpsr.mode, s.r[x.rn];
            && t.cpsr == s.spsr[s.spsrCurrent] && ((x.w && x.rn == 15) || t.r[15] == Ahead(Read(m, SlotOf(x, base, 15))))
            && View(t, t.cpsr.mode, k, i) ==
               if BankOf(k, i) == BankOf(mode, i) then Transferred(x, true, base, m, s.r, i) else View(s, mode, k, i)
  {
    hide SwitchMode, View, BankOf, NewBase, SlotOf, Ahead, CurrentSpsr, Keeps;
    var q := AllTransferred(x, true, s.r[x.rn], m, s.r);
    var v := s.(r := q);
    var saved := s.spsr[s.spsrCurrent];
    LiveChanged(s, s.cpsr.mode, q, k, i);
    SwitchKeepsStatus(v, saved.mode);
    SwitchKeepsExactly(v, saved.mode);
    var w := SwitchMode(v, saved.mode);
    assert View(w, saved.mode, k, i) == View(v, s.cpsr.mode, k, i);
    StatusUnseen(w, saved.mode, saved, k, i);
    PcAdvanceUnseen(w.(cpsr := saved), saved.mode, k, i, Ahead(w.r[15]));
  }

  lemma StatusUnseen(s: State, live: nat, cpsr: Psr, k: nat, i: nat)
    requires Valid(s) && i < 15
    ensures View(s.(cpsr := cpsr), live, k, i) == View(s, live, k, i)
  {
    hide BankOf;
  }

  // ---------- the instruction ----------

  /** The listed registers below `i`, and from `i` on. */
  function Lower(list: set<nat>, i: nat): set<nat> {
    set j | j in list && j < i
  }

  function Upper(list: set<nat>, i: nat): set<nat> {
    set j | j in list && j >= i
  }

  /** Where the base stands when the registers below `i` (going up) or from `i` on (going down) are done. */
  function BaseAt(x: Args, base: nat, i: nat): nat {
    Wrap(if x.o.up then base + 4 * Below(x.list, i) else base - 4 * (Count(x.list) - Below(x.list, i)))
  }

  lemma WrapStep(a: int)
    ensures Wrap(Wrap(a) + 4) == Wrap(a + 4) && Wrap(Wrap(a) - 4) == Wrap(a - 4)
  {
    WrapTwice(a, 4);
    WrapTwice(a, -4);
  }

  /** The address used for a listed register, and the base after it. */
  lemma StepUp(x: Args, base: nat, i: nat)
    requires x.o.up && i in x.list
    ensures Address(base, x.o, x.list, i) == if x.o.pre then Wrap(BaseAt(x, base, i) + 4) else BaseAt(x, base, i)
    ensures BaseAt(x, base, i + 1) == Wrap(BaseAt(x, base, i) + 4)
  {
    hide Wrap;
    WrapStep(base + 4 * Below(x.list, i));
  }

  lemma StepDown(x: Args, base: nat, i: nat)
    requires !x.o.up && i in x.list
    ensures Address(base, x.o, x.list, i) == if x.o.pre then Wrap(BaseAt(x, base, i + 1) - 4) else BaseAt(x, base, i + 1)
    ensures BaseAt(x, base, i) == Wrap(BaseAt(x, base, i + 1) - 4)
  {
    hide Wrap, Count;
    WrapStep(base - 4 * (Count(x.list) - Below(x.list, i + 1)));
  }

  class Machine {
    const reg: RegisterInfo
    var memory: Memory

    ghost predicate Ok()
      reads reg, reg.r
    {
      reg.Ok()
    }

    constructor (reg: RegisterInfo, m: Memory)
      requires reg.Ok()
      ensures this.reg == reg && memory == m && Ok()
    {
      this.reg := reg;
      memory := m;
    }

    /** How far a transfer has come. */
    ghost predicate Progress(x: Args, load: bool, base: word, pcstore: word, done: set<nat>, regs: seq<word>, m: Memory)
      requires reg.r.Length == 16 && |regs| == 16
      reads this, reg.r
    {
      if load then memory == m && LoadedFrom(x, base, done, m, regs, reg.r[..])
      else reg.r[..] == regs && Stored(x, base, Values(regs, pcstore), done, m, memory)
    }

    lemma NothingDone(x: Args, load: bool, base: word, pcstore: word)
      requires reg.r.Length == 16
      ensures Progress(x, load, base, pcstore, {}, reg.r[..], memory)
    {
    }

    /** TRANSFER and PCTRANSFER: one register, at an address. */
    method Transfer(i: nat, address: word, load: bool, pcstore: word, ghost x: Args, ghost base: word, ghost done: set<nat>,
                    ghost regs: seq<word>, ghost m: Memory)
      requires reg.r.Length == 16 && |regs| == 16 && ValidArgs(x) && i in x.list && i !in done && done <= x.list
      requires Unsigned(address) == Address(Unsigned(base), x.o, x.list, i)
      requires Progress(x, load, base, pcstore, done, regs, m)
      modifies this`memory, reg.r
      ensures Progress(x, load, base, pcstore, done + {i}, regs, m)
    {
      hide Address, Unsigned;
      if load {
        reg.r[i] := Read(memory, WordOf(Unsigned(address)));
      } else {
        StoreOne(x, base, Values(regs, pcstore), done, m, memory, i);
        memory := memory[WordOf(Unsigned(address)) := if i == 15 then pcstore else reg.r[i]];
      }
    }

    /** Registers upwards in memory. */
    method TransferUp(x: Args, load: bool, start: word, pcstore: word) returns (base: word)
      requires reg.r.Length == 16 && ValidArgs(x) && x.o.up
      modifies this`memory, reg.r
      ensures Progress(x, load, start, pcstore, x.list, old(reg.r[..]), old(memory))
      ensures Unsigned(base) == BaseAt(x, Unsigned(start), 16)
    {
      hide Wrap, Below, Progress, Address, BaseAt, Unsigned, Add;
      base := start;
      NothingDone(x, load, start, pcstore);
      NothingBelow(x, start);
      assert Lower(x.list, 0) == {};
      for i := 0 to 16
        invariant Unsigned(base) == BaseAt(x, Unsigned(start), i)
        invariant Progress(x, load, start, pcstore, Lower(x.list, i), old(reg.r[..]), old(memory))
      {
        assert Lower(x.list, i + 1) == if i in x.list then Lower(x.list, i) + {i} else Lower(x.list, i);
        if i in x.list {
          StepUp(x, Unsigned(start), i);
          FourOn(base);
          if x.o.pre { base := Add(base, 4); }
          Transfer(i, base, load, pcstore, x, start, Lower(x.list, i), old(reg.r[..]), old(memory));
          if !x.o.pre { base := Add(base, 4); }
        } else {
          NoStep(x, Unsigned(start), i);
        }
      }
      assert Lower(x.list, 16) == x.list;
    }

    /** Registers downwards in memory, the highest first. */
    method TransferDown(x: Args, load: bool, start: word, pcstore: word) returns (base: word)
      requires reg.r.Length == 16 && ValidArgs(x) && !x.o.up
      modifies this`memory, reg.r
      ensures Progress(x, load, start, pcstore, x.list, old(reg.r[..]), old(memory))
      ensures Unsigned(base) == BaseAt(x, Unsigned(start), 0)
    {
      hide Wrap, Below, Progress, Address, BaseAt, Unsigned, Sub;
      base := start;
      NothingDone(x, load, start, pcstore);
      NothingBelow(x, start);
      assert Upper(x.list, 16) == {};
      for i := 16 downto 0
        invariant Unsigned(base) == BaseAt(x, Unsigned(start), i)
        invariant Progress(x, load, start, pcstore, Upper(x.list, i), old(reg.r[..]), old(memory))
      {
        assert Upper(x.list, i) == if i in x.list then Upper(x.list, i + 1) + {i} else Upper(x.list, i + 1);
        if i in x.list {
          StepDown(x, Unsigned(start), i);
          FourBack(base);
          if x.o.pre { base := Sub(base, 4); }
          Transfer(i, base, load, pcstore, x, start, Upper(x.list, i + 1), old(reg.r[..]), old(memory));
          if !x.o.pre { base := Sub(base, 4); }
        } else {
          NoStep(x, Unsigned(start), i);
        }
      }
      assert Upper(x.list, 0) == x.list;
    }

    /** The registers one way or the other, and the write-back. */
    method MoveAll(x: Args, load: bool, start: word, pcstore: word)
      requires reg.r.Length == 16 && ValidArgs(x)
      modifies this`memory, reg.r
      ensures reg.r[..] == AllTransferred(x, load, start, old(memory), old(reg.r[..]))
      ensures load ==> memory == old(memory)
      ensures !load ==> Stored(x, start, Values(old(reg.r[..]), pcstore), x.list, old(memory), memory)
    {
      hide BaseAt, Unsigned, Stored, SlotOf, Values;
      NothingBelow(x, start);
      var base;
      if x.o.up {
        base := TransferUp(x, load, start, pcstore);
      } else {
        base := TransferDown(x, load, start, pcstore);
      }
      SameValue(base, NewBase(x, start));
      if x.w { reg.r[x.rn] := base; }
      assert forall i :: 0 <= i < 16 ==> reg.r[i] == Transferred(x, load, start, old(memory), old(reg.r[..]), i);
    }

    /** exec_bdt. */
    method Bdt(x: Args, load: bool, pcstore: word)
      requires Ok() && Ready(x, load, reg.State())
      modifies this`memory, reg, reg.r
      ensures Ok() && reg.State() == Finished(x, load, old(reg.State()), old(memory))
      ensures load ==> memory == old(memory)
      ensures !load ==> StoredBy(x, pcstore, old(reg.State()), old(memory), memory)
    {
      hide SaveCurrent, RestoreNew, SwitchMode, BaseAt, Unsigned, Ahead, Onward;
      var start, originalmode := reg.r[x.rn], reg.cpsr.mode;
      if x.hat && !(load && 15 in x.list) {
        reg.RegSaveCurrent(originalmode);
        reg.RegRestoreNew(USR32);
      }
      MoveAll(x, load, start, pcstore);
      if x.hat && !(load && 15 in x.list) {
        reg.RegSaveCurrent(USR32);
        reg.RegRestoreNew(originalmode);
      }
      if x.hat && load && 15 in x.list {
        var oldspsr := reg.spsr[reg.spsrCurrent];
        reg.Mode(oldspsr.mode);
        reg.cpsr := oldspsr;
      }
      reg.r[15] := if load && 15 in x.list then Ahead(reg.r[15]) else Onward(reg.r[15]);
    }
  }

  lemma FourOn(w: word)
    ensures Unsigned(Add(w, 4)) == Wrap(Unsigned(w) + 4)
  {
    hide Unsigned, Add;
    AddWraps(w, 4);
    SmallValues();
    NegativeIsLarge(w);
    NegativeIsLarge(Add(w, 4));
  }

  lemma FourBack(w: word)
    ensures Unsigned(Sub(w, 4)) == Wrap(Unsigned(w) - 4)
  {
    hide Unsigned, Sub;
    SubWraps(w, 4);
    SmallValues();
    NegativeIsLarge(w);
    NegativeIsLarge(Sub(w, 4));
  }

  lemma NothingBelow(x: Args, start: word)
    ensures BaseAt(x, Unsigned(start), if x.o.up then 0 else 16) == Unsigned(start)
    ensures BaseAt(x, Unsigned(start), if x.o.up then 16 else 0) == FinalBase(Unsigned(start), x.o, Count(x.list))
  {
    hide Below, Unsigned;
    NegativeIsLarge(start);
    NoneBelowZero(x.list);
  }

  lemma NoneBelowZero(list: set<nat>)
    ensures Below(list, 0) == 0
  {
  }

  lemma NoStep(x: Args, base: nat, i: nat)
    requires i !in x.list
    ensures BaseAt(x, base, i + 1) == BaseAt(x, base, i)
  {
    hide Wrap, Count;
  }
}
