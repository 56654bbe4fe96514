/**
 Processor modes and banked registers (core/processor.c).  The live registers and the six
 saved banks together stand for one flat file with a register for each bank; a switch between
 modes that have a case only moves values between the two, and never changes the file.
 */
module Banks {
  import opened Words

  // ---------- modes ----------

  const USR26 := 0
  const FIQ26 := 1
  const IRQ26 := 2
  const SVC26 := 3
  const USR32 := 16
  const FIQ32 := 17
  const IRQ32 := 18
  const SVC32 := 19
  const ABT32 := 23
  const UND32 := 27
  const SYS32 := 31

  datatype Bank = Common | User | Fiq | Irq | Svc | Abt | Und

  /** The bank whose r13 and r14 a mode sees; modes without one have no case in the source. */
  function OwnBank(mode: nat): Bank {
    if mode == USR32 || mode == USR26 then User
    else if mode == FIQ32 || mode == FIQ26 then Fiq
    else if mode == IRQ32 || mode == IRQ26 then Irq
    else if mode == SVC32 || mode == SVC26 then Svc
    else if mode == ABT32 then Abt
    else if mode == UND32 then Und
    else Common
  }

  predicate Known(mode: nat) {
    OwnBank(mode) != Common
  }

  /** The modes processor_mode lets one switch to, with a case for them or not. */
  predicate Accepted(mode: nat) {
    mode >= 16
  }

  predicate Legal(mode: nat) {
    Known(mode) && Accepted(mode)
  }

  /**
   Which bank register `i` (of r0-r14) comes from in a mode: r8-r12 are shared outside FIQ.  A
   mode without a bank sees the user's registers, as the architecture has it for System mode.
   */
  function BankOf(mode: nat, i: nat): Bank {
    if i < 8 then Common
    else if (i < 13 && OwnBank(mode) != Fiq) || !Known(mode) then User
    else OwnBank(mode)
  }

  /** The bank behind each of the processor's mode numbers; every other number has none. */
  lemma ModeNumbers(mode: nat)
    ensures OwnBank(mode) == User <==> mode == 0 || mode == 16
    ensures OwnBank(mode) == Fiq <==> mode == 1 || mode == 17
    ensures OwnBank(mode) == Irq <==> mode == 2 || mode == 18
    ensures OwnBank(mode) == Svc <==> mode == 3 || mode == 19
    ensures OwnBank(mode) == Abt <==> mode == 23
    ensures OwnBank(mode) == Und <==> mode == 27
    ensures USR32 == 16 && FIQ32 == 17 && IRQ32 == 18 && SVC32 == 19 && SYS32 == 31 && !Known(SYS32)
  {
  }

  // ---------- registers ----------

  /** A program status register; `rest` holds the bits that no code here looks at. */
  datatype Psr = Psr(mode: nat, irqOff: bool, fiqOff: bool, n: bool, z: bool, c: bool, v: bool, rest: nat)

  /** Live registers r0-r15, the saved banks, and the status registers. */
  datatype State = State(r: seq<word>, usr: seq<word>, fiq: seq<word>, irq: seq<word>, svc: seq<word>, abt: seq<word>,
                         und: seq<word>, pcmask: word, cpsr: Psr, spsr: seq<Psr>, spsrCurrent: nat, vectorbase: word)

  const SPSRS := 5

  ghost predicate Valid(s: State) {
    && |s.r| == 16 && |s.usr| == 7 && |s.fiq| == 7 && |s.irq| == 2 && |s.svc| == 2 && |s.abt| == 2 && |s.und| == 2
    && |s.spsr| == SPSRS
  }

  /** The saved copy of register `i` in a bank. */
  function Saved(s: State, b: Bank, i: nat): word
    requires Valid(s) && i < 15 && b != Common && (i >= 13 || ((b == User || b == Fiq) && i >= 8))
  {
    match b
    case User => s.usr[i - 8]
    case Fiq => s.fiq[i - 8]
    case Irq => s.irq[i - 13]
    case Svc => s.svc[i - 13]
    case Abt => s.abt[i - 13]
    case Und => s.und[i - 13]
  }

  /** Register `i` as mode `m` sees it while the processor is in mode `live`. */
  function View(s: State, live: nat, m: nat, i: nat): word
    requires Valid(s) && i < 15
  {
    if BankOf(m, i) == BankOf(live, i) then s.r[i] else Saved(s, BankOf(m, i), i)
  }

  // ---------- saving and restoring ----------

  /** Replace the tail of `live` from `at` by a bank. */
  function Load(live: seq<word>, at: nat, bank: seq<word>): seq<word>
    requires at + |bank| <= |live|
  {
    live[..at] + bank + live[at + |bank|..]
  }

  lemma LoadAt(live: seq<word>, at: nat, bank: seq<word>, i: nat)
    requires at + |bank| <= |live| && i < |live|
    ensures |Load(live, at, bank)| == |live|
    ensures Load(live, at, bank)[i] == if at <= i < at + |bank| then bank[i - at] else live[i]
  {
  }

  /** Replace the first `count` registers of a bank by the live ones from `at`. */
  function Kept(live: seq<word>, at: nat, bank: seq<word>, count: nat): (b: seq<word>)
    requires at + count <= |live| && count <= |bank|
    ensures |b| == |bank|
  {
    live[at..at + count] + bank[count..]
  }

  /** processor_reg_savecurrent. */
  function SaveCurrent(s: State, mode: nat): (t: State)
    requires Valid(s)
    ensures Valid(t)
  {
    var u := s.(usr := Kept(s.r, 8, s.usr, 5));
    match OwnBank(mode)
    case Common => s
    case User => s.(usr := Kept(s.r, 8, s.usr, 7))
    case Fiq => s.(fiq := Kept(s.r, 8, s.fiq, 7))
    case Irq => u.(irq := Kept(s.r, 13, s.irq, 2))
    case Svc => u.(svc := Kept(s.r, 13, s.svc, 2))
    case Abt => u.(abt := Kept(s.r, 13, s.abt, 2))
    case Und => u.(und := Kept(s.r, 13, s.und, 2))
  }

  /** The index of spsr_current in each mode. */
  function CurrentSpsr(mode: nat): nat {
    match OwnBank(mode)
    case Common => 0
    case User => 0
    case Fiq => 1
    case Irq => 2
    case Svc => 3
    case Abt => 4
    case Und => 5
  }

  /** processor_reg_restorenew. */
  function RestoreNew(s: State, mode: nat): (t: State)
    requires Valid(s)
    ensures Valid(t)
  {
    var low := Load(s.r, 8, s.usr[..5]);
    var u := s.(pcmask := if OwnBank(mode) == User then 0x0c00_0003 else 0, spsrCurrent := CurrentSpsr(mode));
    match OwnBank(mode)
    case Common => s
    case User => u.(r := Load(s.r, 8, s.usr))
    case Fiq => u.(r := Load(s.r, 8, s.fiq))
    case Irq => u.(r := Load(low, 13, s.irq))
    case Svc => u.(r := Load(low, 13, s.svc))
    case Abt => u.(r := Load(low, 13, s.abt))
    case Und => u.(r := Load(low, 13, s.und))
  }

  /** processor_mode, from the mode the processor is in. */
  function SwitchMode(s: State, mode: nat): (t: State)
    requires Valid(s) && Accepted(mode)
    ensures Valid(t)
  {
    var t := RestoreNew(SaveCurrent(s, s.cpsr.mode), mode);
    t.(cpsr := t.cpsr.(mode := mode))
  }

  // ---------- a switch changes no register ----------

  lemma SaveKeepsLive(s: State, mode: nat)
    requires Valid(s)
    ensures SaveCurrent(s, mode).r == s.r && SaveCurrent(s, mode).cpsr == s.cpsr
  {
  }

  /** After saving, the bank holds what every mode should see, live or not. */
  lemma SavedView(s: State, live: nat, m: nat, i: nat)
    requires Valid(s) && Known(live) && i < 15 && BankOf(m, i) != Common
    ensures Saved(SaveCurrent(s, live), BankOf(m, i), i) == View(s, live, m, i)
  {
  }

  lemma RestoredLive(s: State, mode: nat, i: nat)
    requires Valid(s) && Known(mode) && i < 15
    ensures RestoreNew(s, mode).r[i] == if BankOf(mode, i) == Common then s.r[i] else Saved(s, BankOf(mode, i), i)
  {
    hide Load;
    LoadAt(s.r, 8, s.usr[..5], i);
    var low := Load(s.r, 8, s.usr[..5]);
    match OwnBank(mode)
    case Common =>
    case User => LoadAt(s.r, 8, s.usr, i);
    case Fiq => LoadAt(s.r, 8, s.fiq, i);
    case Irq => LoadAt(low, 13, s.irq, i);
    case Svc => LoadAt(low, 13, s.svc, i);
    case Abt => LoadAt(low, 13, s.abt, i);
    case Und => LoadAt(low, 13, s.und, i);
  }

  lemma RestoredSaved(s: State, mode: nat, b: Bank, i: nat)
    requires Valid(s) && i < 15 && b != Common && (i >= 13 || ((b == User || b == Fiq) && i >= 8))
    ensures Saved(RestoreNew(s, mode), b, i) == Saved(s, b, i)
  {
  }

  /** Saving in one mode and restoring in another leaves every register of every mode as it was. */
  lemma MovingKeepsView(s: State, live: nat, mode: nat, m: nat, i: nat)
    requires Valid(s) && Known(live) && Known(mode) && i < 15
    ensures View(RestoreNew(SaveCurrent(s, live), mode), mode, m, i) == View(s, live, m, i)
  {
    hide SaveCurrent, RestoreNew, Saved;
    var u := SaveCurrent(s, live);
    SaveKeepsLive(s, live);
    RestoredLive(u, mode, i);
    if BankOf(m, i) != Common {
      SavedView(s, live, m, i);
      RestoredSaved(u, mode, BankOf(m, i), i);
    }
  }

  /** A mode switch keeps every register of every mode, and the program counter. */
  lemma SwitchKeepsView(s: State, mode: nat, m: nat, i: nat)
    requires Valid(s) && Known(s.cpsr.mode) && Legal(mode) && i < 15
    ensures View(SwitchMode(s, mode), mode, m, i) == View(s, s.cpsr.mode, m, i)
  {
    hide SaveCurrent, RestoreNew, Saved;
    MovingKeepsView(s, s.cpsr.mode, mode, m, i);
    ViewIgnoresStatus(RestoreNew(SaveCurrent(s, s.cpsr.mode), mode), mode, m, i, mode);
  }

  lemma ViewIgnoresStatus(s: State, live: nat, m: nat, i: nat, mode: nat)
    requires Valid(s) && i < 15
    ensures View(s.(cpsr := s.cpsr.(mode := mode)), live, m, i) == View(s, live, m, i)
  {
  }

  /** Every register of every mode is as it was. */
  ghost predicate SameRegisterFile(s: State, t: State)
    requires Valid(s) && Valid(t)
  {
    forall m: nat, i :: 0 <= i < 15 ==> View(t, t.cpsr.mode, m, i) == View(s, s.cpsr.mode, m, i)
  }

  /**
   When a switch keeps every register: both modes have a case; or the new one has none and the
   live registers are the user's already; or the old one has none and the user bank holds the
   live registers.
   */
  ghost predicate Keeps(s: State, mode: nat)
    requires Valid(s)
  {
    if Known(mode) then Known(s.cpsr.mode) || forall i :: 8 <= i < 15 ==> s.usr[i - 8] == s.r[i]
    else forall i :: 8 <= i < 15 ==> View(s, s.cpsr.mode, USR32, i) == s.r[i]
  }

  /** After restoring a mode with a case, registers come from their banks. */
  lemma RestoredView(s: State, mode: nat, m: nat, i: nat)
    requires Valid(s) && Known(mode) && i < 15
    ensures View(RestoreNew(s, mode), mode, m, i) == if BankOf(m, i) == Common then s.r[i] else Saved(s, BankOf(m, i), i)
  {
    hide RestoreNew, Saved;
    RestoredLive(s, mode, i);
    if BankOf(m, i) != Common {
      RestoredSaved(s, mode, BankOf(m, i), i);
    }
  }

  /** A mode without a case loads nothing. */
  lemma UncasedView(s: State, mode: nat, m: nat, i: nat)
    requires Valid(s) && !Known(mode) && i < 15
    ensures var t := RestoreNew(SaveCurrent(s, s.cpsr.mode), mode);
            View(t, mode, m, i) == if BankOf(m, i) == BankOf(USR32, i) then s.r[i] else View(s, s.cpsr.mode, m, i)
  {
    hide SaveCurrent, Saved, View;
    var live := s.cpsr.mode;
    var t := SaveCurrent(s, live);
    SaveKeepsLive(s, live);
    assert RestoreNew(t, mode) == t;
    UncasedParts(s, t, mode, m, i);
    if Known(live) {
      if BankOf(m, i) != Common { SavedView(s, live, m, i); }
    } else {
      NothingSaved(s, live);
      UncasedParts(s, s, live, m, i);
    }
  }

  lemma UncasedParts(s: State, t: State, mode: nat, m: nat, i: nat)
    requires Valid(s) && Valid(t) && t.r == s.r && !Known(mode) && i < 15
    ensures View(t, mode, m, i) ==
            if BankOf(m, i) == BankOf(USR32, i) then s.r[i] else Saved(t, BankOf(m, i), i)
    ensures BankOf(m, i) != BankOf(USR32, i) ==> BankOf(m, i) != Common
  {
  }

  lemma NothingSaved(s: State, mode: nat)
    requires Valid(s) && !Known(mode)
    ensures SaveCurrent(s, mode) == s
  {
  }

  /** The registers a user program sees settle a switch to or from a mode without a case. */
  lemma UncasedSwitchKeeps(s: State, mode: nat)
    requires Valid(s) && Accepted(mode) && !Known(mode)
    ensures SameRegisterFile(s, SwitchMode(s, mode)) <==> Keeps(s, mode)
  {
    hide RestoreNew, SaveCurrent, View;
    var t := SwitchMode(s, mode);
    var u := RestoreNew(SaveCurrent(s, s.cpsr.mode), mode);
    forall m: nat, i | 0 <= i < 15
      ensures View(t, mode, m, i) == if BankOf(m, i) == BankOf(USR32, i) then s.r[i] else View(s, s.cpsr.mode, m, i)
    {
      UncasedView(s, mode, m, i);
      ViewIgnoresStatus(u, mode, m, i, mode);
    }
    forall m: nat, i | 0 <= i < 15 && BankOf(m, i) == BankOf(USR32, i)
      ensures View(s, s.cpsr.mode, m, i) == View(s, s.cpsr.mode, USR32, i)
      ensures i < 8 ==> View(s, s.cpsr.mode, m, i) == s.r[i]
    {
      SameBankSameView(s, s.cpsr.mode, m, USR32, i);
    }
    if SameRegisterFile(s, t) {
      forall i | 8 <= i < 15 ensures View(s, s.cpsr.mode, USR32, i) == s.r[i] {
        assert View(t, t.cpsr.mode, USR32, i) == View(s, s.cpsr.mode, USR32, i);
      }
    }
  }

  lemma SameBankSameView(s: State, live: nat, m: nat, k: nat, i: nat)
    requires Valid(s) && i < 15 && BankOf(m, i) == BankOf(k, i)
    ensures View(s, live, m, i) == View(s, live, k, i)
    ensures i < 8 ==> View(s, live, m, i) == s.r[i]
  {
  }

  lemma FromUncasedKeeps(s: State, mode: nat)
    requires Valid(s) && Legal(mode) && !Known(s.cpsr.mode)
    ensures SameRegisterFile(s, SwitchMode(s, mode)) <==> Keeps(s, mode)
  {
    hide RestoreNew, SaveCurrent, View, Saved;
    var t, live := SwitchMode(s, mode), s.cpsr.mode;
    NothingSaved(s, live);
    var u := RestoreNew(s, mode);
    forall m: nat, i | 0 <= i < 15
      ensures View(t, mode, m, i) == if BankOf(m, i) == Common then s.r[i] else Saved(s, BankOf(m, i), i)
      ensures View(s, live, m, i) == if BankOf(m, i) == BankOf(USR32, i) then s.r[i] else Saved(s, BankOf(m, i), i)
    {
      RestoredView(s, mode, m, i);
      ViewIgnoresStatus(u, mode, m, i, mode);
      UncasedParts(s, s, live, m, i);
    }
    UserSaved(s);
    if SameRegisterFile(s, t) {
      forall i | 8 <= i < 15 ensures s.usr[i - 8] == s.r[i] {
        assert View(t, t.cpsr.mode, USR32, i) == View(s, live, USR32, i);
      }
    }
  }

  lemma UserSaved(s: State)
    requires Valid(s)
    ensures forall i :: 8 <= i < 15 ==> BankOf(USR32, i) == User && Saved(s, User, i) == s.usr[i - 8]
    ensures forall i :: 0 <= i < 8 ==> BankOf(USR32, i) == Common
  {
  }

  /** Exactly when a mode switch keeps every register of every mode. */
  lemma SwitchKeepsExactly(s: State, mode: nat)
    requires Valid(s) && Accepted(mode)
    ensures SameRegisterFile(s, SwitchMode(s, mode)) <==> Keeps(s, mode)
  {
    if !Known(mode) {
      UncasedSwitchKeeps(s, mode);
    } else if !Known(s.cpsr.mode) {
      FromUncasedKeeps(s, mode);
    } else {
      hide SwitchMode, View;
      SwitchKeepsStatus(s, mode);
      forall m: nat, i | 0 <= i < 15 ensures View(SwitchMode(s, mode), mode, m, i) == View(s, s.cpsr.mode, m, i) {
        SwitchKeepsView(s, mode, m, i);
      }
    }
  }

  /** What saving and restoring leave alone. */
  ghost predicate SameStatus(s: State, t: State)
    requires Valid(s) && Valid(t)
  {
    t.r[15] == s.r[15] && t.spsr == s.spsr && t.vectorbase == s.vectorbase && t.cpsr == s.cpsr
  }

  lemma SaveKeepsStatus(s: State, mode: nat)
    requires Valid(s)
    ensures SameStatus(s, SaveCurrent(s, mode)) && SaveCurrent(s, mode).r == s.r
    ensures SaveCurrent(s, mode).spsrCurrent == s.spsrCurrent
  {
  }

  lemma RestoreKeepsStatus(s: State, mode: nat)
    requires Valid(s) && Known(mode)
    ensures SameStatus(s, RestoreNew(s, mode)) && RestoreNew(s, mode).spsrCurrent == CurrentSpsr(mode)
  {
    hide Load;
    LoadAt(s.r, 8, s.usr[..5], 15);
    var low := Load(s.r, 8, s.usr[..5]);
    match OwnBank(mode)
    case Common =>
    case User => LoadAt(s.r, 8, s.usr, 15);
    case Fiq => LoadAt(s.r, 8, s.fiq, 15);
    case Irq => LoadAt(low, 13, s.irq, 15);
    case Svc => LoadAt(low, 13, s.svc, 15);
    case Abt => LoadAt(low, 13, s.abt, 15);
    case Und => LoadAt(low, 13, s.und, 15);
  }

  lemma NothingRestored(s: State, mode: nat)
    requires Valid(s) && !Known(mode)
    ensures RestoreNew(s, mode) == s
  {
  }

  lemma SwitchKeepsStatus(s: State, mode: nat)
    requires Valid(s) && Accepted(mode)
    ensures var t := SwitchMode(s, mode);
            t.r[15] == s.r[15] && t.spsr == s.spsr && t.vectorbase == s.vectorbase
            && t.cpsr == s.cpsr.(mode := mode)
            && t.spsrCurrent == if Known(mode) then CurrentSpsr(mode) else s.spsrCurrent
  {
    hide SaveCurrent, RestoreNew, CurrentSpsr;
    SaveKeepsStatus(s, s.cpsr.mode);
    if Known(mode) {
      RestoreKeepsStatus(SaveCurrent(s, s.cpsr.mode), mode);
    } else {
      NothingRestored(SaveCurrent(s, s.cpsr.mode), mode);
    }
  }

  // ---------- runs against the flat file ----------

  datatype Op = Write(i: nat, v: word) | Switch(mode: nat)

  predicate LegalOp(op: Op) {
    match op
    case Write(i, _) => i < 15
    case Switch(mode) => Accepted(mode)
  }

  function Step(s: State, op: Op): (t: State)
    requires Valid(s) && LegalOp(op)
    ensures Valid(t)
  {
    match op
    case Write(i, v) => s.(r := s.r[i := v])
    case Switch(mode) => SwitchMode(s, mode)
  }

  function Run(s: State, ops: seq<Op>): (t: State)
    requires Valid(s) && forall k :: 0 <= k < |ops| ==> LegalOp(ops[k])
    ensures Valid(t)
  {
    if ops == [] then s else Step(Run(s, ops[..|ops| - 1]), ops[|ops| - 1])
  }

  /** A register for each bank and number, all at once. */
  type FlatFile = (Bank, nat) -> word

  function ModeAfter(mode: nat, ops: seq<Op>): nat {
    if ops == [] then mode
    else
      var last := ops[|ops| - 1];
      if last.Switch? then last.mode else ModeAfter(mode, ops[..|ops| - 1])
  }

  /** The flat file after a run: a write goes to the current mode's bank, a switch does nothing. */
  function FlatRun(f: FlatFile, mode: nat, ops: seq<Op>): FlatFile {
    if ops == [] then f
    else
      var front, last := ops[..|ops| - 1], ops[|ops| - 1];
      var g := FlatRun(f, mode, front);
      match last
      case Switch(_) => g
      case Write(i, v) => Put(g, BankOf(ModeAfter(mode, front), i), i, v)
  }

  function Put(f: FlatFile, b: Bank, i: nat, v: word): FlatFile {
    (c: Bank, j: nat) => if c == b && j == i then v else f(c, j)
  }

  ghost predicate Represents(s: State, live: nat, f: FlatFile)
    requires Valid(s)
  {
    forall m: nat, i :: 0 <= i < 15 ==> View(s, live, m, i) == f(BankOf(m, i), i)
  }

  /** Every switch of the run keeps the registers. */
  ghost predicate AllKept(s: State, ops: seq<Op>)
    requires Valid(s) && forall k :: 0 <= k < |ops| ==> LegalOp(ops[k])
  {
    ops == [] ||
      var front, last := ops[..|ops| - 1], ops[|ops| - 1];
      AllKept(s, front) && (last.Switch? ==> Keeps(Run(s, front), last.mode))
  }

  lemma WriteView(s: State, live: nat, i: nat, v: word, m: nat, j: nat)
    requires Valid(s) && i < 15 && j < 15
    ensures View(s.(r := s.r[i := v]), live, m, j) ==
            if j == i && BankOf(m, i) == BankOf(live, i) then v else View(s, live, m, j)
  {
    hide BankOf;
  }

  /** Any run whose switches keep the registers does to the flat file what it says. */
  lemma {:induction false} RunsRefineFlatFile(s: State, f: FlatFile, ops: seq<Op>)
    requires Valid(s) && Represents(s, s.cpsr.mode, f)
    requires forall k :: 0 <= k < |ops| ==> LegalOp(ops[k])
    requires AllKept(s, ops)
    ensures Run(s, ops).cpsr.mode == ModeAfter(s.cpsr.mode, ops)
    ensures Represents(Run(s, ops), ModeAfter(s.cpsr.mode, ops), FlatRun(f, s.cpsr.mode, ops))
  {
    hide Represents, Keeps;
    if ops != [] {
      var front, last := ops[..|ops| - 1], ops[|ops| - 1];
      RunsRefineFlatFile(s, f, front);
      StepRefinesExactly(Run(s, front), FlatRun(f, s.cpsr.mode, front), last);
    }
  }

  /** A write does, and a switch does exactly when it keeps the registers. */
  lemma StepRefinesExactly(s: State, f: FlatFile, op: Op)
    requires Valid(s) && Represents(s, s.cpsr.mode, f) && LegalOp(op)
    ensures Step(s, op).cpsr.mode == (if op.Switch? then op.mode else s.cpsr.mode)
    ensures Represents(Step(s, op), Step(s, op).cpsr.mode,
                       if op.Switch? then f else Put(f, BankOf(s.cpsr.mode, op.i), op.i, op.v))
       <==> (op.Switch? ==> Keeps(s, op.mode))
  {
    hide View, SwitchMode, BankOf, Keeps;
    match op
    case Switch(mode) =>
      SwitchKeepsStatus(s, mode);
      SwitchKeepsExactly(s, mode);
    case Write(k, v) =>
      forall m: nat, i | 0 <= i < 15
        ensures View(Step(s, op), s.cpsr.mode, m, i) == Put(f, BankOf(s.cpsr.mode, k), k, v)(BankOf(m, i), i)
      {
        WriteView(s, s.cpsr.mode, k, v, m, i);
      }
  }

  /** Between modes that have a case every switch keeps the registers. */
  lemma {:induction false} CasedRunsAreKept(s: State, ops: seq<Op>)
    requires Valid(s) && Known(s.cpsr.mode) && forall k :: 0 <= k < |ops| ==> LegalOp(ops[k])
    requires forall k :: 0 <= k < |ops| && ops[k].Switch? ==> Known(ops[k].mode)
    ensures AllKept(s, ops) && Known(Run(s, ops).cpsr.mode)
  {
    hide SwitchMode;
    if ops != [] {
      var front, last := ops[..|ops| - 1], ops[|ops| - 1];
      CasedRunsAreKept(s, front);
      if last.Switch? { SwitchKeepsStatus(Run(s, front), last.mode); }
    }
  }

  lemma RunStep(s: State, ops: seq<Op>, op: Op)
    requires Valid(s) && LegalOp(op) && forall k :: 0 <= k < |ops| ==> LegalOp(ops[k])
    ensures Run(s, ops + [op]) == Step(Run(s, ops), op)
    ensures AllKept(s, ops + [op]) <==> AllKept(s, ops) && (op.Switch? ==> Keeps(Run(s, ops), op.mode))
  {
    hide Step, Keeps;
    assert (ops + [op])[..|ops + [op]| - 1] == ops;
  }

  /** Leaving user mode for one without a case saves the user's registers and loads none. */
  lemma UserToUncased(s: State, mode: nat)
    requires Valid(s) && s.cpsr.mode == USR32 && Accepted(mode) && !Known(mode)
    ensures SwitchMode(s, mode).r == s.r && SwitchMode(s, mode).usr == Kept(s.r, 8, s.usr, 7)
    ensures Kept(s.r, 8, s.usr, 7)[5] == s.r[13]
    ensures SwitchMode(s, mode).cpsr.mode == mode
  {
  }

  /** Coming back saves nothing and loads the user's bank. */
  lemma UncasedToUser(s: State)
    requires Valid(s) && !Known(s.cpsr.mode)
    ensures SwitchMode(s, USR32).r[13] == s.usr[5]
  {
    hide Load;
    LoadAt(s.r, 8, s.usr, 13);
  }

  /** Into System mode, a write to r13, and back: the write is lost. */
  lemma SystemModeLosesWrite(s: State, v: word)
    requires Valid(s) && s.cpsr.mode == USR32 && v != s.r[13]
    ensures var ops := [Switch(SYS32), Write(13, v), Switch(USR32)];
            && (forall k :: 0 <= k < |ops| ==> LegalOp(ops[k])) && BankOf(SYS32, 13) == BankOf(USR32, 13)
            && View(Run(s, ops), USR32, USR32, 13) == s.r[13] && !AllKept(s, ops)
  {
    hide SwitchMode, Run, AllKept, Kept;
    var enter, write, leave := Switch(SYS32), Write(13, v), Switch(USR32);
    RunStep(s, [], enter);
    RunStep(s, [enter], write);
    RunStep(s, [enter, write], leave);
    assert [] + [enter] == [enter] && [enter] + [write] == [enter, write];
    assert [enter, write] + [leave] == [enter, write, leave];
    assert Run(s, []) == s by { RunNothing(s); }
    UserToUncased(s, SYS32);
    var u := Run(s, [enter, write]);
    assert u.r[13] == v && u.usr[5] == s.r[13];
    UncasedToUser(u);
  }

  lemma RunNothing(s: State)
    requires Valid(s)
    ensures Run(s, []) == s
  {
  }

  /** A later operation overwrites register `i` of bank `b`. */
  predicate Overwrites(mode: nat, op: Op, b: Bank, i: nat) {
    op.Write? && op.i == i && BankOf(mode, i) == b
  }

  /** Those that change it in the flat file, unless they write the value it has. */
  lemma OverwritesExactly(f: FlatFile, mode: nat, op: Op, b: Bank, i: nat)
    requires op.Write? ==> op.v != f(b, i)
    ensures FlatRun(f, mode, [op])(b, i) != f(b, i) <==> Overwrites(mode, op, b, i)
  {
    assert [op][..0] == [];
    assert FlatRun(f, mode, []) == f;
  }

  /** Nothing in `ops`, begun in `mode`, overwrites register `i` of bank `b`. */
  ghost predicate Leaves(mode: nat, ops: seq<Op>, b: Bank, i: nat) {
    forall k :: 0 <= k < |ops| ==> !Overwrites(ModeAfter(mode, ops[..k]), ops[k], b, i)
  }

  lemma {:induction false} LeftAlone(f: FlatFile, mode: nat, ops: seq<Op>, b: Bank, i: nat)
    requires Leaves(mode, ops, b, i)
    ensures FlatRun(f, mode, ops)(b, i) == f(b, i)
  {
    if ops != [] {
      var front, last := ops[..|ops| - 1], ops[|ops| - 1];
      forall k | 0 <= k < |front| ensures !Overwrites(ModeAfter(mode, front[..k]), front[k], b, i) {
        assert front[..k] == ops[..k];
      }
      LeftAlone(f, mode, front, b, i);
      assert !Overwrites(ModeAfter(mode, front), last, b, i);
    }
  }

  /** Each register of each mode keeps its last written value, through any switches. */
  lemma LastWriteIsKept(s: State, i: nat, v: word, ops: seq<Op>, m: nat)
    requires Valid(s) && i < 15
    requires forall k :: 0 <= k < |ops| ==> LegalOp(ops[k])
    requires AllKept(Step(s, Write(i, v)), ops)
    requires BankOf(m, i) == BankOf(s.cpsr.mode, i) && Leaves(s.cpsr.mode, ops, BankOf(m, i), i)
    ensures View(Run(Step(s, Write(i, v)), ops), ModeAfter(s.cpsr.mode, ops), m, i) == v
  {
    var t := Step(s, Write(i, v));
    var f := FlatOf(t);
    RunsRefineFlatFile(t, f, ops);
    LeftAlone(f, s.cpsr.mode, ops, BankOf(m, i), i);
    WriteView(s, s.cpsr.mode, i, v, m, i);
  }

  /** A register file seen as flat. */
  ghost function FlatOf(s: State): (f: FlatFile)
    requires Valid(s)
    ensures Represents(s, s.cpsr.mode, f)
  {
    (b: Bank, i: nat) => if i >= 15 then 0 else if b == BankOf(s.cpsr.mode, i) then s.r[i]
              else if b != Common && (i >= 13 || ((b == User || b == Fiq) && i >= 8)) then Saved(s, b, i) else 0
  }

  // ---------- user-bank block transfers ----------

  /** Around a hatted LDM or STM: the user registers are made live, without changing the mode. */
  function ToUserBank(s: State): (t: State)
    requires Valid(s)
    ensures Valid(t)
  {
    RestoreNew(SaveCurrent(s, s.cpsr.mode), USR32)
  }

  function FromUserBank(s: State): (t: State)
    requires Valid(s)
    ensures Valid(t)
  {
    RestoreNew(SaveCurrent(s, USR32), s.cpsr.mode)
  }

  lemma LiveChanged(s: State, live: nat, q: seq<word>, m: nat, i: nat)
    requires Valid(s) && |q| == 16 && i < 15
    ensures View(s.(r := q), live, m, i) == if BankOf(m, i) == BankOf(live, i) then q[i] else View(s, live, m, i)
  {
    hide BankOf;
  }

  /** Whatever is done to the live registers between the two is done to the user's registers, and to no others. */
  lemma UserTransferTouchesUserOnly(s: State, q: seq<word>, m: nat, i: nat)
    requires Valid(s) && i < 15 && |q| == 16
    ensures var t := FromUserBank(ToUserBank(s).(r := q));
            && t.cpsr == s.cpsr && t.spsr == s.spsr && t.vectorbase == s.vectorbase
            && t.spsrCurrent == CurrentSpsr(s.cpsr.mode) && t.r[15] == q[15]
            && View(t, s.cpsr.mode, m, i) ==
               if BankOf(m, i) == BankOf(USR32, i) then q[i] else View(s, s.cpsr.mode, m, i)
  {
    hide SaveCurrent, RestoreNew, View, BankOf;
    var u := ToUserBank(s);
    var w := u.(r := q);
    SaveKeepsStatus(s, s.cpsr.mode);
    RestoreKeepsStatus(SaveCurrent(s, s.cpsr.mode), USR32);
    SaveKeepsStatus(w, USR32);
    if Known(s.cpsr.mode) {
      RestoreKeepsStatus(SaveCurrent(w, USR32), s.cpsr.mode);
      MovingKeepsView(s, s.cpsr.mode, USR32, m, i);
      LiveChanged(u, USR32, q, m, i);
      MovingKeepsView(w, USR32, s.cpsr.mode, m, i);
    } else {
      UncasedTransfer(s, q, m, i);
    }
  }

  /** In a mode without a case the live registers are the user's afterwards. */
  lemma UncasedTransfer(s: State, q: seq<word>, m: nat, i: nat)
    requires Valid(s) && !Known(s.cpsr.mode) && i < 15 && |q| == 16
    ensures var t := FromUserBank(ToUserBank(s).(r := q));
            && t == SaveCurrent(ToUserBank(s).(r := q), USR32) && CurrentSpsr(s.cpsr.mode) == CurrentSpsr(USR32)
            && View(t, s.cpsr.mode, m, i) ==
               if BankOf(m, i) == BankOf(USR32, i) then q[i] else View(s, s.cpsr.mode, m, i)
  {
    hide RestoreNew, View;
    var live, w := s.cpsr.mode, ToUserBank(s).(r := q);
    var t := SaveCurrent(w, USR32);
    NothingSaved(s, live);
    RestoreKeepsStatus(s, USR32);
    NothingRestored(t, live);
    SaveKeepsLive(w, USR32);
    UncasedParts(t, t, live, m, i);
    UncasedParts(s, s, live, m, i);
    if BankOf(m, i) != BankOf(USR32, i) { RestoredSaved(s, USR32, BankOf(m, i), i); }
  }

  /** The user's registers are where a transfer of them looks: the mode has a case, or the bank holds those in use. */
  predicate UserHeld(s: State)
    requires Valid(s)
  {
    Known(s.cpsr.mode) || forall i :: 8 <= i < 15 ==> s.usr[i - 8] == s.r[i]
  }

  /** What the live registers are while the user bank is in. */
  lemma UserBankRegister(s: State, i: nat)
    requires Valid(s) && i < 15
    ensures ToUserBank(s).r[i] ==
            if Known(s.cpsr.mode) then View(s, s.cpsr.mode, USR32, i) else if i < 8 then s.r[i] else s.usr[i - 8]
    ensures !Known(s.cpsr.mode) ==> View(s, s.cpsr.mode, USR32, i) == s.r[i]
  {
    hide SaveCurrent, RestoreNew;
    if Known(s.cpsr.mode) {
      MovingKeepsView(s, s.cpsr.mode, USR32, USR32, i);
    } else {
      NothingSaved(s, s.cpsr.mode);
      RestoredLive(s, USR32, i);
    }
  }

  /** While the user bank is in, the live registers are the user's. */
  lemma UserBankIsLive(s: State, i: nat)
    requires Valid(s) && UserHeld(s) && i < 15
    ensures ToUserBank(s).r[i] == View(s, s.cpsr.mode, USR32, i)
  {
    hide ToUserBank, View;
    UserBankRegister(s, i);
  }

  /** They are exactly then. */
  lemma UserBankIsLiveExactly(s: State)
    requires Valid(s)
    ensures (forall i :: 0 <= i < 15 ==> ToUserBank(s).r[i] == View(s, s.cpsr.mode, USR32, i)) <==> UserHeld(s)
  {
    hide ToUserBank, View;
    forall i | 0 <= i < 15
      ensures ToUserBank(s).r[i] == View(s, s.cpsr.mode, USR32, i)
         <==> Known(s.cpsr.mode) || i < 8 || s.usr[i - 8] == s.r[i]
    {
      UserBankRegister(s, i);
    }
    if forall i :: 0 <= i < 15 ==> ToUserBank(s).r[i] == View(s, s.cpsr.mode, USR32, i) {
      forall i | 8 <= i < 15 ensures Known(s.cpsr.mode) || s.usr[i - 8] == s.r[i] {
        assert ToUserBank(s).r[i] == View(s, s.cpsr.mode, USR32, i);
      }
    }
  }

  // ---------- exceptions ----------

  /** Where an exception saves the status register, and where the mode it enters looks for it. */
  function SavedSpsr(mode: nat): nat {
    mode % 16
  }

  /** The two agree for FIQ, IRQ and SVC, but not for ABT and UND. */
  lemma SavedStatusFoundExactly(mode: nat)
    requires Legal(mode) && mode != USR32
    ensures SavedSpsr(mode) == CurrentSpsr(mode) <==> mode == FIQ32 || mode == IRQ32 || mode == SVC32
    ensures SavedSpsr(mode) < SPSRS <==> mode == FIQ32 || mode == IRQ32 || mode == SVC32
    ensures CurrentSpsr(mode) >= SPSRS <==> mode == UND32
  {
  }

  /** One instruction back, one on, and the two that the program counter runs ahead. */
  function Back(x: word): word {
    x - 4
  }

  function Onward(x: word): word {
    x + 4
  }

  function Ahead(x: word): word {
    x + 8
  }

  /** Where an exception starts, as the program counter shows it. */
  function VectorAt(base: word, vector: word): word {
    Ahead(base + vector)
  }

  lemma LinkArithmetic(x: word)
    ensures Ahead(Back(Back(x))) == x && Ahead(Back(x)) == Onward(x)
  {
  }

  /** Enter an exception mode with r14 at the next instruction's successor, interrupts off. */
  function Enter(s: State, mode: nat, vector: word): (t: State)
    requires Valid(s) && Legal(mode) && SavedSpsr(mode) < SPSRS
    ensures Valid(t)
  {
    var u := SwitchMode(s.(spsr := s.spsr[SavedSpsr(mode) := s.cpsr]), mode);
    u.(r := u.r[14 := Back(u.r[15])][15 := VectorAt(u.vectorbase, vector)], cpsr := u.cpsr.(irqOff := true))
  }

  /** processor_irq. */
  function EnterIrq(s: State): (t: State)
    requires Valid(s)
    ensures Valid(t)
  {
    Enter(s, IRQ32, 0x18)
  }

  /** processor_swi. */
  function EnterSwi(s: State): (t: State)
    requires Valid(s)
    ensures Valid(t)
  {
    Enter(s, SVC32, 0x08)
  }

  /** A data-processing instruction with the S bit that computes `result` for r15. */
  function ReturnTo(s: State, result: word): (t: State)
    requires Valid(s) && (s.spsrCurrent != 0 ==> s.spsrCurrent < SPSRS && Accepted(s.spsr[s.spsrCurrent].mode))
    ensures Valid(t)
  {
    var u := if s.spsrCurrent != 0 then
               var saved := s.spsr[s.spsrCurrent];
               SwitchMode(s, saved.mode).(cpsr := saved)
             else s;
    u.(r := u.r[15 := Ahead(result)])
  }

  /** SUBS pc, r14, #4. */
  function SubsPc(s: State): (t: State)
    requires Valid(s) && (s.spsrCurrent != 0 ==> s.spsrCurrent < SPSRS && Accepted(s.spsr[s.spsrCurrent].mode))
    ensures Valid(t)
  {
    ReturnTo(s, Back(s.r[14]))
  }

  /** MOVS pc, r14. */
  function MovsPc(s: State): (t: State)
    requires Valid(s) && (s.spsrCurrent != 0 ==> s.spsrCurrent < SPSRS && Accepted(s.spsr[s.spsrCurrent].mode))
    ensures Valid(t)
  {
    ReturnTo(s, s.r[14])
  }

  /** What a handler entered in `mode` may change: its own r13 and r14, and those of an interrupt within it. */
  predicate Scratch(mode: nat, m: nat, i: nat) {
    i >= 13 && (BankOf(m, i) == OwnBank(mode) || BankOf(m, i) == Irq)
  }

  /** For the two handlers: r13 and r14 of IRQ mode, and for a SWI handler those of SVC mode as well. */
  lemma ScratchExactly(m: nat, i: nat)
    requires i < 15
    ensures Scratch(IRQ32, m, i) <==> (i == 13 || i == 14) && (m == 2 || m == 18)
    ensures Scratch(SVC32, m, i) <==> (i == 13 || i == 14) && (m == 2 || m == 18 || m == 3 || m == 19)
  {
  }

  ghost predicate SameOutsideScratch(s: State, live: nat, t: State, live': nat, mode: nat)
    requires Valid(s) && Valid(t)
  {
    forall m: nat, i :: 0 <= i < 15 && !Scratch(mode, m, i) ==> View(t, live', m, i) == View(s, live, m, i)
  }

  /**
   `t` is a state a handler may return from: in the mode it was entered in, with its link
   register and saved status untouched, and everything else as when `s` was interrupted.
   */
  ghost predicate Handled(s: State, mode: nat, t: State)
    requires Valid(s) && Legal(mode) && SavedSpsr(mode) < SPSRS
  {
    && Valid(t) && t.cpsr.mode == mode && t.spsrCurrent == CurrentSpsr(mode)
    && t.spsr[SavedSpsr(mode)] == s.cpsr && t.r[14] == Back(s.r[15])
    && (forall k :: 0 <= k < SPSRS && k != SavedSpsr(mode) && k != SavedSpsr(IRQ32) ==> t.spsr[k] == s.spsr[k])
    && SameOutsideScratch(s, s.cpsr.mode, t, mode, mode)
  }

  /** Entry leaves such a state, if the registers are where the switch looks for them. */
  lemma EntryIsHandled(s: State, mode: nat, vector: word)
    requires Valid(s) && UserHeld(s) && Legal(mode) && SavedSpsr(mode) < SPSRS
    ensures Handled(s, mode, Enter(s, mode, vector))
  {
    var s' := s.(spsr := s.spsr[SavedSpsr(mode) := s.cpsr]);
    assert Keeps(s', mode);
    hide SwitchMode, View, CurrentSpsr, Back, VectorAt, Scratch, Keeps, UserHeld;
    var u, t := SwitchMode(s', mode), Enter(s, mode, vector);
    SwitchKeepsStatus(s', mode);
    SwitchKeepsExactly(s', mode);
    forall m: nat, i | 0 <= i < 15 && !Scratch(mode, m, i) ensures View(t, mode, m, i) == View(s, s.cpsr.mode, m, i) {
      assert View(u, mode, m, i) == View(s', s.cpsr.mode, m, i);
      SavedStatusUnseen(s, s.cpsr.mode, m, i, SavedSpsr(mode));
      LinkUnseen(u, mode, Back(u.r[15]), VectorAt(u.vectorbase, vector), u.cpsr.(irqOff := true), m, i);
    }
  }

  lemma RawLink(x: word)
    ensures Back(x) == x - 4
  {
  }

  lemma RawVector(base: word, vector: word)
    ensures VectorAt(base, vector) == base + vector + 8
  {
  }

  /** The state an exception leaves, in the numbers of the processor: mode, link, handler and saved status. */
  ghost predicate TookException(s: State, t: State, mode: nat, saved: nat, vector: word)
    requires Valid(s)
  {
    && Valid(t)
    && t.cpsr == s.cpsr.(mode := mode, irqOff := true)
    && t.r[14] == s.r[15] - 4 && t.r[15] == s.vectorbase + vector + 8
    && saved < SPSRS && t.spsr == s.spsr[saved := s.cpsr] && t.spsrCurrent == saved
    && t.vectorbase == s.vectorbase && t.pcmask == 0
  }

  lemma EnteredState(s: State, mode: nat, vector: word)
    requires Valid(s) && Legal(mode) && SavedSpsr(mode) < SPSRS && mode != USR32
    ensures var t := Enter(s, mode, vector);
            && t.cpsr == s.cpsr.(mode := mode, irqOff := true)
            && t.r[14] == Back(s.r[15]) && t.r[15] == VectorAt(s.vectorbase, vector)
            && t.spsr == s.spsr[SavedSpsr(mode) := s.cpsr] && t.spsrCurrent == SavedSpsr(mode)
            && t.vectorbase == s.vectorbase && t.pcmask == 0
  {
    SavedStatusFoundExactly(mode);
    var s' := s.(spsr := s.spsr[SavedSpsr(mode) := s.cpsr]);
    hide SwitchMode, Back, VectorAt, CurrentSpsr, SavedSpsr;
    SwitchClearsMask(s', mode);
    SwitchKeepsStatus(s', mode);
  }

  lemma SwitchClearsMask(s: State, mode: nat)
    requires Valid(s) && Legal(mode)
    ensures SwitchMode(s, mode).pcmask == if mode == USR32 then 0x0c00_0003 else 0
  {
    hide SaveCurrent, Load;
  }

  /**
   An interrupt starts its handler 0x18 above the vector base, in mode 18, with interrupts off;
   the status is in saved register 2, which that mode reads, and r14 is one instruction behind r15.
   */
  lemma IrqEntered(s: State)
    requires Valid(s)
    ensures TookException(s, EnterIrq(s), 18, 2, 0x18)
  {
    EnteredState(s, IRQ32, 0x18);
    hide Enter, Back, VectorAt;
    RawLink(s.r[15]);
    RawVector(s.vectorbase, 0x18);
  }

  /** A SWI the same at 0x08 above it, in mode 19, with saved register 3. */
  lemma SwiEntered(s: State)
    requires Valid(s)
    ensures TookException(s, EnterSwi(s), 19, 3, 0x08)
  {
    EnteredState(s, SVC32, 0x08);
    hide Enter, Back, VectorAt;
    RawLink(s.r[15]);
    RawVector(s.vectorbase, 0x08);
  }

  lemma SavedStatusUnseen(s: State, live: nat, m: nat, i: nat, k: nat)
    requires Valid(s) && i < 15 && k < SPSRS
    ensures View(s.(spsr := s.spsr[k := s.cpsr]), live, m, i) == View(s, live, m, i)
  {
    hide BankOf;
  }

  lemma LinkUnseen(u: State, mode: nat, link: word, pc: word, cpsr: Psr, m: nat, i: nat)
    requires Valid(u) && Legal(mode) && i < 15 && !Scratch(mode, m, i)
    ensures View(u.(r := u.r[14 := link][15 := pc], cpsr := cpsr), mode, m, i) == View(u, mode, m, i)
  {
  }

  /**
   A return from a handled exception restores the status register and everything outside the
   scratch registers, if the switch back keeps the registers: always, to a mode with a case.
   */
  lemma ReturnRestores(s: State, mode: nat, t: State, result: word)
    requires Valid(s) && Accepted(s.cpsr.mode) && Legal(mode) && SavedSpsr(mode) < SPSRS && mode != USR32
    requires Handled(s, mode, t) && Keeps(t, s.cpsr.mode)
    ensures t.spsrCurrent == SavedSpsr(mode) != 0 && t.spsr[t.spsrCurrent] == s.cpsr
    ensures var u := ReturnTo(t, result);
            && u.cpsr == s.cpsr && u.r[15] == Ahead(result) && u.spsr == t.spsr
            && u.spsrCurrent == (if Known(s.cpsr.mode) then CurrentSpsr(s.cpsr.mode) else t.spsrCurrent)
            && SameOutsideScratch(s, s.cpsr.mode, u, s.cpsr.mode, mode)
  {
    SavedStatusFoundExactly(mode);
    hide SwitchMode, View, CurrentSpsr, SavedSpsr, Scratch, Keeps;
    var w := SwitchMode(t, s.cpsr.mode);
    SwitchKeepsStatus(t, s.cpsr.mode);
    SwitchKeepsExactly(t, s.cpsr.mode);
    forall m: nat, i | 0 <= i < 15 && !Scratch(mode, m, i)
      ensures View(ReturnTo(t, result), s.cpsr.mode, m, i) == View(s, s.cpsr.mode, m, i)
    {
      assert View(w, s.cpsr.mode, m, i) == View(t, mode, m, i);
      PcUnseen(w, s.cpsr.mode, s.cpsr, Ahead(result), m, i);
    }
  }

  lemma PcUnseen(u: State, live: nat, cpsr: Psr, pc: word, m: nat, i: nat)
    requires Valid(u) && i < 15
    ensures View(u.(cpsr := cpsr, r := u.r[15 := pc]), live, m, i) == View(u, live, m, i)
  {
    hide BankOf;
  }

  /** A mode other than the handler's, and not IRQ, sees none of the scratch registers. */
  lemma LiveOutsideScratch(s: State, u: State, live: nat, mode: nat)
    requires Valid(s) && Valid(u) && SameOutsideScratch(s, live, u, live, mode)
    requires OwnBank(mode) != User && OwnBank(live) != OwnBank(mode) && OwnBank(live) != Irq
    ensures u.r[..15] == s.r[..15]
  {
    hide View;
    forall i | 0 <= i < 15 ensures u.r[i] == s.r[i] {
      assert !Scratch(mode, live, i);
      LiveView(s, live, i);
      LiveView(u, live, i);
    }
  }

  /** An interrupt and its SUBS pc, r14, #4 give back the interrupted state as the program saw it. */
  lemma IrqReturns(s: State, t: State)
    requires Valid(s) && Accepted(s.cpsr.mode) && Handled(s, IRQ32, t) && Keeps(t, s.cpsr.mode)
    ensures t.spsrCurrent != 0 && t.spsrCurrent < SPSRS && t.spsr[t.spsrCurrent] == s.cpsr
    ensures SubsPc(t).cpsr == s.cpsr && SubsPc(t).r[15] == s.r[15] && (s.cpsr.mode != IRQ32 ==> SubsPc(t).r == s.r)
    ensures Known(s.cpsr.mode) ==> SubsPc(t).spsrCurrent == CurrentSpsr(s.cpsr.mode)
    ensures SameOutsideScratch(s, s.cpsr.mode, SubsPc(t), s.cpsr.mode, IRQ32)
  {
    hide ReturnTo, SameOutsideScratch, CurrentSpsr, Back, Ahead, Onward, Keeps;
    ReturnRestores(s, IRQ32, t, Back(t.r[14]));
    LinkArithmetic(s.r[15]);
    if s.cpsr.mode != IRQ32 {
      LiveOutsideScratch(s, SubsPc(t), s.cpsr.mode, IRQ32);
      SameRegisters(s.r, SubsPc(t).r);
    }
  }

  /**
   A SWI and its MOVS pc, r14 do too, one instruction on; from IRQ mode all but r13 and r14,
   which an interrupt within the handler may use.
   */
  lemma SwiReturns(s: State, t: State)
    requires Valid(s) && Accepted(s.cpsr.mode) && Handled(s, SVC32, t) && Keeps(t, s.cpsr.mode)
    ensures t.spsrCurrent != 0 && t.spsrCurrent < SPSRS && t.spsr[t.spsrCurrent] == s.cpsr
    ensures MovsPc(t).cpsr == s.cpsr && MovsPc(t).r[15] == Onward(s.r[15])
    ensures s.cpsr.mode != SVC32 && s.cpsr.mode != IRQ32 ==> MovsPc(t).r == s.r[15 := Onward(s.r[15])]
    ensures SameOutsideScratch(s, s.cpsr.mode, MovsPc(t), s.cpsr.mode, SVC32)
  {
    hide ReturnTo, SameOutsideScratch, CurrentSpsr, Back, Ahead, Onward, Keeps;
    ReturnRestores(s, SVC32, t, t.r[14]);
    LinkArithmetic(s.r[15]);
    if s.cpsr.mode != SVC32 && s.cpsr.mode != IRQ32 {
      LiveOutsideScratch(s, MovsPc(t), s.cpsr.mode, SVC32);
      SameRegisters(s.r[15 := Onward(s.r[15])], MovsPc(t).r);
    }
  }

  lemma SameRegisters(r: seq<word>, q: seq<word>)
    requires |r| == |q| == 16 && q[..15] == r[..15] && q[15] == r[15]
    ensures q == r
  {
    forall i | 0 <= i < 15 ensures q[i] == r[i] {
      assert q[..15][i] == q[i] && r[..15][i] == r[i];
    }
  }

  /** An interrupt taken inside a SWI handler, and returned from, leaves the handler able to return. */
  lemma IrqInsideSwi(s: State, t: State, t': State)
    requires Valid(s) && Handled(s, SVC32, t) && Handled(t, IRQ32, t')
    ensures t'.spsrCurrent != 0 && t'.spsrCurrent < SPSRS && t'.spsr[t'.spsrCurrent] == t.cpsr
    ensures Handled(s, SVC32, SubsPc(t'))
  {
    IrqReturns(t, t');
    hide SubsPc, View, CurrentSpsr, Back, Ahead;
    var u := SubsPc(t');
    ReturnRestores(t, IRQ32, t', Back(t'.r[14]));
    forall m: nat, i | 0 <= i < 15 && !Scratch(SVC32, m, i) ensures View(u, SVC32, m, i) == View(s, s.cpsr.mode, m, i) {
      assert !Scratch(IRQ32, m, i);
    }
  }

  // ---------- returning at once ----------

  lemma LinkSeen(u: State, mode: nat, link: word, pc: word, cpsr: Psr, m: nat, i: nat)
    requires Valid(u) && i < 15
    ensures View(u.(r := u.r[14 := link][15 := pc], cpsr := cpsr), mode, m, i) ==
            if i == 14 && BankOf(m, 14) == BankOf(mode, 14) then link else View(u, mode, m, i)
  {
    hide BankOf;
  }

  lemma LiveView(s: State, live: nat, i: nat)
    requires Valid(s) && i < 15
    ensures View(s, live, live, i) == s.r[i]
  {
  }

  /** Register `i` after an exception into `mode` that is returned from at once. */
  function Restored(s: State, mode: nat, i: nat): word
    requires Valid(s) && (mode == IRQ32 || mode == SVC32) && i < 15
  {
    if Known(s.cpsr.mode) then if i == 14 && s.cpsr.mode == mode then Back(s.r[15]) else s.r[i]
    else if i < 8 then s.r[i] else if i < 13 then s.usr[i - 8]
    else if i == 13 then Saved(s, OwnBank(mode), 13) else Back(s.r[15])
  }

  /** What an exception leaves for its return: the link, the saved status, and everything else. */
  lemma Entered(s: State, mode: nat, vector: word)
    requires Valid(s) && Accepted(s.cpsr.mode) && (mode == IRQ32 || mode == SVC32)
    ensures var t, u := Enter(s, mode, vector), SwitchMode(s.(spsr := s.spsr[SavedSpsr(mode) := s.cpsr]), mode);
            && t.spsrCurrent != 0 && t.spsrCurrent < SPSRS && t.spsr[t.spsrCurrent] == s.cpsr && t.cpsr.mode == mode
            && t == u.(r := t.r, cpsr := t.cpsr)
            && t.r == u.r[14 := Back(s.r[15])][15 := VectorAt(u.vectorbase, vector)]
  {
    SavedStatusFoundExactly(mode);
    hide SwitchMode, Back, VectorAt, CurrentSpsr, SavedSpsr;
    SwitchKeepsStatus(s.(spsr := s.spsr[SavedSpsr(mode) := s.cpsr]), mode);
  }

  lemma Returned(t: State, cpsr: Psr, result: word)
    requires Valid(t) && t.spsrCurrent != 0 && t.spsrCurrent < SPSRS && t.spsr[t.spsrCurrent] == cpsr && Accepted(cpsr.mode)
    ensures ReturnTo(t, result).cpsr == cpsr
    ensures ReturnTo(t, result).r == SwitchMode(t, cpsr.mode).r[15 := Ahead(result)]
  {
    hide SwitchMode, Ahead;
  }

  /** From a mode with a case, entering and leaving puts every register back, r14 apart in the mode's own case. */
  lemma CasedComesBack(s: State, mode: nat, vector: word, i: nat)
    requires Valid(s) && Legal(s.cpsr.mode) && (mode == IRQ32 || mode == SVC32) && i < 15
    ensures SwitchMode(Enter(s, mode, vector), s.cpsr.mode).r[i] == Restored(s, mode, i)
  {
    hide SwitchMode, Enter, View, CurrentSpsr, Back, VectorAt, Saved;
    var live := s.cpsr.mode;
    var s' := s.(spsr := s.spsr[SavedSpsr(mode) := s.cpsr]);
    var u, t := SwitchMode(s', mode), Enter(s, mode, vector);
    Entered(s, mode, vector);
    SwitchKeepsView(s', mode, live, i);
    LinkSeen(u, mode, Back(s.r[15]), VectorAt(u.vectorbase, vector), t.cpsr, live, i);
    SwitchKeepsView(t, live, live, i);
    LiveView(s', live, i);
    LiveView(SwitchMode(t, live), live, i);
  }

  /** A mode without a case gets the live registers as they are. */
  lemma UncasedGetsLive(t: State, mode: nat)
    requires Valid(t) && Accepted(mode) && !Known(mode)
    ensures SwitchMode(t, mode).r == t.r
  {
    hide SaveCurrent;
    SaveKeepsLive(t, t.cpsr.mode);
    NothingRestored(SaveCurrent(t, t.cpsr.mode), mode);
  }

  lemma UncasedGives(s: State, mode: nat, i: nat)
    requires Valid(s) && !Known(s.cpsr.mode) && Legal(mode) && i < 15
    ensures SwitchMode(s, mode).r[i] == if BankOf(mode, i) == Common then s.r[i] else Saved(s, BankOf(mode, i), i)
  {
    hide SaveCurrent, RestoreNew, Saved;
    NothingSaved(s, s.cpsr.mode);
    RestoredLive(s, mode, i);
  }

  /** From a mode without one, the user's r8-r12 and the handler's r13 and r14 come back instead. */
  lemma UncasedComesBack(s: State, mode: nat, vector: word, i: nat)
    requires Valid(s) && Accepted(s.cpsr.mode) && !Known(s.cpsr.mode) && (mode == IRQ32 || mode == SVC32) && i < 15
    ensures SwitchMode(Enter(s, mode, vector), s.cpsr.mode).r[i] == Restored(s, mode, i)
  {
    hide SwitchMode, Enter, Back, VectorAt;
    Entered(s, mode, vector);
    UncasedGetsLive(Enter(s, mode, vector), s.cpsr.mode);
    UncasedGives(s.(spsr := s.spsr[SavedSpsr(mode) := s.cpsr]), mode, i);
  }

  /** Whether an exception into `mode` that is returned from at once gives every register back. */
  predicate ComesBack(s: State, mode: nat)
    requires Valid(s) && (mode == IRQ32 || mode == SVC32)
  {
    if Known(s.cpsr.mode) then s.cpsr.mode != mode || s.r[14] == Back(s.r[15])
    else (forall i :: 8 <= i < 13 ==> s.usr[i - 8] == s.r[i])
         && Saved(s, OwnBank(mode), 13) == s.r[13] && s.r[14] == Back(s.r[15])
  }

  lemma ReturnedExactly(s: State, mode: nat, vector: word, result: word)
    requires Valid(s) && Accepted(s.cpsr.mode) && (mode == IRQ32 || mode == SVC32)
    ensures var t := Enter(s, mode, vector);
            t.spsrCurrent != 0 && t.spsrCurrent < SPSRS && t.spsr[t.spsrCurrent] == s.cpsr
            && ReturnTo(t, result).cpsr == s.cpsr
            && (ReturnTo(t, result).r == s.r[15 := Ahead(result)] <==> ComesBack(s, mode))
  {
    Entered(s, mode, vector);
    Returned(Enter(s, mode, vector), s.cpsr, result);
    hide Enter, ReturnTo, SwitchMode, Back, Ahead, VectorAt;
    forall i | 0 <= i < 15
      ensures ReturnTo(Enter(s, mode, vector), result).r[i] == Restored(s, mode, i)
    {
      if Known(s.cpsr.mode) {
        CasedComesBack(s, mode, vector, i);
      } else {
        UncasedComesBack(s, mode, vector, i);
      }
    }
    ComesBackExactly(s, mode, ReturnTo(Enter(s, mode, vector), result).r, Ahead(result));
  }

  lemma ComesBackExactly(s: State, mode: nat, r: seq<word>, pc: word)
    requires Valid(s) && (mode == IRQ32 || mode == SVC32) && |r| == 16 && r[15] == pc
    requires forall i :: 0 <= i < 15 ==> r[i] == Restored(s, mode, i)
    ensures r == s.r[15 := pc] <==> ComesBack(s, mode)
  {
    hide Back, Saved;
    if r == s.r[15 := pc] {
      assert forall i :: 0 <= i < 15 ==> r[i] == s.r[i];
      assert r[13] == s.r[13] && r[14] == s.r[14];
    } else {
      var i :| 0 <= i < 16 && r[i] != s.r[15 := pc][i];
      assert i < 15 && Restored(s, mode, i) != s.r[i];
    }
  }

  /** Exactly when an interrupt and its SUBS pc, r14, #4, with nothing between, restore everything. */
  lemma IrqReturnsExactly(s: State)
    requires Valid(s) && Accepted(s.cpsr.mode)
    ensures var t := EnterIrq(s);
            t.spsrCurrent != 0 && t.spsrCurrent < SPSRS && t.spsr[t.spsrCurrent] == s.cpsr
            && (SubsPc(t).cpsr == s.cpsr && SubsPc(t).r == s.r <==> ComesBack(s, IRQ32))
  {
    hide View, Back, Ahead, ReturnTo, SwitchMode, ComesBack;
    var t := EnterIrq(s);
    LinkArithmetic(s.r[15]);
    EnteredLink(s, IRQ32, 0x18);
    ReturnedExactly(s, IRQ32, 0x18, Back(t.r[14]));
    assert s.r[15 := s.r[15]] == s.r;
  }

  /** Exactly when a SWI and its MOVS pc, r14, with nothing between, restore everything, one instruction on. */
  lemma SwiReturnsExactly(s: State)
    requires Valid(s) && Accepted(s.cpsr.mode)
    ensures var t := EnterSwi(s);
            t.spsrCurrent != 0 && t.spsrCurrent < SPSRS && t.spsr[t.spsrCurrent] == s.cpsr
            && (MovsPc(t).cpsr == s.cpsr && MovsPc(t).r == s.r[15 := Onward(s.r[15])] <==> ComesBack(s, SVC32))
  {
    hide View, Back, Ahead, Onward, ReturnTo, SwitchMode, ComesBack;
    var t := EnterSwi(s);
    LinkArithmetic(s.r[15]);
    EnteredLink(s, SVC32, 0x08);
    ReturnedExactly(s, SVC32, 0x08, t.r[14]);
  }

  lemma EnteredLink(s: State, mode: nat, vector: word)
    requires Valid(s) && Legal(mode) && SavedSpsr(mode) < SPSRS
    ensures Enter(s, mode, vector).r[14] == Back(s.r[15])
  {
    hide SwitchMode, Back, VectorAt;
    SwitchKeepsStatus(s.(spsr := s.spsr[SavedSpsr(mode) := s.cpsr]), mode);
  }
}
