/**
 Whole runs of the memory system (core/memory.c, and the coprocessor writes of
 core/execute.inc.c that change it): reads, fetches, writes, mode switches, MMU register
 writes and flushes, in any order.  The machine with its two one-entry TLBs is compared
 with the one built without USETLB, which walks the tables for every access.
 */
module TlbRuns {
  import opened Words
  import opened Mmu

  // ---------- memory banks ----------

  datatype Width = Word | Half | Byte

  function Alignment(w: Width): word {
    match w
    case Word => 4
    case Half => 2
    case Byte => 1
  }

  /** The word of DRAM bank `bank` that a physical address selects; its top byte plays no part. */
  function BankWord(bank: word, pa: word): word {
    (bank << 24) | (pa & 0x00ff_fffc)
  }

  /** How far left in its word the addressed half or byte lies (the host is little-endian). */
  function Lane(width: Width, pa: word): (shift: word)
    ensures shift < 32
  {
    match width
    case Word => 0
    case Half => (pa & 2) << 3
    case Byte => (pa & 3) << 3
  }

  function LaneMask(width: Width): word {
    match width
    case Word => 0xffff_ffff
    case Half => 0xffff
    case Byte => 0xff
  }

  function Extract(width: Width, pa: word, cell: word): word {
    Taken(cell, LaneMask(width), Lane(width, pa))
  }

  function Merge(width: Width, pa: word, cell: word, data: word): word {
    Put(cell, data, LaneMask(width), Lane(width, pa))
  }

  function Taken(cell: word, mask: word, shift: word): word
    requires shift < 32
  {
    (cell >> shift) & mask
  }

  function Put(cell: word, data: word, mask: word, shift: word): word
    requires shift < 32
  {
    (cell & !(mask << shift)) | ((data & mask) << shift)
  }

  /** The half or byte written is the one read back. */
  lemma ExtractMerged(width: Width, pa: word, cell: word, data: word)
    ensures Extract(width, pa, Merge(width, pa, cell, data)) == And(data, LaneMask(width))
  {
    hide Lane, Taken, Put, And;
    Lanes(width, pa);
    match width
    case Word => TakenWord(cell, data);
    case Half => TakenHalf(cell, data, Lane(width, pa));
    case Byte => TakenByte(cell, data, Lane(width, pa));
  }

  lemma Lanes(width: Width, pa: word)
    ensures var s := Lane(width, pa);
            s == 0 || (s == 16 && !width.Word?) || ((s == 8 || s == 24) && width.Byte?)
  {
  }

  lemma TakenWord(cell: word, data: word)
    ensures Taken(Put(cell, data, 0xffff_ffff, 0), 0xffff_ffff, 0) == And(data, 0xffff_ffff)
  {
  }

  lemma TakenHalf(cell: word, data: word, s: word)
    requires s == 0 || s == 16
    ensures Taken(Put(cell, data, 0xffff, s), 0xffff, s) == And(data, 0xffff)
  {
  }

  lemma TakenByte(cell: word, data: word, s: word)
    requires s == 0 || s == 8 || s == 16 || s == 24
    ensures Taken(Put(cell, data, 0xff, s), 0xff, s) == And(data, 0xff)
  {
  }

  /** Banked readers return 0 beyond the bank, and banked writers do nothing there. */
  function BankLoad(ram: Ram, bank: word, width: Width, pa: word): word {
    match Get(ram, BankWord(bank, pa))
    case None => 0
    case Some(cell) => Extract(width, pa, cell)
  }

  function BankStore(ram: Ram, bank: word, width: Width, pa: word, data: word): Ram {
    match Get(ram, BankWord(bank, pa))
    case None => ram
    case Some(cell) => ram[BankWord(bank, pa) := Merge(width, pa, cell, data)]
  }

  // ---------- the machine ----------

  /** What reaches the bus: enough to determine every device's answers. */
  datatype Bus = Loaded(reader: Reader, width: Width, pa: word, value: Option<word>)
               | Stored(writer: Writer, width: Width, pa: word, data: word)

  datatype Machine =
    | Halted(trace: seq<Bus>)
    | Running(regs: Regs, ram: Ram, mode: word, insttlb: Tlb, datatlb: Tlb, fault: bool, trace: seq<Bus>)

  datatype Side = Inst | Data

  datatype Op = Read(side: Side, width: Width, va: word)
              | Write(width: Width, va: word, data: word)
              | SetMode(mode: word)
              | SetControl(control: word)
              | SetBase(base: word)
              | SetDomains(domains: word)
              | Flush

  function Entry(m: Machine, side: Side): Tlb
    requires m.Running?
  {
    if side.Inst? then m.insttlb else m.datatlb
  }

  function WithEntry(m: Machine, side: Side, t: Tlb): (m': Machine)
    requires m.Running?
    ensures m'.Running? && Entry(m', side) == t
  {
    if side.Inst? then m.(insttlb := t) else m.(datatlb := t)
  }

  function Invalidated(m: Machine): Machine
    requires m.Running?
  {
    m.(insttlb := Invalidate(m.insttlb), datatlb := Invalidate(m.datatlb))
  }

  /** How an access finds its physical address: with the TLB on a match, else by a walk. */
  function Lookup(m: Machine, side: Side, width: Width, va: word, cached: bool): Walk
    requires m.Running?
  {
    var t := Entry(m, side);
    if cached && Hits(t, m.mode, va) then Walk(HitAddress(t, va), t, false)
    else Translate(m.regs, m.ram, m.mode, t, va, Alignment(width))
  }

  /** What a read function answers; a fault read and a null read end the emulator. */
  function Answer(reader: Reader, ram: Ram, width: Width, pa: word): Option<Bus> {
    match reader
    case NullRead => None
    case FaultRead => None
    case BankRead(bank) => Some(Loaded(reader, width, pa, Some(BankLoad(ram, bank, width, pa))))
    case ZeroRead => Some(Loaded(ZeroRead, width, pa, Some(0)))
    case device => Some(Loaded(device, width, pa, None))
  }

  /** Call the entry's read function. */
  function Perform(m: Machine, w: Walk, side: Side, width: Width): Machine
    requires m.Running? && w.Walk?
  {
    match Answer(w.tlb.handlers.read, m.ram, width, w.pa)
    case None => Halted(m.trace)
    case Some(bus) => WithEntry(m.(fault := m.fault || w.fault, trace := m.trace + [bus]), side, w.tlb)
  }

  /** What a write function does to memory, and what it sends to a device. */
  function Stores(writer: Writer, ram: Ram, width: Width, pa: word, data: word): Ram {
    if writer.BankWrite? then BankStore(ram, writer.bank, width, pa, data) else ram
  }

  function Sends(writer: Writer, width: Width, pa: word, data: word): seq<Bus> {
    if writer.NullWrite? || writer.FaultWrite? || writer.BankWrite? then [] else [Stored(writer, width, pa, data)]
  }

  /** Call the entry's write function; a fault write only raises the fault flag. */
  function Deliver(m: Machine, w: Walk, width: Width, data: word): Machine
    requires m.Running? && w.Walk?
  {
    var writer := w.tlb.handlers.write;
    m.(datatlb := w.tlb, fault := m.fault || w.fault || writer.FaultWrite?,
       ram := Stores(writer, m.ram, width, w.pa, data), trace := m.trace + Sends(writer, width, w.pa, data))
  }

  function ReadStep(m: Machine, side: Side, width: Width, va: word, cached: bool): Machine
    requires m.Running?
  {
    var w := Lookup(m, side, width, va, cached);
    if w.Stopped? then Halted(m.trace) else Perform(m, w, side, width)
  }

  function WriteStep(m: Machine, width: Width, va: word, data: word, cached: bool): Machine
    requires m.Running?
  {
    var w := Lookup(m, Data, width, va, cached);
    if w.Stopped? then Halted(m.trace) else Deliver(m, w, width, data)
  }

  /** The bit that switches the MMU. */
  function EnableBit(control: word): word {
    control & 1
  }

  /** The mode is kept in a byte, so it is never the stamp of an empty entry. */
  function ByteMode(mode: word): word {
    mode & 0xff
  }

  lemma ByteModeIsAMode(mode: word)
    ensures ByteMode(mode) != NO_MODE
  {
  }

  function Step(m: Machine, op: Op, cached: bool): Machine {
    if m.Halted? then m
    else
      match op
      case Read(side, width, va) => ReadStep(m, side, width, va, cached)
      case Write(width, va, data) => WriteStep(m, width, va, data, cached)
      case SetMode(mode) => m.(mode := ByteMode(mode))
      case SetControl(control) =>
        var m' := m.(regs := m.regs.(control := control));
        if EnableBit(m.regs.control) != EnableBit(control) then Invalidated(m') else m'
      case SetBase(base) => m.(regs := m.regs.(base := base))
      case SetDomains(domains) => Invalidated(m.(regs := m.regs.(domains := domains)))
      case Flush => Invalidated(m)
  }

  // ---------- coherence ----------

  /**
   Every address the entry matches would walk, now, to the hit's address and to this very
   entry: same span, same permissions, same handlers.
   */
  ghost predicate Coherent(t: Tlb, r: Regs, ram: Ram) {
    forall mode, va, alignment, u: Tlb {:trigger Translate(r, ram, mode, u, va, alignment)} ::
      mode != NO_MODE && Hits(t, mode, va) && u.handlers == t.handlers ==>
        Translate(r, ram, mode, u, va, alignment) ==
        Walk(HitAddress(t, va), t, MmuOn(r) && Misaligned(r, va, alignment))
  }

  lemma EmptyIsCoherent(t: Tlb, r: Regs, ram: Ram)
    ensures Coherent(Invalidate(t), r, ram)
  {
    hide Translate, HitAddress, Misaligned, MmuOn;
    forall mode: word, va | mode != NO_MODE ensures !Hits(Invalidate(t), mode, va) {
      hide Masked;
    }
  }

  lemma WalkFromStamp(r: Regs, ram: Ram, mode: word, t: Tlb, va: word, l1: word, fault: bool)
    requires WalkFrom(r, ram, mode, t, va, l1, fault).Walk?
    ensures var stamp := WalkFrom(r, ram, mode, t, va, l1, fault).tlb.modestamp; stamp == mode || stamp == NO_MODE
  {
    hide PhysicalWord, PhysicalMap, SectionGrant, SmallGrant, LargeGrant, DomainRefuses, SecondLevelAddress, Masked;
  }

  lemma TranslateStamp(r: Regs, ram: Ram, mode: word, t: Tlb, va: word, alignment: word)
    requires Translate(r, ram, mode, t, va, alignment).Walk?
    ensures var stamp := Translate(r, ram, mode, t, va, alignment).tlb.modestamp; stamp == mode || stamp == NO_MODE
  {
    hide PhysicalWord, PhysicalMap, FirstLevelAddress, WalkFrom, MmuOn, Misaligned, Masked;
    if MmuOn(r) {
      var l1 := PhysicalWord(ram, FirstLevelAddress(r, va)).value;
      WalkFromStamp(r, ram, mode, t, va, l1, Misaligned(r, va, alignment));
    }
  }

  /** What a walk leaves is coherent. */
  lemma FillIsCoherent(r: Regs, ram: Ram, mode: word, t: Tlb, va: word, alignment: word)
    requires LargePagesRepeated(r, ram) && mode != NO_MODE
    requires Translate(r, ram, mode, t, va, alignment).Walk?
    ensures Coherent(Translate(r, ram, mode, t, va, alignment).tlb, r, ram)
  {
    hide Translate, LargePagesRepeated, HitAddress, Misaligned, MmuOn, Masked;
    var t' := Translate(r, ram, mode, t, va, alignment).tlb;
    TranslateStamp(r, ram, mode, t, va, alignment);
    forall mode', va', alignment', u: Tlb | mode' != NO_MODE && Hits(t', mode', va') && u.handlers == t'.handlers
      ensures Translate(r, ram, mode', u, va', alignment') ==
              Walk(HitAddress(t', va'), t', MmuOn(r) && Misaligned(r, va', alignment'))
    {
      WalkAgain(r, ram, mode, t, u, va, va', alignment, alignment');
    }
  }

  // ---------- which changes reach an entry ----------

  /** The walk at `va` reads the word at `cell`. */
  ghost predicate TableWord(r: Regs, ram: Ram, va: word, cell: word) {
    MmuOn(r) &&
    (cell == WordAddress(FirstLevelAddress(r, va)) ||
     match PhysicalWord(ram, FirstLevelAddress(r, va))
     case None => false
     case Some(l1) => l1 & 3 == 1 && cell == WordAddress(SecondLevelAddress(l1, va)))
  }

  /** The walk at some address that `t` matches reads the word at `cell`. */
  ghost predicate Touches(r: Regs, ram: Ram, t: Tlb, cell: word) {
    exists va :: Hits(t, t.modestamp, va) && TableWord(r, ram, va, cell)
  }

  lemma OtherWord(ram: Ram, cell: word, value: word, pa: word)
    requires WordAddress(pa) != cell
    ensures PhysicalWord(ram[cell := value], pa) == PhysicalWord(ram, pa)
  {
    hide WordAddress, TopByte, IsBank, Get;
    GetOther(ram, cell, value, WordAddress(pa));
  }

  lemma SameTables(r: Regs, ram: Ram, mode: word, t: Tlb, va: word, alignment: word, cell: word, value: word)
    requires !TableWord(r, ram, va, cell)
    ensures Translate(r, ram[cell := value], mode, t, va, alignment) == Translate(r, ram, mode, t, va, alignment)
  {
    hide PhysicalWord, WordAddress, FirstLevelAddress, SecondLevelAddress, MmuOn, Misaligned, Install, SectionGrant,
         SmallGrant, LargeGrant, DomainRefuses, Refused;
    if MmuOn(r) {
      OtherWord(ram, cell, value, FirstLevelAddress(r, va));
      match PhysicalWord(ram, FirstLevelAddress(r, va))
      case None =>
      case Some(l1) => if l1 & 3 == 1 { OtherWord(ram, cell, value, SecondLevelAddress(l1, va)); }
    }
  }

  /** A write outside the table words of an entry's span keeps the entry coherent. */
  lemma WriteKeepsCoherent(t: Tlb, r: Regs, ram: Ram, cell: word, value: word)
    requires Coherent(t, r, ram) && !Touches(r, ram, t, cell)
    ensures Coherent(t, r, ram[cell := value])
  {
    hide Translate, HitAddress, Misaligned, MmuOn, Masked, TableWord;
    var ram' := ram[cell := value];
    forall mode, va, alignment, u: Tlb | mode != NO_MODE && Hits(t, mode, va) && u.handlers == t.handlers
      ensures Translate(r, ram', mode, u, va, alignment) ==
              Walk(HitAddress(t, va), t, MmuOn(r) && Misaligned(r, va, alignment))
    {
      assert Hits(t, t.modestamp, va);
      SameTables(r, ram, mode, u, va, alignment, cell, value);
    }
  }

  /** Registers that walk alike: off is off, and on needs the same base, domains, S and R. */
  predicate WalkAlike(r: Regs, r': Regs) {
    MmuOn(r) == MmuOn(r') &&
    (MmuOn(r) ==> r.base == r'.base && r.domains == r'.domains && SystemRom(r) == SystemRom(r'))
  }

  lemma AlikeGrants(r: Regs, r': Regs, mode: word, l1: word, l2: word, va: word)
    requires r.domains == r'.domains && SystemRom(r) == SystemRom(r')
    ensures DomainRefuses(r, l1) == DomainRefuses(r', l1)
    ensures SectionGrant(r, mode, l1, va) == SectionGrant(r', mode, l1, va)
    ensures SmallGrant(r, mode, l1, l2, va) == SmallGrant(r', mode, l1, l2, va)
    ensures LargeGrant(r, mode, l1, l2, va) == LargeGrant(r', mode, l1, l2, va)
  {
    hide Join, SystemRom, Ap, Permissions, IsUser, FullPage;
    assert DomainAccess(r, l1) == DomainAccess(r', l1);
  }

  /** A walk that maps differs between two such register files only in the alignment fault. */
  lemma AlikeWalkFrom(r: Regs, r': Regs, ram: Ram, mode: word, t: Tlb, va: word, l1: word, fault: bool, fault': bool)
    requires r.domains == r'.domains && SystemRom(r) == SystemRom(r') && mode != NO_MODE
    requires var w := WalkFrom(r, ram, mode, t, va, l1, fault); w.Walk? && w.tlb.modestamp == mode
    ensures WalkFrom(r', ram, mode, t, va, l1, fault') == WalkFrom(r, ram, mode, t, va, l1, fault).(fault := fault')
  {
    hide DomainRefuses, SectionGrant, SmallGrant, LargeGrant, PhysicalWord, SystemRom, PhysicalMap, SecondLevelAddress,
         Masked;
    if l1 & 3 == 1 {
      AlikeGrants(r, r', mode, l1, PhysicalWord(ram, SecondLevelAddress(l1, va)).value, va);
    } else {
      AlikeGrants(r, r', mode, l1, 0, va);
    }
  }

  lemma AlikeTranslate(r: Regs, r': Regs, ram: Ram, mode: word, t: Tlb, va: word, alignment: word)
    requires WalkAlike(r, r') && mode != NO_MODE
    requires var w := Translate(r, ram, mode, t, va, alignment); w.Walk? && w.tlb.modestamp == mode
    ensures Translate(r', ram, mode, t, va, alignment) ==
            Translate(r, ram, mode, t, va, alignment).(fault := MmuOn(r') && Misaligned(r', va, alignment))
  {
    hide SystemRom, WalkFrom, PhysicalWord, MmuOn, Misaligned, SectionIndex, PhysicalMap, Masked;
    if MmuOn(r) {
      assert FirstLevelAddress(r, va) == FirstLevelAddress(r', va);
      AlikeWalkFromHere(r, r', ram, mode, t, va, alignment);
    }
  }

  lemma AlikeWalkFromHere(r: Regs, r': Regs, ram: Ram, mode: word, t: Tlb, va: word, alignment: word)
    requires WalkAlike(r, r') && mode != NO_MODE && MmuOn(r)
    requires var w := Translate(r, ram, mode, t, va, alignment); w.Walk? && w.tlb.modestamp == mode
    requires FirstLevelAddress(r, va) == FirstLevelAddress(r', va)
    ensures Translate(r', ram, mode, t, va, alignment) ==
            Translate(r, ram, mode, t, va, alignment).(fault := Misaligned(r', va, alignment))
  {
    hide SystemRom, WalkFrom, PhysicalWord, MmuOn, Misaligned, FirstLevelAddress;
    var l1 := PhysicalWord(ram, FirstLevelAddress(r, va)).value;
    AlikeWalkFrom(r, r', ram, mode, t, va, l1, Misaligned(r, va, alignment), Misaligned(r', va, alignment));
  }

  lemma RegsKeepCoherent(t: Tlb, r: Regs, r': Regs, ram: Ram)
    requires Coherent(t, r, ram) && WalkAlike(r, r')
    ensures Coherent(t, r', ram)
  {
    hide Translate, HitAddress, Misaligned, MmuOn, Masked, WalkAlike;
    forall mode, va, alignment, u: Tlb | mode != NO_MODE && Hits(t, mode, va) && u.handlers == t.handlers
      ensures Translate(r', ram, mode, u, va, alignment) ==
              Walk(HitAddress(t, va), t, MmuOn(r') && Misaligned(r', va, alignment))
    {
      assert Translate(r, ram, mode, u, va, alignment).tlb == t;
      AlikeTranslate(r, r', ram, mode, u, va, alignment);
    }
  }

  // ---------- runs ----------

  function Run(m: Machine, ops: seq<Op>, cached: bool): Machine
    decreases |ops|
  {
    if ops == [] then m else Run(Step(m, ops[0], cached), ops[1..], cached)
  }

  /** Which entries something they depend on has changed under. */
  datatype Watch = Watch(inst: bool, data: bool)

  function Stale(w: Watch, side: Side): bool {
    if side.Inst? then w.inst else w.data
  }

  function Refreshed(w: Watch, side: Side): Watch {
    if side.Inst? then w.(inst := false) else w.(data := false)
  }

  predicate Missed(m: Machine, side: Side, va: word)
    requires m.Running?
  {
    !Hits(Entry(m, side), m.mode, va)
  }

  /** A write to a table word of an entry's span, or registers that walk differently, make it stale; a miss refills. */
  ghost function Watching(m: Machine, op: Op, w: Watch): Watch {
    if m.Halted? then w
    else
      match op
      case Read(side, _, va) => if Missed(m, side, va) then Refreshed(w, side) else w
      case Write(width, va, _) =>
        WatchStore(m, Lookup(m, Data, width, va, true), if Missed(m, Data, va) then Refreshed(w, Data) else w)
      case SetMode(_) => w
      case SetControl(control) =>
        if EnableBit(m.regs.control) != EnableBit(control) then Watch(false, false)
        else WatchRegs(m, m.regs.(control := control), w)
      case SetBase(base) => WatchRegs(m, m.regs.(base := base), w)
      case SetDomains(_) => Watch(false, false)
      case Flush => Watch(false, false)
  }

  ghost function WatchStore(m: Machine, look: Walk, w: Watch): Watch
    requires m.Running?
  {
    if look.Walk? && look.tlb.handlers.write.BankWrite? then
      var cell := BankWord(look.tlb.handlers.write.bank, look.pa);
      Watch(w.inst || Touches(m.regs, m.ram, m.insttlb, cell), w.data || Touches(m.regs, m.ram, look.tlb, cell))
    else w
  }

  ghost function WatchRegs(m: Machine, r': Regs, w: Watch): Watch
    requires m.Running?
  {
    if WalkAlike(m.regs, r') then w else Watch(true, true)
  }

  ghost function WatchRun(m: Machine, w: Watch, ops: seq<Op>): Watch
    decreases |ops|
  {
    if ops == [] then w else WatchRun(Step(m, ops[0], true), Watching(m, ops[0], w), ops[1..])
  }

  /** The invariant: an entry that is not stale is coherent. */
  ghost predicate Sound(m: Machine, w: Watch) {
    m.Running? ==>
      && m.mode != NO_MODE
      && (w.inst || Coherent(m.insttlb, m.regs, m.ram))
      && (w.data || Coherent(m.datatlb, m.regs, m.ram))
  }

  /** Large-page descriptors are repeated whenever an access has to walk. */
  ghost predicate Repeated(m: Machine, op: Op) {
    m.Running? ==>
      match op
      case Read(side, _, va) => Missed(m, side, va) ==> LargePagesRepeated(m.regs, m.ram)
      case Write(_, va, _) => Missed(m, Data, va) ==> LargePagesRepeated(m.regs, m.ram)
      case _ => true
  }

  lemma LookupSound(m: Machine, w: Watch, side: Side, width: Width, va: word)
    requires m.Running? && Sound(m, w)
    requires Missed(m, side, va) ==> LargePagesRepeated(m.regs, m.ram)
    requires Lookup(m, side, width, va, true).Walk?
    requires Missed(m, side, va) || !Stale(w, side)
    ensures Coherent(Lookup(m, side, width, va, true).tlb, m.regs, m.ram)
  {
    hide Coherent, Translate, Hits, HitAddress, LargePagesRepeated;
    if Missed(m, side, va) {
      FillIsCoherent(m.regs, m.ram, m.mode, Entry(m, side), va, Alignment(width));
    }
  }

  lemma ReadSound(m: Machine, w: Watch, side: Side, width: Width, va: word)
    requires m.Running? && Sound(m, w) && Repeated(m, Read(side, width, va))
    ensures Sound(ReadStep(m, side, width, va, true), Watching(m, Read(side, width, va), w))
  {
    hide Coherent, Lookup, Missed, LargePagesRepeated, Answer;
    if Lookup(m, side, width, va, true).Walk? && (Missed(m, side, va) || !Stale(w, side)) {
      LookupSound(m, w, side, width, va);
    }
  }

  lemma StoreSound(t: Tlb, r: Regs, ram: Ram, bank: word, width: Width, pa: word, data: word)
    requires Coherent(t, r, ram) && !Touches(r, ram, t, BankWord(bank, pa))
    ensures Coherent(t, r, BankStore(ram, bank, width, pa, data))
  {
    hide Coherent, Touches, BankWord, Merge, Get;
    match Get(ram, BankWord(bank, pa))
    case None =>
    case Some(cell) => WriteKeepsCoherent(t, r, ram, BankWord(bank, pa), Merge(width, pa, cell, data));
  }

  lemma DeliverSound(m: Machine, look: Walk, w: Watch, width: Width, data: word)
    requires m.Running? && look.Walk? && m.mode != NO_MODE
    requires w.inst || Coherent(m.insttlb, m.regs, m.ram)
    requires w.data || Coherent(look.tlb, m.regs, m.ram)
    ensures Sound(Deliver(m, look, width, data), WatchStore(m, look, w))
  {
    hide Coherent, Touches, BankStore, BankWord, Sends;
    if look.tlb.handlers.write.BankWrite? {
      var bank := look.tlb.handlers.write.bank;
      var cell := BankWord(bank, look.pa);
      if !w.inst && !Touches(m.regs, m.ram, m.insttlb, cell) {
        StoreSound(m.insttlb, m.regs, m.ram, bank, width, look.pa, data);
      }
      if !w.data && !Touches(m.regs, m.ram, look.tlb, cell) {
        StoreSound(look.tlb, m.regs, m.ram, bank, width, look.pa, data);
      }
    }
  }

  lemma WriteSound(m: Machine, w: Watch, width: Width, va: word, data: word)
    requires m.Running? && Sound(m, w) && Repeated(m, Write(width, va, data))
    ensures Sound(WriteStep(m, width, va, data, true), Watching(m, Write(width, va, data), w))
  {
    hide Coherent, Lookup, Missed, LargePagesRepeated, Deliver, WatchStore;
    var look := Lookup(m, Data, width, va, true);
    if look.Walk? {
      if Missed(m, Data, va) || !w.data { LookupSound(m, w, Data, width, va); }
      DeliverSound(m, look, if Missed(m, Data, va) then Refreshed(w, Data) else w, width, data);
    }
  }

  lemma RegsSound(m: Machine, w: Watch, r': Regs)
    requires m.Running? && Sound(m, w)
    ensures Sound(m.(regs := r'), WatchRegs(m, r', w))
  {
    hide Coherent, WalkAlike;
    if WalkAlike(m.regs, r') {
      if !w.inst { RegsKeepCoherent(m.insttlb, m.regs, r', m.ram); }
      if !w.data { RegsKeepCoherent(m.datatlb, m.regs, r', m.ram); }
    }
  }

  lemma FlushSound(m: Machine)
    requires m.Running? && m.mode != NO_MODE
    ensures Sound(Invalidated(m), Watch(false, false))
  {
    hide Coherent, Invalidate;
    EmptyIsCoherent(m.insttlb, m.regs, m.ram);
    EmptyIsCoherent(m.datatlb, m.regs, m.ram);
  }

  lemma StepSound(m: Machine, w: Watch, op: Op)
    requires Sound(m, w) && Repeated(m, op)
    ensures Sound(Step(m, op, true), Watching(m, op, w))
  {
    hide Coherent, ReadStep, WriteStep, EnableBit, ByteMode, Lookup, WatchStore, Missed, WatchRegs, Invalidated;
    if m.Running? {
      match op
      case Read(side, width, va) => ReadSound(m, w, side, width, va);
      case Write(width, va, data) => WriteSound(m, w, width, va, data);
      case SetMode(mode) => ByteModeIsAMode(mode);
      case SetControl(control) =>
        RegsSound(m, w, m.regs.(control := control));
        FlushSound(m.(regs := m.regs.(control := control)));
      case SetBase(base) => RegsSound(m, w, m.regs.(base := base));
      case SetDomains(domains) => FlushSound(m.(regs := m.regs.(domains := domains)));
      case Flush => FlushSound(m);
    }
  }

  // ---------- the two builds ----------

  ghost predicate AllRepeated(m: Machine, ops: seq<Op>)
    decreases |ops|
  {
    ops == [] || (Repeated(m, ops[0]) && AllRepeated(Step(m, ops[0], true), ops[1..]))
  }

  /** Over every run, each entry is coherent or known to be stale. */
  lemma {:induction false} RunsKeepEntriesCoherent(m: Machine, w: Watch, ops: seq<Op>)
    requires Sound(m, w) && AllRepeated(m, ops)
    ensures Sound(Run(m, ops, true), WatchRun(m, w, ops))
    decreases |ops|
  {
    hide Sound, Repeated, Step, Watching;
    if ops != [] {
      StepSound(m, w, ops[0]);
      RunsKeepEntriesCoherent(Step(m, ops[0], true), Watching(m, ops[0], w), ops[1..]);
    }
  }

  /** A running machine fresh from memory_initialise. */
  lemma FreshIsSound(r: Regs, ram: Ram, mode: word)
    ensures Sound(Running(r, ram, ByteMode(mode), INITIAL_TLB, INITIAL_TLB, false, []), Watch(false, false))
  {
    hide Coherent, ByteMode, Invalidate;
    ByteModeIsAMode(mode);
    InitialIsEmpty();
    EmptyIsCoherent(INITIAL_TLB, r, ram);
  }

  lemma InitialIsEmpty()
    ensures Invalidate(INITIAL_TLB) == INITIAL_TLB
  {
  }

  /** A match on a coherent entry is the walk, but for an alignment fault that it does not notice. */
  lemma HitAgreesExactly(m: Machine, side: Side, width: Width, va: word)
    requires m.Running? && m.mode != NO_MODE && Coherent(Entry(m, side), m.regs, m.ram) && !Missed(m, side, va)
    ensures Lookup(m, side, width, va, true) == Lookup(m, side, width, va, false)
       <==> !(MmuOn(m.regs) && Misaligned(m.regs, va, Alignment(width)))
  {
    hide Translate, Hits, HitAddress, MmuOn, Misaligned, Alignment;
  }

  /** Both builds show the same bus, memory, registers and fault flag; entries differ at most in what they match. */
  predicate Alike(m: Machine, n: Machine) {
    && m.trace == n.trace && m.Running? == n.Running?
    && (m.Running? ==>
          && m.regs == n.regs && m.ram == n.ram && m.mode == n.mode && m.fault == n.fault
          && m.insttlb.handlers == n.insttlb.handlers && m.datatlb.handlers == n.datatlb.handlers)
  }

  /** An access that matches an entry finds it up to date, and is aligned if alignment is checked. */
  ghost predicate Disciplined(m: Machine, w: Watch, op: Op) {
    Repeated(m, op) &&
    (m.Running? ==>
       match op
       case Read(side, width, va) => Missed(m, side, va) || FairHit(m, w, side, width, va)
       case Write(width, va, _) => Missed(m, Data, va) || FairHit(m, w, Data, width, va)
       case _ => true)
  }

  predicate FairHit(m: Machine, w: Watch, side: Side, width: Width, va: word)
    requires m.Running?
  {
    !Stale(w, side) && !(MmuOn(m.regs) && Misaligned(m.regs, va, Alignment(width)))
  }

  ghost predicate AllDisciplined(m: Machine, w: Watch, ops: seq<Op>)
    decreases |ops|
  {
    ops == [] || (Disciplined(m, w, ops[0]) && AllDisciplined(Step(m, ops[0], true), Watching(m, ops[0], w), ops[1..]))
  }

  /** Two walks or hits with the same address, fault and handlers. */
  predicate SameWalk(w: Walk, v: Walk) {
    w.Stopped? == v.Stopped? &&
    (w.Walk? ==> w.pa == v.pa && w.fault == v.fault && w.tlb.handlers == v.tlb.handlers)
  }

  lemma WalkFromReadsHandlersOnly(r: Regs, ram: Ram, mode: word, t: Tlb, u: Tlb, va: word, l1: word, fault: bool)
    requires t.handlers == u.handlers
    ensures SameWalk(WalkFrom(r, ram, mode, t, va, l1, fault), WalkFrom(r, ram, mode, u, va, l1, fault))
  {
    hide PhysicalWord, Install, SectionGrant, SmallGrant, LargeGrant, DomainRefuses, SecondLevelAddress;
    InstallReadsHandlersOnly(mode, t, u, va, fault);
  }

  lemma InstallReadsHandlersOnly(mode: word, t: Tlb, u: Tlb, va: word, fault: bool)
    requires t.handlers == u.handlers
    ensures forall g :: SameWalk(Install(g, va, mode, t, fault), Install(g, va, mode, u, fault))
  {
    hide PhysicalMap, Masked;
  }

  lemma WalkReadsHandlersOnly(r: Regs, ram: Ram, mode: word, t: Tlb, u: Tlb, va: word, alignment: word)
    requires t.handlers == u.handlers
    ensures SameWalk(Translate(r, ram, mode, t, va, alignment), Translate(r, ram, mode, u, va, alignment))
  {
    hide PhysicalWord, Install, FirstLevelAddress, MmuOn, Misaligned, WalkFrom;
    InstallReadsHandlersOnly(mode, t, u, va, false);
    match PhysicalWord(ram, FirstLevelAddress(r, va))
    case None =>
    case Some(l1) => WalkFromReadsHandlersOnly(r, ram, mode, t, u, va, l1, Misaligned(r, va, alignment));
  }

  lemma LookupAgrees(m: Machine, n: Machine, w: Watch, side: Side, width: Width, va: word)
    requires m.Running? && Sound(m, w) && Alike(m, n)
    requires Missed(m, side, va) || FairHit(m, w, side, width, va)
    ensures SameWalk(Lookup(m, side, width, va, true), Lookup(n, side, width, va, false))
  {
    hide Translate, Hits, HitAddress, MmuOn, Misaligned, Alignment, Coherent;
    if Missed(m, side, va) {
      WalkReadsHandlersOnly(m.regs, m.ram, m.mode, Entry(m, side), Entry(n, side), va, Alignment(width));
    } else {
      HitWalks(m.regs, m.ram, m.mode, Entry(m, side), Entry(n, side), va, Alignment(width));
    }
  }

  lemma HitWalks(r: Regs, ram: Ram, mode: word, t: Tlb, u: Tlb, va: word, alignment: word)
    requires Coherent(t, r, ram) && mode != NO_MODE && Hits(t, mode, va) && u.handlers == t.handlers
    ensures Translate(r, ram, mode, u, va, alignment) ==
            Walk(HitAddress(t, va), t, MmuOn(r) && Misaligned(r, va, alignment))
  {
    hide Translate, Hits, HitAddress, MmuOn, Misaligned;
  }

  lemma PerformAgrees(m: Machine, n: Machine, w: Walk, v: Walk, side: Side, width: Width)
    requires m.Running? && Alike(m, n) && w.Walk? && SameWalk(w, v)
    ensures Alike(Perform(m, w, side, width), Perform(n, v, side, width))
  {
    hide Answer;
  }

  lemma DeliverAgrees(m: Machine, n: Machine, w: Walk, v: Walk, width: Width, data: word)
    requires m.Running? && Alike(m, n) && w.Walk? && SameWalk(w, v)
    ensures Alike(Deliver(m, w, width, data), Deliver(n, v, width, data))
  {
    hide Stores, Sends;
  }

  lemma AccessAgrees(m: Machine, n: Machine, w: Watch, op: Op)
    requires m.Running? && Sound(m, w) && Alike(m, n) && Disciplined(m, w, op) && (op.Read? || op.Write?)
    ensures Alike(Step(m, op, true), Step(n, op, false))
  {
    hide Sound, Lookup, FairHit, Missed, Repeated, Perform, Deliver, EnableBit, ByteMode;
    match op
    case Read(side, width, va) =>
      LookupAgrees(m, n, w, side, width, va);
      var x, y := Lookup(m, side, width, va, true), Lookup(n, side, width, va, false);
      if x.Walk? { PerformAgrees(m, n, x, y, side, width); }
    case Write(width, va, data) =>
      LookupAgrees(m, n, w, Data, width, va);
      var x, y := Lookup(m, Data, width, va, true), Lookup(n, Data, width, va, false);
      if x.Walk? { DeliverAgrees(m, n, x, y, width, data); }
  }

  lemma StepAgrees(m: Machine, n: Machine, w: Watch, op: Op)
    requires Sound(m, w) && Alike(m, n) && Disciplined(m, w, op)
    ensures Alike(Step(m, op, true), Step(n, op, false))
  {
    hide Sound, ReadStep, WriteStep, Disciplined, EnableBit, ByteMode;
    if m.Running? && (op.Read? || op.Write?) {
      AccessAgrees(m, n, w, op);
    }
  }

  /**
   The TLB is transparent: over every disciplined run the machine with it does what the
   machine that walks every time does.
   */
  lemma {:induction false} TlbIsTransparent(m: Machine, n: Machine, w: Watch, ops: seq<Op>)
    requires Sound(m, w) && Alike(m, n) && AllDisciplined(m, w, ops)
    ensures Alike(Run(m, ops, true), Run(n, ops, false))
    decreases |ops|
  {
    hide Sound, Alike, Step, Watching, Disciplined;
    if ops != [] {
      StepAgrees(m, n, w, ops[0]);
      DisciplinedRepeats(m, w, ops[0]);
      StepSound(m, w, ops[0]);
      TlbIsTransparent(Step(m, ops[0], true), Step(n, ops[0], false), Watching(m, ops[0], w), ops[1..]);
    }
  }

  /** So from one start both builds show the same bus traffic, and end alike in registers, memory, mode and fault flag. */
  lemma BuildsAgree(m: Machine, w: Watch, ops: seq<Op>)
    requires Sound(m, w) && AllDisciplined(m, w, ops)
    ensures var x, y := Run(m, ops, true), Run(m, ops, false);
            && x.trace == y.trace && (x.Halted? <==> y.Halted?)
            && (x.Running? ==> x.regs == y.regs && x.ram == y.ram && x.mode == y.mode && x.fault == y.fault)
  {
    hide Run, Sound, AllDisciplined;
    TlbIsTransparent(m, m, w, ops);
  }

  lemma DisciplinedRepeats(m: Machine, w: Watch, op: Op)
    requires Disciplined(m, w, op)
    ensures Repeated(m, op)
  {
    hide Repeated;
  }
}
