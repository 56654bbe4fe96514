/**
 One access of the memory system in its smallest parts: which bits of which word a byte,
 half or word of a DRAM bank is, what counts as misaligned, and which operations outdate a
 TLB entry (core/memory.c, mach/lart/lartmem.c).
 */
module Accesses {
  import opened Words
  import opened Mmu
  import opened Descriptors
  import opened TlbRuns

  // ---------- bytes, halves and words ----------

  ghost function Size(width: Width): word {
    match width
    case Word => 32
    case Half => 16
    case Byte => 8
  }

  /** Little-endian: bytes at bits 0, 8, 16 and 24, halves at bits 0 and 16. */
  ghost function FirstBit(width: Width, pa: word): (k: word)
    ensures k < 32 && k + Size(width) <= 32
  {
    match width
    case Word => 0
    case Half => if pa & 2 == 0 then 0 else 16
    case Byte => if pa & 3 == 0 then 0 else if pa & 3 == 1 then 8 else if pa & 3 == 2 then 16 else 24
  }

  lemma LaneIsFirstBit(width: Width, pa: word)
    ensures Lane(width, pa) == FirstBit(width, pa)
  {
  }

  lemma MaskBits(width: Width, k: word)
    requires k < 32
    ensures Bit(LaneMask(width), k) <==> k < Size(width)
  {
  }

  lemma TakenParts(cell: word, mask: word, s: word)
    requires s < 32
    ensures Taken(cell, mask, s) == And(Lsr(cell, s), mask)
  {
  }

  lemma PutParts(cell: word, data: word, mask: word, s: word)
    requires s < 32
    ensures Put(cell, data, mask, s) == Orr(And(cell, Not(Lsl(mask, s))), Lsl(And(data, mask), s))
  {
  }

  lemma TakenBits(cell: word, mask: word, s: word, k: word)
    requires s < 32 && k < 32
    ensures Bit(Taken(cell, mask, s), k) <==> Bit(Lsr(cell, s), k) && Bit(mask, k)
  {
    hide *;
    TakenParts(cell, mask, s);
    AndBits(Lsr(cell, s), mask, k);
  }

  lemma PutBits(cell: word, data: word, mask: word, s: word, k: word)
    requires s < 32 && k < 32
    ensures Bit(Put(cell, data, mask, s), k) <==>
            if k >= s && Bit(mask, k - s) then Bit(data, k - s) else Bit(cell, k)
  {
    hide *;
    PutParts(cell, data, mask, s);
    OrrBits(And(cell, Not(Lsl(mask, s))), Lsl(And(data, mask), s), k);
    AndBits(cell, Not(Lsl(mask, s)), k);
    NotBits(Lsl(mask, s), k);
    LslBits(mask, s, k);
    LslBits(And(data, mask), s, k);
    if k >= s { AndBits(data, mask, k - s); }
  }

  /** A lane lies within its word. */
  lemma LaneFits(width: Width, pa: word, k: word)
    requires k < Size(width)
    ensures var s := FirstBit(width, pa); k < 32 && s + k < 32 && k + s == s + k
  {
  }

  lemma OutOfLane(width: Width, pa: word, k: word)
    requires k < 32
    ensures var s := FirstBit(width, pa); k < s || k >= s + Size(width) ==> !(k >= s && k - s < Size(width))
  {
  }

  /** What is read out of a word. */
  lemma ExtractBits(width: Width, pa: word, cell: word, k: word)
    requires k < 32
    ensures k < Size(width) ==> FirstBit(width, pa) + k < 32
    ensures Bit(Extract(width, pa, cell), k) <==> k < Size(width) && Bit(cell, FirstBit(width, pa) + k)
  {
    hide Bit, Lsr, Lane, LaneMask, Taken, Size, FirstBit;
    var s := FirstBit(width, pa);
    LaneIsFirstBit(width, pa);
    MaskBits(width, k);
    TakenBits(cell, LaneMask(width), s, k);
    if k < Size(width) {
      LaneFits(width, pa, k);
      LsrBits(cell, s, k);
    }
  }

  /** What is put into it: the data's bits in the lane, and the old ones elsewhere. */
  lemma MergeInside(width: Width, pa: word, cell: word, data: word, k: word)
    requires k < 32 && k >= FirstBit(width, pa) && k - FirstBit(width, pa) < Size(width)
    ensures k - FirstBit(width, pa) < 32
    ensures Bit(Merge(width, pa, cell, data), k) <==> Bit(data, k - FirstBit(width, pa))
  {
    hide Bit, Lane, LaneMask, Put, Size, FirstBit;
    var s := FirstBit(width, pa);
    LaneIsFirstBit(width, pa);
    MaskBits(width, k - s);
    PutBits(cell, data, LaneMask(width), s, k);
  }

  lemma MergeOutside(width: Width, pa: word, cell: word, data: word, k: word)
    requires k < 32 && (k < FirstBit(width, pa) || k >= FirstBit(width, pa) + Size(width))
    ensures Bit(Merge(width, pa, cell, data), k) <==> Bit(cell, k)
  {
    hide Bit, Lane, LaneMask, Put, Size, FirstBit;
    var s := FirstBit(width, pa);
    LaneIsFirstBit(width, pa);
    OutOfLane(width, pa, k);
    PutBits(cell, data, LaneMask(width), s, k);
    if k >= s { MaskBits(width, k - s); }
  }

  /** The word of a bank that a physical address selects. */
  lemma BankWordExactly(bank: word, pa: word)
    requires bank < 0x100
    ensures BankWord(bank, pa) >> 24 == bank && BankWord(bank, pa) & 0x00ff_ffff == pa & 0x00ff_fffc
  {
  }

  lemma OwnBankWord(pa: word)
    ensures BankWord(pa >> 24, pa) == WordAddress(pa)
  {
  }

  lemma PutAt<K, V>(m: map<K, V>, k: K, v: V)
    ensures At(m[k := v], k, v)
  {
  }

  ghost predicate Absent<K, V>(m: map<K, V>, k: K) {
    k !in m
  }

  lemma GetAbsent<K, V>(m: map<K, V>, k: K)
    ensures Get(m, k) == None <==> Absent(m, k)
  {
  }

  /** A read of a bank gives the addressed part of the word, or 0 beyond the bank; a write changes that part only. */
  lemma BankExactly(ram: Ram, bank: word, width: Width, pa: word, data: word, cell: word)
    ensures At(ram, BankWord(bank, pa), cell) ==>
              && BankLoad(ram, bank, width, pa) == Extract(width, pa, cell)
              && BankStore(ram, bank, width, pa, data) == ram[BankWord(bank, pa) := Merge(width, pa, cell, data)]
    ensures Absent(ram, BankWord(bank, pa)) ==>
              BankLoad(ram, bank, width, pa) == 0 && BankStore(ram, bank, width, pa, data) == ram
  {
    hide Extract, Merge, BankWord, Get, At, Absent;
    GetAt(ram, BankWord(bank, pa), cell);
    GetAbsent(ram, BankWord(bank, pa));
  }

  /** A word stored through a bank is the word that a page walk reads at that address. */
  lemma StoredIsWalked(ram: Ram, pa: word, cell: word, data: word)
    requires Holds(ram, pa, cell)
    ensures Holds(BankStore(ram, pa >> 24, Word, pa, data), pa, data)
  {
    OwnBankWord(pa);
    hide Merge, BankWord, At, Absent;
    BankExactly(ram, pa >> 24, Word, pa, data, cell);
    WholeWord(pa, cell, data);
    PutAt(ram, WordAddress(pa), data);
  }

  lemma WholeWord(pa: word, cell: word, data: word)
    ensures Merge(Word, pa, cell, data) == data
  {
  }

  // ---------- alignment ----------

  /** With alignment checks on, words at multiples of 4 and halves at multiples of 2 are aligned, and all bytes. */
  lemma MisalignedExactly(r: Regs, width: Width, va: word)
    ensures Misaligned(r, va, Alignment(width)) <==>
            r.control & 2 != 0 && match width
                                  case Word => va & 3 != 0
                                  case Half => va & 1 != 0
                                  case Byte => false
  {
  }

  // ---------- modes and the control register ----------

  lemma ByteModeExactly(mode: word)
    ensures ByteMode(mode) < 0x100 && (mode < 0x100 ==> ByteMode(mode) == mode)
    ensures (ByteMode(mode) ^ mode) & 0xff == 0
  {
  }

  lemma EnableBitExactly(control: word, control': word)
    ensures EnableBit(control) != EnableBit(control') <==> (control ^ control') & 1 != 0
  {
  }

  /** An entry that no mode matches, its other fields as they were. */
  ghost function Emptied(t: Tlb): Tlb {
    t.(modestamp := 0xffff_ffff)
  }

  /** A new control value empties both entries exactly when bit 0 changes. */
  lemma ControlExactly(m: Machine, control: word, cached: bool)
    requires m.Running?
    ensures Step(m, SetControl(control), cached) ==
            if (m.regs.control ^ control) & 1 != 0
            then m.(regs := m.regs.(control := control), insttlb := Emptied(m.insttlb), datatlb := Emptied(m.datatlb))
            else m.(regs := m.regs.(control := control))
  {
    hide EnableBit;
    EnableBitExactly(m.regs.control, control);
  }

  // ---------- stale entries ----------

  /** The address of an access matches the entry it goes through. */
  ghost predicate Matches(m: Machine, side: Side, va: word)
    requires m.Running?
  {
    Hits(if side.Inst? then m.insttlb else m.datatlb, m.mode, va)
  }

  lemma MissedExactly(m: Machine, side: Side, va: word)
    requires m.Running?
    ensures Missed(m, side, va) <==> !Matches(m, side, va)
  {
    hide Hits;
  }

  /** Registers that change the walk: with the MMU on, another base, another domain register, other S or R bits. */
  ghost predicate Rewalks(r: Regs, r': Regs) {
    || (r.control ^ r'.control) & 1 != 0
    || (r.control & 1 == 1 && (r.base != r'.base || r.domains != r'.domains || (r.control ^ r'.control) & 0x300 != 0))
  }

  lemma AlikeExactly(r: Regs, r': Regs)
    ensures WalkAlike(r, r') <==> !Rewalks(r, r')
  {
    ControlParts(r.control, r'.control);
  }

  lemma ControlParts(c: word, c': word)
    ensures (c & 1 == 1) == (c' & 1 == 1) <==> (c ^ c') & 1 == 0
    ensures (c >> 8) & 3 == (c' >> 8) & 3 <==> (c ^ c') & 0x300 == 0
  {
  }

  /** The words of the first- and second-level tables that belong to an address. */
  ghost function FirstCell(r: Regs, va: word): word {
    (r.base | ((va >> 20) << 2)) & 0xffff_fffc
  }

  ghost function SecondCell(l1: word, va: word): word {
    ((l1 & 0xffff_fc00) | (((va >> 12) & 0xff) << 2)) & 0xffff_fffc
  }

  lemma FirstCellExactly(r: Regs, va: word)
    ensures WordAddress(FirstLevelAddress(r, va)) == FirstCell(r, va)
  {
  }

  lemma SecondLevelExactly(l1: word, va: word)
    ensures SecondLevelAddress(l1, va) == (l1 & 0xffff_fc00) | (((va >> 12) & 0xff) << 2)
  {
    SecondAddress(l1);
  }

  lemma SecondCellExactly(l1: word, va: word)
    ensures WordAddress(SecondLevelAddress(l1, va)) == SecondCell(l1, va)
  {
    hide SecondLevelAddress;
    SecondLevelExactly(l1, va);
  }

  lemma MmuOnExactly(r: Regs)
    ensures MmuOn(r) <==> r.control & 1 == 1
  {
  }

  /** A walk with the MMU on reads the first-level word, and the second-level one if that names a coarse table. */
  lemma TableWordExactly(r: Regs, ram: Ram, va: word, cell: word)
    ensures TableWord(r, ram, va, cell) <==>
            MmuOn(r) && (cell == FirstCell(r, va)
                         || exists l1 :: FirstWord(r, ram, va, l1) && l1 & 3 == 1 && cell == SecondCell(l1, va))
  {
    hide PhysicalWord, FirstWord, WordAddress, FirstLevelAddress, SecondLevelAddress, FirstCell, SecondCell, MmuOn;
    var first := PhysicalWord(ram, FirstLevelAddress(r, va));
    FirstCellExactly(r, va);
    if first.Some? {
      FirstRead(r, ram, va, first.value);
      SecondCellExactly(first.value, va);
    }
    forall l1 | FirstWord(r, ram, va, l1) ensures first == Some(l1) { FirstRead(r, ram, va, l1); }
  }

  /** A write to a bank word that a walk within the span of `t` reads. */
  ghost predicate Overwrites(m: Machine, va: word, width: Width, t: Tlb)
    requires m.Running?
  {
    var look := Lookup(m, Data, width, va, true);
    && look.Walk? && look.tlb.handlers.write.BankWrite?
    && Touches(m.regs, m.ram, t, BankWord(look.tlb.handlers.write.bank, look.pa))
  }

  /** When the instruction entry is stale after an operation. */
  lemma InstStaleExactly(m: Machine, op: Op, w: Watch)
    requires m.Running?
    ensures Watching(m, op, w).inst <==>
            match op
            case Read(side, _, va) => w.inst && !(side.Inst? && !Matches(m, Inst, va))
            case Write(width, va, _) => w.inst || Overwrites(m, va, width, m.insttlb)
            case SetMode(_) => w.inst
            case SetControl(control) =>
              (m.regs.control ^ control) & 1 == 0 && (w.inst || Rewalks(m.regs, m.regs.(control := control)))
            case SetBase(base) => w.inst || Rewalks(m.regs, m.regs.(base := base))
            case SetDomains(_) => false
            case Flush => false
  {
    hide Missed, Matches, Touches, BankWord, WalkAlike, Rewalks, EnableBit, Lookup;
    match op
    case Read(side, _, va) => MissedExactly(m, side, va);
    case SetControl(control) =>
      EnableBitExactly(m.regs.control, control);
      AlikeExactly(m.regs, m.regs.(control := control));
    case SetBase(base) => AlikeExactly(m.regs, m.regs.(base := base));
    case _ =>
  }

  /** And the data entry, which a write may refill first. */
  lemma DataStaleExactly(m: Machine, op: Op, w: Watch)
    requires m.Running?
    ensures Watching(m, op, w).data <==>
            match op
            case Read(side, _, va) => w.data && !(side.Data? && !Matches(m, Data, va))
            case Write(width, va, _) =>
              || (w.data && Matches(m, Data, va))
              || (var look := Lookup(m, Data, width, va, true); look.Walk? && Overwrites(m, va, width, look.tlb))
            case SetMode(_) => w.data
            case SetControl(control) =>
              (m.regs.control ^ control) & 1 == 0 && (w.data || Rewalks(m.regs, m.regs.(control := control)))
            case SetBase(base) => w.data || Rewalks(m.regs, m.regs.(base := base))
            case SetDomains(_) => false
            case Flush => false
  {
    hide Missed, Matches, Touches, BankWord, WalkAlike, Rewalks, EnableBit, Lookup;
    match op
    case Read(side, _, va) => MissedExactly(m, side, va);
    case Write(_, va, _) => MissedExactly(m, Data, va);
    case SetControl(control) =>
      EnableBitExactly(m.regs.control, control);
      AlikeExactly(m.regs, m.regs.(control := control));
    case SetBase(base) => AlikeExactly(m.regs, m.regs.(base := base));
    case _ =>
  }

  /** The matches a disciplined run may use are exactly those of unwatched entries that agree with the walk. */
  lemma FairHitExactly(m: Machine, w: Watch, side: Side, width: Width, va: word)
    requires m.Running? && m.mode != NO_MODE && Coherent(Entry(m, side), m.regs, m.ram) && Matches(m, side, va)
    ensures FairHit(m, w, side, width, va) <==>
            && !(if side.Inst? then w.inst else w.data)
            && Lookup(m, side, width, va, true) == Lookup(m, side, width, va, false)
  {
    hide Lookup, Coherent, Missed, Matches, MmuOn, Misaligned;
    MissedExactly(m, side, va);
    HitAgreesExactly(m, side, width, va);
  }

  /** The rule for large pages: each is found from all addresses of its 64K. */
  lemma RepeatedExactly(r: Regs, ram: Ram)
    ensures LargePagesRepeated(r, ram) <==>
            forall l1, l2, va, va' :: LargeAt(r, ram, va, l1, l2) && SameUnder(va, va', 0xffff_0000) ==> SecondWord(ram, va', l1, l2)
  {
    hide PhysicalWord, FirstWord, SecondWord, FirstLevelAddress, SecondLevelAddress, SameUnder;
    if LargePagesRepeated(r, ram) {
      forall l1, l2, va, va' | LargeAt(r, ram, va, l1, l2) && SameUnder(va, va', 0xffff_0000)
        ensures SecondWord(ram, va', l1, l2)
      {
        LargeIsRead(r, ram, va, l1, l2);
        SecondRead(ram, va', l1, l2);
        assert IsLarge(PhysicalWord(ram, SecondLevelAddress(l1, va)));
      }
    } else {
      var l1, va, va' :| SameUnder(va, va', LARGE) && PhysicalWord(ram, FirstLevelAddress(r, va)) == Some(l1) && l1 & 3 == 1
        && IsLarge(PhysicalWord(ram, SecondLevelAddress(l1, va)))
        && PhysicalWord(ram, SecondLevelAddress(l1, va')) != PhysicalWord(ram, SecondLevelAddress(l1, va));
      var l2 := PhysicalWord(ram, SecondLevelAddress(l1, va)).value;
      LargeIsRead(r, ram, va, l1, l2);
      SecondRead(ram, va', l1, l2);
    }
  }

  /** A coarse table of `va` holds the large-page descriptor `l2`. */
  ghost predicate LargeAt(r: Regs, ram: Ram, va: word, l1: word, l2: word) {
    FirstWord(r, ram, va, l1) && l1 & 3 == 1 && SecondWord(ram, va, l1, l2) && l2 & 3 == 1
  }

  lemma LargeIsRead(r: Regs, ram: Ram, va: word, l1: word, l2: word)
    ensures LargeAt(r, ram, va, l1, l2) <==>
            && PhysicalWord(ram, FirstLevelAddress(r, va)) == Some(l1) && l1 & 3 == 1
            && PhysicalWord(ram, SecondLevelAddress(l1, va)) == Some(l2) && l2 & 3 == 1
  {
    hide PhysicalWord, FirstWord, SecondWord, FirstLevelAddress, SecondLevelAddress;
    FirstRead(r, ram, va, l1);
    SecondRead(ram, va, l1, l2);
  }

  /**
   A disciplined operation: an access that matches is a fair one, and one that walks finds
   large-page descriptors repeated; every other operation is disciplined.
   */
  lemma DisciplinedExactly(m: Machine, w: Watch, op: Op)
    requires m.Running?
    ensures Disciplined(m, w, op) <==>
            match op
            case Read(side, width, va) =>
              if Matches(m, side, va) then FairHit(m, w, side, width, va) else LargePagesRepeated(m.regs, m.ram)
            case Write(width, va, _) =>
              if Matches(m, Data, va) then FairHit(m, w, Data, width, va) else LargePagesRepeated(m.regs, m.ram)
            case _ => true
  {
    hide Missed, Matches, FairHit, LargePagesRepeated;
    match op
    case Read(side, _, va) => MissedExactly(m, side, va);
    case Write(_, va, _) => MissedExactly(m, Data, va);
    case _ =>
  }
}
