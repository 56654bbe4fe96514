/**
 What the page walk answers, read off the raw bits of the descriptors, of the control and
 domain registers and of the address: chapter B3 of the ARM Architecture Reference Manual
 as core/memory.c carries it out.
 */
module Descriptors {
  import opened Words
  import opened Mmu

  ghost predicate At<K, V>(m: map<K, V>, k: K, v: V) {
    k in m && m[k] == v
  }

  lemma GetAt<K, V>(m: map<K, V>, k: K, v: V)
    ensures Get(m, k) == Some(v) <==> At(m, k, v)
  {
  }

  /** Only the four DRAM banks hold page tables. */
  ghost predicate Holds(ram: Ram, pa: word, w: word) {
    && (pa >> 24 == 0xc0 || pa >> 24 == 0xc1 || pa >> 24 == 0xc8 || pa >> 24 == 0xc9)
    && At(ram, pa & 0xffff_fffc, w)
  }

  lemma HeldIsRead(ram: Ram, pa: word, w: word)
    ensures PhysicalWord(ram, pa) == Some(w) <==> Holds(ram, pa, w)
  {
    hide At, Get;
    GetAt(ram, pa & 0xffff_fffc, w);
  }

  /** A row of the permission table, by the two AP bits, R and S: user read and write, privileged read and write. */
  ghost function Row(ap1: bool, ap0: bool, r: bool, s: bool): (bool, bool, bool, bool) {
    if !ap1 && !ap0 then
      if !r && !s then (false, false, false, false)
      else if !r && s then (false, false, true, false)
      else if r && !s then (true, false, true, false)
      else (false, false, false, false)
    else if !ap1 && ap0 then (false, false, true, true)
    else if ap1 && !ap0 then (true, false, true, true)
    else (true, true, true, true)
  }

  /** All sixteen rows, both pairs of columns. */
  lemma PermissionRows(ap: word, rs: word, user: bool)
    requires ap < 4 && rs < 4
    ensures var (ur, uw, pr, pw) := Row(ap & 2 != 0, ap & 1 != 0, rs & 2 != 0, rs & 1 != 0);
            Permissions(ap, rs, user) == if user then (ur, uw) else (pr, pw)
  {
  }

  /** The privileged columns for AP bits `ap`, with R and S as bits 9 and 8 of the control register. */
  ghost function Privileged(r: Regs, ap: word): (bool, bool) {
    var row := Row(ap & 2 != 0, ap & 1 != 0, r.control & 0x200 != 0, r.control & 0x100 != 0);
    (row.2, row.3)
  }

  /** Whatever the mode, a client is checked as privileged. */
  lemma CheckedAsPrivileged(r: Regs, mode: word, ap: word)
    requires ap < 4
    ensures Permissions(ap, SystemRom(r), IsUser(mode)) == Privileged(r, ap)
  {
    hide Permissions, Row;
    ControlBits(r.control);
    NeverUser(mode);
    PermissionRows(ap, SystemRom(r), false);
  }

  lemma ControlBits(control: word)
    ensures var rs := (control >> 8) & 3;
            rs < 4 && (rs & 2 != 0 <==> control & 0x200 != 0) && (rs & 1 != 0 <==> control & 0x100 != 0)
  {
  }

  lemma NeverUser(mode: word)
    ensures !IsUser(mode)
  {
  }

  /** The walk has mapped `va` to `pa`: the entry spans `mask`, with the handlers of that address. */
  ghost function Filled(t: Tlb, mode: word, va: word, pa: word, mask: word, perms: (bool, bool), fault: bool): Walk {
    match PhysicalMap(t.handlers, pa, perms.0, perms.1)
    case None => Stopped
    case Some(h) => Walk(pa, Tlb(va & mask, pa & mask, mask, mode, h), fault)
  }

  /** A domain fault. */
  ghost function Denied(t: Tlb): Walk {
    Walk(0xdead_beef, t.(modestamp := 0xffff_ffff), true)
  }

  /** The two bits of the domain register for the domain named in bits 5 to 8 of a descriptor. */
  ghost function DomainBits(r: Regs, l1: word): word {
    (r.domains >> (2 * ((l1 >> 5) & 15))) & 3
  }

  ghost predicate AlignmentFault(r: Regs, va: word, alignment: word) {
    r.control & 2 != 0 && va & (alignment - 1) != 0
  }

  /** Where the first- and second-level tables are read. */
  ghost predicate FirstWord(r: Regs, ram: Ram, va: word, l1: word) {
    Holds(ram, r.base | ((va >> 20) << 2), l1)
  }

  ghost predicate SecondWord(ram: Ram, va: word, l1: word, l2: word) {
    Holds(ram, (l1 & 0xffff_fc00) | (((va >> 12) & 0xff) << 2), l2)
  }

  lemma FirstRead(r: Regs, ram: Ram, va: word, l1: word)
    ensures PhysicalWord(ram, FirstLevelAddress(r, va)) == Some(l1) <==> FirstWord(r, ram, va, l1)
  {
    hide Holds, PhysicalWord;
    HeldIsRead(ram, FirstLevelAddress(r, va), l1);
  }

  lemma SecondAddress(l1: word)
    ensures (l1 >> 10) << 10 == l1 & 0xffff_fc00
  {
  }

  lemma SecondRead(ram: Ram, va: word, l1: word, l2: word)
    ensures PhysicalWord(ram, SecondLevelAddress(l1, va)) == Some(l2) <==> SecondWord(ram, va, l1, l2)
  {
    hide Holds, PhysicalWord;
    SecondAddress(l1);
    HeldIsRead(ram, SecondLevelAddress(l1, va), l2);
  }

  lemma DomainDecides(r: Regs, l1: word)
    ensures IsClient(r, l1) <==> DomainBits(r, l1) == 1
    ensures DomainRefuses(r, l1) <==> DomainBits(r, l1) == 0 || DomainBits(r, l1) == 2
  {
    Doubled((l1 >> 5) & 0xf);
  }

  lemma Doubled(x: word)
    requires x < 16
    ensures x << 1 == 2 * x < 32
  {
  }

  /** What a client may do by AP bits `ap`; a manager may do everything. */
  ghost function Allowed(r: Regs, l1: word, ap: word): (bool, bool) {
    if DomainBits(r, l1) == 1 then Privileged(r, ap) else (true, true)
  }

  lemma InstallsFilled(g: Grant, va: word, mode: word, t: Tlb, fault: bool, perms: (bool, bool))
    requires g.readperm == perms.0 && g.writeperm == perms.1
    ensures Install(g, va, mode, t, fault) == Filled(t, mode, va, g.pa, g.mask, perms, fault)
  {
    hide PhysicalMap;
  }

  // ---------- sections ----------

  lemma SectionAddress(l1: word, va: word)
    ensures Join(l1, 0xfff0_0000, va) == (l1 & 0xfff0_0000) | (va & 0x000f_ffff)
    ensures Ap(l1, 3) == (l1 >> 10) & 3 < 4
  {
  }

  lemma SectionFilled(r: Regs, mode: word, t: Tlb, va: word, l1: word, fault: bool)
    ensures Install(SectionGrant(r, mode, l1, va), va, mode, t, fault)
         == Filled(t, mode, va, (l1 & 0xfff0_0000) | (va & 0x000f_ffff), 0xfff0_0000,
                   Allowed(r, l1, (l1 >> 10) & 3), fault)
  {
    hide Install, Filled, Join, Ap, IsClient, DomainBits, Permissions, Privileged, SystemRom, IsUser;
    DomainDecides(r, l1);
    SectionAddress(l1, va);
    CheckedAsPrivileged(r, mode, (l1 >> 10) & 3);
    InstallsFilled(SectionGrant(r, mode, l1, va), va, mode, t, fault, Allowed(r, l1, (l1 >> 10) & 3));
  }

  lemma AlignmentFaults(r: Regs, va: word, alignment: word)
    ensures Misaligned(r, va, alignment) == AlignmentFault(r, va, alignment)
  {
  }

  /**
   A section: refused for domain bits 0 and 2, unchecked for 3, and for 1 checked against
   the row its AP bits 10 and 11 select.  A megabyte is mapped, with the fault flag of a
   misaligned address.
   */
  lemma SectionTranslated(r: Regs, ram: Ram, mode: word, t: Tlb, va: word, alignment: word, l1: word)
    requires r.control & 1 == 1 && FirstWord(r, ram, va, l1) && l1 & 3 == 2
    ensures var access := DomainBits(r, l1);
            Translate(r, ram, mode, t, va, alignment) ==
            if access == 0 || access == 2 then Denied(t)
            else Filled(t, mode, va, (l1 & 0xfff0_0000) | (va & 0x000f_ffff), 0xfff0_0000,
                        if access == 1 then Privileged(r, (l1 >> 10) & 3) else (true, true),
                        AlignmentFault(r, va, alignment))
  {
    hide FirstWord, PhysicalWord, FirstLevelAddress, Install, Filled, SectionGrant, DomainRefuses, DomainBits,
         Misaligned, AlignmentFault, Privileged;
    FirstRead(r, ram, va, l1);
    DomainDecides(r, l1);
    AlignmentFaults(r, va, alignment);
    SectionFilled(r, mode, t, va, l1, AlignmentFault(r, va, alignment));
  }

  // ---------- pages ----------

  /** The four pairs of AP bits of a page descriptor are one pair. */
  ghost predicate OneRow(l2: word) {
    var aps := (l2 >> 4) & 0xff;
    aps == 0x00 || aps == 0x55 || aps == 0xaa || aps == 0xff
  }

  lemma SameRow(l2: word)
    ensures FullPage(l2) == OneRow(l2)
  {
  }

  lemma LargeAddress(l2: word, va: word)
    ensures Join(l2, 0xffff_0000, va) == (l2 & 0xffff_0000) | (va & 0xffff)
    ensures LargeSubpage(va) == (va >> 14) & 3 < 4
  {
  }

  lemma SmallAddress(l2: word, va: word)
    ensures Join(l2, 0xffff_f000, va) == (l2 & 0xffff_f000) | (va & 0xfff)
    ensures SmallSubpage(va) == (va >> 10) & 3 < 4
  {
  }

  lemma QuarterBits(l2: word, sub: word)
    requires sub < 4
    ensures Ap(l2, sub) == (l2 >> (4 + 2 * sub)) & 3 < 4
  {
  }

  /** How far a page's entry reaches. */
  ghost function Reach(r: Regs, l1: word, l2: word, whole: word, quarter: word): word {
    if DomainBits(r, l1) == 1 && !OneRow(l2) then quarter else whole
  }

  lemma PageFilled(r: Regs, mode: word, t: Tlb, va: word, l1: word, l2: word, whole: word, quarter: word, sub: word,
                   fault: bool)
    requires sub < 4
    ensures Install(PageGrant(r, mode, l1, l2, va, whole, quarter, sub), va, mode, t, fault)
         == Filled(t, mode, va, Join(l2, whole, va), Reach(r, l1, l2, whole, quarter),
                   Allowed(r, l1, (l2 >> (4 + 2 * sub)) & 3), fault)
  {
    hide Install, Filled, Join, Ap, IsClient, DomainBits, Permissions, Privileged, SystemRom, IsUser, FullPage, OneRow;
    DomainDecides(r, l1);
    SameRow(l2);
    QuarterBits(l2, sub);
    CheckedAsPrivileged(r, mode, (l2 >> (4 + 2 * sub)) & 3);
    InstallsFilled(PageGrant(r, mode, l1, l2, va, whole, quarter, sub), va, mode, t, fault,
                   Allowed(r, l1, (l2 >> (4 + 2 * sub)) & 3));
  }

  /** The walk through a second-level table, up to what the page maps. */
  lemma PageWalk(r: Regs, ram: Ram, mode: word, t: Tlb, va: word, alignment: word, l1: word, l2: word)
    requires r.control & 1 == 1 && FirstWord(r, ram, va, l1) && l1 & 3 == 1 && SecondWord(ram, va, l1, l2)
    ensures var access, fault := DomainBits(r, l1), AlignmentFault(r, va, alignment);
            Translate(r, ram, mode, t, va, alignment) ==
            if access == 0 || access == 2 then Denied(t)
            else if l2 & 3 == 1 then Install(LargeGrant(r, mode, l1, l2, va), va, mode, t, fault)
            else if l2 & 3 == 2 then Install(SmallGrant(r, mode, l1, l2, va), va, mode, t, fault)
            else Stopped
  {
    hide FirstWord, SecondWord, PhysicalWord, FirstLevelAddress, SecondLevelAddress, Install, LargeGrant, SmallGrant,
         DomainRefuses, DomainBits, Misaligned, AlignmentFault;
    FirstRead(r, ram, va, l1);
    SecondRead(ram, va, l1, l2);
    DomainDecides(r, l1);
    AlignmentFaults(r, va, alignment);
  }

  /**
   A large page, by address bits 14 and 15 for its quarter: the quarter's AP bits are
   checked for a client, and the entry reaches over 64K or, when a client's quarters
   differ, over 16K.
   */
  lemma LargePageTranslated(r: Regs, ram: Ram, mode: word, t: Tlb, va: word, alignment: word, l1: word, l2: word)
    requires r.control & 1 == 1 && FirstWord(r, ram, va, l1) && l1 & 3 == 1 && SecondWord(ram, va, l1, l2)
    requires l2 & 3 == 1
    ensures var access, quarter := DomainBits(r, l1), (va >> 14) & 3;
            Translate(r, ram, mode, t, va, alignment) ==
            if access == 0 || access == 2 then Denied(t)
            else Filled(t, mode, va, (l2 & 0xffff_0000) | (va & 0xffff),
                        if access == 1 && !OneRow(l2) then 0xffff_c000 else 0xffff_0000,
                        if access == 1 then Privileged(r, (l2 >> (4 + 2 * quarter)) & 3) else (true, true),
                        AlignmentFault(r, va, alignment))
  {
    hide FirstWord, SecondWord, Install, Filled, PageGrant, DomainBits, Misaligned, AlignmentFault, Privileged, Join,
         LargeSubpage, OneRow, Translate;
    PageWalk(r, ram, mode, t, va, alignment, l1, l2);
    LargeAddress(l2, va);
    PageFilled(r, mode, t, va, l1, l2, LARGE, LARGE_QUARTER, LargeSubpage(va), AlignmentFault(r, va, alignment));
  }

  /** A small page, by address bits 10 and 11: 4K, or 1K when a client's quarters differ. */
  lemma SmallPageTranslated(r: Regs, ram: Ram, mode: word, t: Tlb, va: word, alignment: word, l1: word, l2: word)
    requires r.control & 1 == 1 && FirstWord(r, ram, va, l1) && l1 & 3 == 1 && SecondWord(ram, va, l1, l2)
    requires l2 & 3 == 2
    ensures var access, quarter := DomainBits(r, l1), (va >> 10) & 3;
            Translate(r, ram, mode, t, va, alignment) ==
            if access == 0 || access == 2 then Denied(t)
            else Filled(t, mode, va, (l2 & 0xffff_f000) | (va & 0xfff),
                        if access == 1 && !OneRow(l2) then 0xffff_fc00 else 0xffff_f000,
                        if access == 1 then Privileged(r, (l2 >> (4 + 2 * quarter)) & 3) else (true, true),
                        AlignmentFault(r, va, alignment))
  {
    hide FirstWord, SecondWord, Install, Filled, PageGrant, DomainBits, Misaligned, AlignmentFault, Privileged, Join,
         SmallSubpage, OneRow, Translate;
    PageWalk(r, ram, mode, t, va, alignment, l1, l2);
    SmallAddress(l2, va);
    PageFilled(r, mode, t, va, l1, l2, SMALL, SMALL_QUARTER, SmallSubpage(va), AlignmentFault(r, va, alignment));
  }

  // ---------- everything else ----------

  /** With the MMU off every address is its own, over 16MB, without any check. */
  lemma OffTranslated(r: Regs, ram: Ram, mode: word, t: Tlb, va: word, alignment: word)
    requires r.control & 1 == 0
    ensures Translate(r, ram, mode, t, va, alignment)
         == Filled(t, mode, va, va, 0xff00_0000, (true, true), false)
  {
    hide PhysicalMap;
  }

  /** Exactly the walks that end without a page: an unreadable table word, a descriptor of another kind. */
  lemma StopsUnmapped(r: Regs, ram: Ram, mode: word, t: Tlb, va: word, alignment: word)
    requires r.control & 1 == 1
    ensures (forall l1 :: !FirstWord(r, ram, va, l1)) ==> Translate(r, ram, mode, t, va, alignment) == Stopped
    ensures forall l1 :: FirstWord(r, ram, va, l1) && (l1 & 3 == 0 || l1 & 3 == 3)
              ==> Translate(r, ram, mode, t, va, alignment) == Stopped
    ensures forall l1 :: FirstWord(r, ram, va, l1) && l1 & 3 == 1 && (forall l2 :: !SecondWord(ram, va, l1, l2))
              ==> Translate(r, ram, mode, t, va, alignment) == Stopped
    ensures forall l1, l2 :: FirstWord(r, ram, va, l1) && l1 & 3 == 1 && SecondWord(ram, va, l1, l2)
              && (l2 & 3 == 0 || l2 & 3 == 3) && (DomainBits(r, l1) == 1 || DomainBits(r, l1) == 3)
              ==> Translate(r, ram, mode, t, va, alignment) == Stopped
  {
    hide FirstWord, SecondWord, PhysicalWord, FirstLevelAddress, SecondLevelAddress, Install, LargeGrant, SmallGrant,
         SectionGrant, DomainRefuses, DomainBits, Misaligned;
    var first := PhysicalWord(ram, FirstLevelAddress(r, va));
    if first.Some? {
      var l1 := first.value;
      FirstRead(r, ram, va, l1);
      var second := PhysicalWord(ram, SecondLevelAddress(l1, va));
      if second.Some? { SecondRead(ram, va, l1, second.value); }
      forall l1' | FirstWord(r, ram, va, l1') ensures l1' == l1 { FirstRead(r, ram, va, l1'); }
      forall l2 | SecondWord(ram, va, l1, l2) ensures second == Some(l2) { SecondRead(ram, va, l1, l2); }
      DomainDecides(r, l1);
    } else {
      forall l1 ensures !FirstWord(r, ram, va, l1) { FirstRead(r, ram, va, l1); }
    }
  }

  /** An entry is used for the addresses of its span in the mode it was filled in. */
  lemma MatchExactly(t: Tlb, mode: word, va: word)
    ensures Hits(t, mode, va) <==> t.modestamp == mode && va & t.mask == t.virtual
    ensures HitAddress(t, va) == t.physical | (va & !t.mask)
  {
    assert Masked(va, t.mask) == va & t.mask;
    hide Masked;
  }

  // ---------- the physical map ----------

  /** Nothing is mapped under these top bytes, and an address there aborts. */
  ghost predicate Unmapped(top: word) {
    || 0x01 <= top <= 0x07 || 0x09 <= top <= 0x7f || 0x81 <= top <= 0x8f || 0x91 <= top <= 0x9f
    || 0xa1 <= top <= 0xaf || 0xb1 <= top <= 0xbf || 0xe8 <= top
  }

  /** The gaps between the DRAM banks leave the entry's handlers as they were. */
  ghost predicate Gap(top: word) {
    0xc2 <= top <= 0xc7 || 0xca <= top <= 0xdf
  }

  /** The read and write functions of a mapped 16MB, by its top byte. */
  ghost predicate Serves(top: word, reader: Reader, writer: Writer) {
    match reader
    case RomRead => (top == 0x00 || top == 0x08) && writer == RomWrite
    case SerialRead => top == 0x80 && writer == SerialWrite
    case TimerRead => top == 0x90 && writer == TimerWrite
    case MemCtlRead => top == 0xa0 && writer == MemCtlWrite
    case LcdRead => top == 0xb0 && writer == LcdWrite
    case BankRead(b) => b == top && (top == 0xc0 || top == 0xc1 || top == 0xc8 || top == 0xc9) && writer == BankWrite(top)
    case ZeroRead => 0xe0 <= top <= 0xe7 && writer == NullWrite
    case _ => false
  }

  /** Each permission lets its own function of the address through, or puts the faulting one in its place. */
  lemma MapRows(h: Handlers, pa: word, readperm: bool, writeperm: bool)
    ensures var m, top := PhysicalMap(h, pa, readperm, writeperm), pa >> 24;
            && (m == None <==> Unmapped(top))
            && (Gap(top) ==> m == Some(h))
            && (!Unmapped(top) && !Gap(top) ==>
                  exists reader, writer :: Serves(top, reader, writer)
                    && m == Some(Handlers(if readperm then reader else FaultRead, if writeperm then writer else FaultWrite)))
  {
    var top := pa >> 24;
    assert pa >> 24 <= 0xff;
    if !Unmapped(top) && !Gap(top) {
      var reader, writer :=
        if top == 0x00 || top == 0x08 then RomRead else if top == 0x80 then SerialRead else if top == 0x90 then TimerRead
        else if top == 0xa0 then MemCtlRead else if top == 0xb0 then LcdRead else if top < 0xe0 then BankRead(top) else ZeroRead,
        if top == 0x00 || top == 0x08 then RomWrite else if top == 0x80 then SerialWrite else if top == 0x90 then TimerWrite
        else if top == 0xa0 then MemCtlWrite else if top == 0xb0 then LcdWrite else if top < 0xe0 then BankWrite(top) else NullWrite;
      assert Serves(top, reader, writer);
    }
  }
}
